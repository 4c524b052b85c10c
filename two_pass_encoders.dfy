/**
 * The encoders of the two-pass assembler (`asm2c-0113.py`). Every register,
 * table entry and immediate is masked to its width with Python's `&` before
 * it is shifted into place, so each word fits in 32 bits whatever the
 * operands. Where the single-pass encoders go wrong these are the intended
 * encodings: `srai` carries its funct7, the B-type word keeps imm[11] in
 * bit 7, and the U-type field is the 20-bit immediate as written.
 */
module TwoPassEncoders {
  import opened Results
  import opened Bits
  import opened Isa
  import opened Decode
  import opened Layouts
  import RV32IEncoders

  /** The mnemonics with an entry in the two-pass funct3 table. */
  predicate InFunct3Table(m: Mnemonic) {
    m.InTwoPassTables() && m.HasFunct3()
  }

  /** A value that fits in k bits is its own k low bits. */
  lemma Masked(x: nat, k: nat)
    requires x < Pow2(k)
    ensures Low(x, k) == x
  {
    ModSmall(x, Pow2(k));
  }

  // ---------------------------------------------------------------------
  // R-type

  /** `enc_r`. */
  function EncR(m: Mnemonic, rd: int, rs1: int, rs2: int): (w: int)
    requires m.IsRegister()
    ensures 0 <= w < 0x1_0000_0000
  {
    RLayoutBound(Low(Funct7(m), 7), Low(rs2, 5), Low(rs1, 5), Low(Funct3(m), 3), Low(rd, 5), Low(Opcode(m), 7));
    RLayout(Low(Funct7(m), 7), Low(rs2, 5), Low(rs1, 5), Low(Funct3(m), 3), Low(rd, 5), Low(Opcode(m), 7))
  }

  /**
   * An `enc_r` word decodes to the mnemonic's table entries, and each
   * register field holds the register number mod 32.
   */
  lemma EncRFields(m: Mnemonic, rd: int, rs1: int, rs2: int)
    requires m.IsRegister()
    ensures var w := EncR(m, rd, rs1, rs2);
      OpcodeOf(w) == Opcode(m) && Funct3Of(w) == Funct3(m) && Funct7Of(w) == Funct7(m)
      && RdOf(w) == Low(rd, 5) && Rs1Of(w) == Low(rs1, 5) && Rs2Of(w) == Low(rs2, 5)
  {
    Pow2Table();
    Masked(Funct7(m), 7);
    Masked(Funct3(m), 3);
    Masked(Opcode(m), 7);
    RWord(Funct7(m), Low(rs2, 5), Low(rs1, 5), Funct3(m), Low(rd, 5), Opcode(m));
  }

  /** For registers 0..31 the two assemblers give the same R-type word. */
  lemma EncRAgrees(m: Mnemonic, rd: nat, rs1: nat, rs2: nat)
    requires m.IsRegister() && rd < 32 && rs1 < 32 && rs2 < 32
    ensures EncR(m, rd, rs1, rs2) == RV32IEncoders.EncodeRType(m, rd, rs1, rs2)
  {
    Pow2Table();
    Masked(Funct7(m), 7);
    Masked(Funct3(m), 3);
    Masked(Opcode(m), 7);
    Masked(rd, 5);
    Masked(rs1, 5);
    Masked(rs2, 5);
  }

  // ---------------------------------------------------------------------
  // I-type

  /** The funct7 `enc_i` ORs in: the table entry for the three shifts, 0 for the rest. */
  function ShiftFunct7(m: Mnemonic): (r: nat)
    ensures r < 128
  {
    if m.IsShiftImmediate() then Funct7(m) else 0
  }

  /** `enc_i`: the funct7 term overlaps the 12-bit immediate, the two are ORed. */
  function EncI(m: Mnemonic, rd: int, rs1: int, imm: int): (w: int)
    requires InFunct3Table(m)
    ensures 0 <= w < 0x1_0000_0000
  {
    RLayoutBound(Low(ShiftFunct7(m), 7), Low(imm, 12), Low(rs1, 5), Low(Funct3(m), 3), Low(rd, 5), Low(Opcode(m), 7));
    RLayout(Low(ShiftFunct7(m), 7), Low(imm, 12), Low(rs1, 5), Low(Funct3(m), 3), Low(rd, 5), Low(Opcode(m), 7))
  }

  /**
   * Outside the shifts an `enc_i` word is a plain I-type word: bits [31:20]
   * hold imm mod 4096, which reads back as imm in the signed 12-bit range.
   */
  lemma EncIFields(m: Mnemonic, rd: int, rs1: int, imm: int)
    requires InFunct3Table(m) && !m.IsShiftImmediate()
    ensures var w := EncI(m, rd, rs1, imm);
      OpcodeOf(w) == Opcode(m) && Funct3Of(w) == Funct3(m) && RdOf(w) == Low(rd, 5) && Rs1Of(w) == Low(rs1, 5)
      && Field(w, 20, 12) == imm % 4096
      && (-2048 <= imm < 2048 ==> IImmediate(w) == imm)
  {
    Pow2Table();
    Masked(0, 7);
    Masked(Funct3(m), 3);
    Masked(Opcode(m), 7);
    var hi, c, d := Low(imm, 12), Low(rs1, 5), Low(rd, 5);
    assert EncI(m, rd, rs1, imm) == ILayout(hi, c, Funct3(m), d, Opcode(m));
    IWord(hi, c, Funct3(m), d, Opcode(m));
    if -2048 <= imm < 2048 {
      SignedLow(imm, 12);
    }
  }

  /**
   * A shift by 0..31 gives a word whose bits [31:25] hold the mnemonic's
   * funct7 and whose bits [24:20] hold the shift amount.
   */
  lemma EncIShiftFields(m: Mnemonic, rd: int, rs1: int, shamt: int)
    requires m.IsShiftImmediate() && 0 <= shamt < 32
    ensures var w := EncI(m, rd, rs1, shamt);
      OpcodeOf(w) == Opcode(m) && Funct3Of(w) == Funct3(m) && RdOf(w) == Low(rd, 5) && Rs1Of(w) == Low(rs1, 5)
      && Funct7Of(w) == Funct7(m) && Rs2Of(w) == shamt
  {
    Pow2Table();
    Masked(Funct7(m), 7);
    Masked(Funct3(m), 3);
    Masked(Opcode(m), 7);
    Masked(shamt, 12);
    RWord(Funct7(m), shamt, Low(rs1, 5), Funct3(m), Low(rd, 5), Opcode(m));
  }

  /** A shift word as the sum of its fields. */
  lemma ShiftSum(m: Mnemonic, rd: int, rs1: int, shamt: int)
    requires m.IsShiftImmediate() && 0 <= shamt < 32
    ensures EncI(m, rd, rs1, shamt)
      == Funct7(m) * 0x200_0000 + shamt * 0x10_0000 + Low(rs1, 5) * 0x8000 + Funct3(m) * 0x1000 + Low(rd, 5) * 0x80 + Opcode(m)
  {
    assert ShiftFunct7(m) == Funct7(m);
    FieldSum(Funct7(m), shamt, rs1, Funct3(m), rd, Opcode(m));
  }

  /** An R-layout word built from table values and a 5-bit second field is the sum of its fields. */
  lemma FieldSum(f7: nat, b: nat, rs1: int, f3: nat, rd: int, op: nat)
    requires f7 < 128 && b < 32 && f3 < 8 && op < 128
    ensures RLayout(Low(f7, 7), Low(b, 12), Low(rs1, 5), Low(f3, 3), Low(rd, 5), Low(op, 7))
      == f7 * 0x200_0000 + b * 0x10_0000 + Low(rs1, 5) * 0x8000 + f3 * 0x1000 + Low(rd, 5) * 0x80 + op
  {
    Pow2Table();
    Masked(f7, 7);
    Masked(b, 12);
    Masked(f3, 3);
    Masked(op, 7);
    RLayoutSum(f7, b, Low(rs1, 5), f3, Low(rd, 5), op);
  }

  /**
   * `srai` and `srli` by the same amount differ in bit 30 alone: their
   * funct7 fields are 0x20 and 0, and the `srai` word is the `srli` word
   * plus 2^30.
   */
  lemma SraiSrli(sra: Mnemonic, srl: Mnemonic, rd: int, rs1: int, shamt: int)
    requires sra == Srai && srl == Srli && 0 <= shamt < 32
    ensures EncI(sra, rd, rs1, shamt) == EncI(srl, rd, rs1, shamt) + 0x4000_0000
    ensures Funct7Of(EncI(sra, rd, rs1, shamt)) == 0x20 && Funct7Of(EncI(srl, rd, rs1, shamt)) == 0
  {
    assert sra.IsShiftImmediate() && srl.IsShiftImmediate();
    assert Funct7(sra) == 0x20 && Funct7(srl) == 0 && Funct3(sra) == Funct3(srl) && Opcode(sra) == Opcode(srl);
    ShiftFunct7Apart(sra, srl, rd, rs1, shamt);
  }

  /** Two shifts with the same funct3 and funct7 fields 0x20 and 0 differ by 2^30. */
  lemma ShiftFunct7Apart(a: Mnemonic, b: Mnemonic, rd: int, rs1: int, shamt: int)
    requires a.IsShiftImmediate() && b.IsShiftImmediate() && 0 <= shamt < 32
    requires Funct7(a) == 0x20 && Funct7(b) == 0 && Funct3(a) == Funct3(b) && Opcode(a) == Opcode(b)
    ensures EncI(a, rd, rs1, shamt) == EncI(b, rd, rs1, shamt) + 0x4000_0000
    ensures Funct7Of(EncI(a, rd, rs1, shamt)) == 0x20 && Funct7Of(EncI(b, rd, rs1, shamt)) == 0
  {
    ShiftSum(a, rd, rs1, shamt);
    ShiftSum(b, rd, rs1, shamt);
    EncIShiftFields(a, rd, rs1, shamt);
    EncIShiftFields(b, rd, rs1, shamt);
  }

  /** The `nop` pseudo-instruction, `addi x0, x0, 0`, is the word 0x00000013. */
  lemma NopWord()
    ensures EncI(Addi, 0, 0, 0) == 0x13
  {
    Pow2Table();
    assert Low(0, 7) == 0 && Low(0, 12) == 0 && Low(0, 5) == 0 && Low(0, 3) == 0 && Low(0x13, 7) == 0x13;
    RLayoutSum(0, 0, 0, 0, 0, 0x13);
  }

  // ---------------------------------------------------------------------
  // S-type

  /** `enc_s`: imm[11:5] goes where R-type has funct7, imm[4:0] where it has rd. */
  function EncS(m: Mnemonic, rs2: int, rs1: int, imm: int): (w: int)
    requires InFunct3Table(m)
    ensures 0 <= w < 0x1_0000_0000
  {
    var imm12 := Low(imm, 12);
    RLayoutBound(Low(Shr(imm12, 5), 7), Low(rs2, 5), Low(rs1, 5), Low(Funct3(m), 3), Low(imm12, 5), Low(Opcode(m), 7));
    RLayout(Low(Shr(imm12, 5), 7), Low(rs2, 5), Low(rs1, 5), Low(Funct3(m), 3), Low(imm12, 5), Low(Opcode(m), 7))
  }

  /**
   * The two immediate fields of an `enc_s` word together hold imm mod 4096,
   * which reads back as imm in the signed 12-bit range.
   */
  lemma EncSFields(m: Mnemonic, rs2: int, rs1: int, imm: int)
    requires InFunct3Table(m)
    ensures var w := EncS(m, rs2, rs1, imm);
      OpcodeOf(w) == Opcode(m) && Funct3Of(w) == Funct3(m) && Rs1Of(w) == Low(rs1, 5) && Rs2Of(w) == Low(rs2, 5)
      && Field(w, 25, 7) * 32 + Field(w, 7, 5) == imm % 4096
      && (-2048 <= imm < 2048 ==> SImmediate(w) == imm)
  {
    Pow2Table();
    Masked(Funct3(m), 3);
    Masked(Opcode(m), 7);
    var t := Low(imm, 12);
    RWord(Low(Shr(t, 5), 7), Low(rs2, 5), Low(rs1, 5), Funct3(m), Low(t, 5), Opcode(m));
    FieldSplit(t, 5, 7);
    Masked(t, 12);
    if -2048 <= imm < 2048 {
      SignedLow(imm, 12);
    }
  }

  // ---------------------------------------------------------------------
  // B-type

  /** `enc_b`: an odd offset is refused; imm[11] goes to bit 7. */
  function EncB(m: Mnemonic, rs1: int, rs2: int, imm: int): (r: Result<int>)
    requires InFunct3Table(m)
    ensures r.Ok? <==> imm % 2 == 0
    ensures r.Err? ==> r.error == Misaligned
    ensures r.Ok? ==> 0 <= r.value < 0x1_0000_0000
  {
    if imm % 2 != 0 then Err(Misaligned)
    else
      var v := Low(imm, 13);
      BranchWord(Field(v, 12, 1), Field(v, 5, 6), Low(rs2, 5), Low(rs1, 5), Low(Funct3(m), 3), Field(v, 1, 4),
        Field(v, 11, 1), Low(Opcode(m), 7));
      Ok(BranchLayout(Field(v, 12, 1), Field(v, 5, 6), Low(rs2, 5), Low(rs1, 5), Low(Funct3(m), 3), Field(v, 1, 4),
        Field(v, 11, 1), Low(Opcode(m), 7)))
  }

  /**
   * For an even offset the B-type immediate fields of the word hold the
   * offset mod 8192, so every even offset in the signed 13-bit range reads
   * back unchanged.
   */
  lemma EncBFields(m: Mnemonic, rs1: int, rs2: int, imm: int)
    requires InFunct3Table(m) && imm % 2 == 0
    ensures EncB(m, rs1, rs2, imm).Ok?
    ensures var w := EncB(m, rs1, rs2, imm).value;
      OpcodeOf(w) == Opcode(m) && Funct3Of(w) == Funct3(m) && Rs1Of(w) == Low(rs1, 5) && Rs2Of(w) == Low(rs2, 5)
      && Field(w, 31, 1) * 4096 + Field(w, 7, 1) * 2048 + Field(w, 25, 6) * 32 + Field(w, 8, 4) * 2 == imm % 8192
      && (-4096 <= imm < 4096 ==> BImmediate(w) == imm)
  {
    BranchFields(Funct3(m), Opcode(m), rs1, rs2, imm);
  }

  /** `enc_b` over the table values: the fields of the word for an even offset. */
  lemma BranchFields(f3: nat, op: nat, rs1: int, rs2: int, imm: int)
    requires f3 < 8 && op < 128 && imm % 2 == 0
    ensures var v := Low(imm, 13);
      var w := BranchLayout(Field(v, 12, 1), Field(v, 5, 6), Low(rs2, 5), Low(rs1, 5), Low(f3, 3), Field(v, 1, 4),
        Field(v, 11, 1), Low(op, 7));
      OpcodeOf(w) == op && Funct3Of(w) == f3 && Rs1Of(w) == Low(rs1, 5) && Rs2Of(w) == Low(rs2, 5)
      && Field(w, 31, 1) * 4096 + Field(w, 7, 1) * 2048 + Field(w, 25, 6) * 32 + Field(w, 8, 4) * 2 == imm % 8192
      && (-4096 <= imm < 4096 ==> BImmediate(w) == imm)
  {
    Pow2Table();
    Masked(f3, 3);
    Masked(op, 7);
    var v := Low(imm, 13);
    RV32IEncoders.EvenLow(imm, 13);
    BParts(v);
    BranchWord(Field(v, 12, 1), Field(v, 5, 6), Low(rs2, 5), Low(rs1, 5), f3, Field(v, 1, 4), Field(v, 11, 1), op);
    if -4096 <= imm < 4096 {
      SignedLow(imm, 13);
    }
  }

  /** `beq x0, x0, 2048` gives 0x000000e3, which reads back as 2048. */
  lemma BranchExample(beq: Mnemonic, imm: int)
    requires beq == Beq && imm == 2048
    ensures EncB(beq, 0, 0, imm) == Ok(0xE3)
    ensures BImmediate(0xE3) == imm
  {
    assert Opcode(beq) == 0x63 && Funct3(beq) == 0;
    Pow2Table();
    var v := Low(imm, 13);
    assert v == 2048;
    assert Field(v, 12, 1) == 0 && Field(v, 5, 6) == 0 && Field(v, 1, 4) == 0 && Field(v, 11, 1) == 1 by {
      assert Shr(v, 12) == 0 && Shr(v, 5) == 64 && Shr(v, 1) == 1024 && Shr(v, 11) == 1;
    }
    assert Low(0, 5) == 0 && Low(0, 3) == 0 && Low(0x63, 7) == 0x63;
    BranchLayoutSum(0, 0, 0, 0, 0, 0, 1, 0x63);
    EncBFields(beq, 0, 0, imm);
  }


  // ---------------------------------------------------------------------
  // U-type

  /** `enc_u`: the immediate is the 20-bit upper field itself. */
  function EncU(m: Mnemonic, rd: int, imm: int): (w: int)
    ensures 0 <= w < 0x1_0000_0000
  {
    Pow2Table();
    RV32IEncoders.USum(Low(imm, 20), Low(rd, 5), Low(Opcode(m), 7));
    BitOr(BitOr(Shl(Low(imm, 20), 12), Shl(Low(rd, 5), 7)), Low(Opcode(m), 7))
  }

  /** The upper field of an `enc_u` word holds imm mod 2^20: an immediate in 0..0xFFFFF reads back unchanged. */
  lemma EncUFields(m: Mnemonic, rd: int, imm: int)
    ensures var w := EncU(m, rd, imm);
      OpcodeOf(w) == Opcode(m) && RdOf(w) == Low(rd, 5) && UField(w) == imm % 0x10_0000
      && (0 <= imm < 0x10_0000 ==> UField(w) == imm)
  {
    UpperFields(Opcode(m), rd, imm);
  }

  /** `enc_u` over the opcode value: the upper field holds imm mod 2^20. */
  lemma UpperFields(op: nat, rd: int, imm: int)
    requires op < 128
    ensures var w := BitOr(BitOr(Shl(Low(imm, 20), 12), Shl(Low(rd, 5), 7)), Low(op, 7));
      OpcodeOf(w) == op && RdOf(w) == Low(rd, 5) && UField(w) == imm % 0x10_0000
      && (0 <= imm < 0x10_0000 ==> UField(w) == imm)
  {
    Pow2Table();
    Masked(op, 7);
    RV32IEncoders.USum(Low(imm, 20), Low(rd, 5), op);
  }

  /** `lui x1, 0x12345` puts 0x12345 in the upper field. */
  lemma LuiExample(imm: int)
    requires imm == 0x12345
    ensures UField(EncU(Lui, 1, imm)) == 0x12345
  {
    EncUFields(Lui, 1, imm);
  }

  // ---------------------------------------------------------------------
  // J-type

  /** `enc_j`: an odd offset is refused. */
  function EncJ(m: Mnemonic, rd: int, imm: int): (r: Result<int>)
    ensures r.Ok? <==> imm % 2 == 0
    ensures r.Err? ==> r.error == Misaligned
    ensures r.Ok? ==> 0 <= r.value < 0x1_0000_0000
  {
    if imm % 2 != 0 then Err(Misaligned)
    else
      var v := Low(imm, 21);
      JWord(Field(v, 20, 1), Field(v, 12, 8), Field(v, 11, 1), Field(v, 1, 10), Low(rd, 5), Low(Opcode(m), 7));
      Ok(JLayout(Field(v, 20, 1), Field(v, 12, 8), Field(v, 11, 1), Field(v, 1, 10), Low(rd, 5), Low(Opcode(m), 7)))
  }

  /**
   * For an even offset the J-type immediate fields of the word hold the
   * offset mod 2^21, so every even offset in the signed 21-bit range reads
   * back unchanged.
   */
  lemma EncJFields(m: Mnemonic, rd: int, imm: int)
    requires imm % 2 == 0
    ensures EncJ(m, rd, imm).Ok?
    ensures var w := EncJ(m, rd, imm).value;
      OpcodeOf(w) == Opcode(m) && RdOf(w) == Low(rd, 5)
      && Field(w, 31, 1) * 0x10_0000 + Field(w, 12, 8) * 0x1000 + Field(w, 20, 1) * 0x800 + Field(w, 21, 10) * 2
         == imm % 0x20_0000
      && (-0x10_0000 <= imm < 0x10_0000 ==> JImmediate(w) == imm)
  {
    Pow2Table();
    Masked(Opcode(m), 7);
    var v := Low(imm, 21);
    RV32IEncoders.EvenLow(imm, 21);
    JParts(v);
    JWord(Field(v, 20, 1), Field(v, 12, 8), Field(v, 11, 1), Field(v, 1, 10), Low(rd, 5), Opcode(m));
    if -0x10_0000 <= imm < 0x10_0000 {
      SignedLow(imm, 21);
    }
  }

  // ---------------------------------------------------------------------
  // Offsets that fit

  /** The B-type word of an even offset within 4 KiB holds the opcode, funct3, both registers and the offset itself. */
  lemma BranchOffset(m: Mnemonic, rs1: nat, rs2: nat, off: int)
    requires m.IsBranch() && rs1 < 32 && rs2 < 32 && off % 2 == 0 && -0x1000 <= off < 0x1000
    ensures EncB(m, rs1, rs2, off).Ok?
    ensures var w := EncB(m, rs1, rs2, off).value;
      OpcodeOf(w) == 0x63 && Funct3Of(w) == Funct3(m) && Rs1Of(w) == rs1 && Rs2Of(w) == rs2 && BImmediate(w) == off
  {
    BranchOpcode(m);
    EncBFields(m, rs1, rs2, off);
    Register(rs1);
    Register(rs2);
  }

  /** Every branch is in the funct3 table and has opcode 0x63. */
  lemma BranchOpcode(m: Mnemonic)
    requires m.IsBranch()
    ensures InFunct3Table(m) && Opcode(m) == 0x63
  {
  }

  /** A register number 0..31 is its own five low bits. */
  lemma Register(r: nat)
    requires r < 32
    ensures Low(r, 5) == r
  {
    Pow2Table();
    Masked(r, 5);
  }

  /** The J-type word of an even offset within 1 MiB holds the opcode, rd and the offset itself. */
  lemma JumpOffset(m: Mnemonic, rd: nat, off: int)
    requires m == Jal && rd < 32 && off % 2 == 0 && -0x10_0000 <= off < 0x10_0000
    ensures EncJ(m, rd, off).Ok?
    ensures var w := EncJ(m, rd, off).value; OpcodeOf(w) == 0x6F && RdOf(w) == rd && JImmediate(w) == off
  {
    assert Opcode(m) == 0x6F;
    EncJFields(m, rd, off);
    Register(rd);
  }
}
