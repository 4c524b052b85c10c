/**
 * The instruction encoders of the single-pass assembler
 * (`single_cycle/insturction_to_machinecode.py`, class `RV32IAssembler`):
 * `encode_*_type`, `encode_fence`, `parse_fence_mask`, `encode_csr*` and
 * `parse_csr`. The words are Python integers: nothing masks the CSR address
 * or a two's complement that outgrows its field, so a word can leave the
 * 32-bit range, and the lemmas say for which inputs it does not.
 */
module RV32IEncoders {
  import opened Results
  import opened Text
  import opened Isa
  import opened Bits
  import opened Decode
  import opened Layouts
  import opened Format
  import opened Operands

  // ---------------------------------------------------------------------
  // The hand-written two's complement

  /**
   * `imm & mask`, replaced for a negative imm by `(abs(imm) ^ mask) + 1`,
   * where mask = 2^k - 1.
   */
  function TwosComplement(imm: int, k: nat): nat {
    if imm < 0 then BitXor(-imm, Pow2(k) - 1) + 1 else Low(imm, k)
  }

  /**
   * The hand-written two's complement agrees with the mask in the k low
   * bits, and stays below 2^k exactly when imm > -2^k.
   */
  lemma TwosComplementLow(imm: int, k: nat)
    ensures Low(TwosComplement(imm, k), k) == Low(imm, k)
    ensures TwosComplement(imm, k) < Pow2(k) <==> imm > -(Pow2(k) as int)
  {
    if imm < 0 {
      var p, a := Pow2(k), -imm;
      var q, r := a / p, a % p;
      XorAllOnes(a, k);
      DivModSplit(a, p);
      var t := q * p + p - r;
      assert TwosComplement(imm, k) == t;
      NegativeResidue(q, r, p);
      assert imm == -(q * p + r);
      assert Low(t, k) == t % p;
    } else {
      ModSmall(Low(imm, k), Pow2(k));
    }
  }

  /**
   * For a = q * p + r > 0 with 0 <= r < p, the value q * p + p - r, which
   * `(a ^ (p - 1)) + 1` computes, is congruent to -a and is below p
   * exactly when a is.
   */
  lemma NegativeResidue(q: int, r: int, p: int)
    requires q >= 0 && 0 <= r < p && q * p + r > 0
    ensures (q * p + p - r) % p == (-(q * p + r)) % p
    ensures q * p + p - r < p <==> q * p + r < p
  {
    var qp := q * p;
    MulShift(q, p);
    if q > 0 {
      MulAtLeast(q, p);
    } else {
      assert qp == 0;
    }
    if r == 0 {
      assert qp + p - r == (q + 1) * p + 0;
      DivModPlace(q + 1, 0, p);
      assert -(qp + r) == (-q) * p + 0;
      DivModPlace(-q, 0, p);
    } else {
      DivModPlace(q, p - r, p);
      assert -(qp + r) == (-q - 1) * p + (p - r);
      DivModPlace(-q - 1, p - r, p);
    }
  }

  lemma MulShift(q: int, p: int)
    ensures (q + 1) * p == q * p + p && (-q) * p == -(q * p) && (-q - 1) * p == -(q * p) - p
  {
  }

  // ---------------------------------------------------------------------
  // R-type

  /** `encode_r_type`. */
  function EncodeRType(m: Mnemonic, rd: nat, rs1: nat, rs2: nat): int
    requires m.HasFunct7()
  {
    RLayout(Funct7(m), rs2, rs1, Funct3(m), rd, Opcode(m))
  }

  /** An R-type word is a 32-bit word that decodes to its registers and the mnemonic's table entries. */
  lemma RTypeFields(m: Mnemonic, rd: nat, rs1: nat, rs2: nat)
    requires m.HasFunct7() && rd < 32 && rs1 < 32 && rs2 < 32
    ensures var w := EncodeRType(m, rd, rs1, rs2);
      0 <= w < 0x1_0000_0000 && OpcodeOf(w) == Opcode(m) && RdOf(w) == rd && Funct3Of(w) == Funct3(m)
      && Rs1Of(w) == rs1 && Rs2Of(w) == rs2 && Funct7Of(w) == Funct7(m)
  {
    RWord(Funct7(m), rs2, rs1, Funct3(m), rd, Opcode(m));
  }

  /** `add x3, x1, x2` assembles to 0x002081b3. */
  lemma AddExample(rd: nat, rs1: nat, rs2: nat)
    requires rd == 3 && rs1 == 1 && rs2 == 2
    ensures EncodeRType(Add, rd, rs1, rs2) == 0x0020_81B3
  {
    assert Funct7(Add) == 0 && Funct3(Add) == 0 && Opcode(Add) == 0x33;
    assert EncodeRType(Add, rd, rs1, rs2) == RLayout(0, rs2, rs1, 0, rd, 0x33);
    RLayoutSum(0, rs2, rs1, 0, rd, 0x33);
  }

  // ---------------------------------------------------------------------
  // I-type

  /** `encode_i_type`: the mnemonic's funct7 plays no part, so `srai` comes out as `srli`. */
  function EncodeIType(m: Mnemonic, rd: nat, rs1: nat, imm: int): int
    requires m.HasFunct3()
  {
    ILayout(TwosComplement(imm, 12), rs1, Funct3(m), rd, Opcode(m))
  }

  /**
   * An I-type word fits in 32 bits exactly when imm > -4096; then it decodes
   * to its registers, and its bits [31:20] hold imm mod 4096, which reads
   * back as imm for imm in the signed 12-bit range.
   */
  lemma ITypeFields(m: Mnemonic, rd: nat, rs1: nat, imm: int)
    requires m.HasFunct3() && rd < 32 && rs1 < 32
    ensures var w := EncodeIType(m, rd, rs1, imm);
      w >= 0 && (w < 0x1_0000_0000 <==> imm > -4096)
      && (imm > -4096 ==>
            OpcodeOf(w) == Opcode(m) && RdOf(w) == rd && Funct3Of(w) == Funct3(m) && Rs1Of(w) == rs1
            && Field(w, 20, 12) == Low(imm, 12))
      && (-2048 <= imm < 2048 ==> IImmediate(w) == imm)
  {
    var t, f3, op := TwosComplement(imm, 12), Funct3(m), Opcode(m);
    Pow2Table();
    TwosComplementLow(imm, 12);
    ILayoutSum(t, rs1, f3, rd, op);
    if imm > -4096 {
      ModSmall(t, 4096);
      IWord(t, rs1, f3, rd, op);
      if -2048 <= imm < 2048 {
        SignedLow(imm, 12);
      }
    }
  }

  /** `addi x1, x0, 10` assembles to 0x00a00093. */
  lemma AddiExample(rd: nat, rs1: nat, imm: int)
    requires rd == 1 && rs1 == 0 && imm == 10
    ensures EncodeIType(Addi, rd, rs1, imm) == 0x00A0_0093
  {
    assert Funct3(Addi) == 0 && Opcode(Addi) == 0x13;
    Pow2Table();
    ModSmall(imm, 4096);
    assert EncodeIType(Addi, rd, rs1, imm) == ILayout(imm, rs1, 0, rd, 0x13);
    ILayoutSum(imm, rs1, 0, rd, 0x13);
  }

  /**
   * As written, an immediate of -4096 or below is not cut to 12 bits: the
   * hand-made two's complement of -4097 reaches bit 12, so `addi x0, x0, -4097`
   * gives a word wider than 32 bits.
   */
  lemma WideImmediateAsWritten(imm: int)
    requires imm == -4097
    ensures EncodeIType(Addi, 0, 0, imm) >= 0x1_0000_0000
  {
    ITypeFields(Addi, 0, 0, imm);
  }

  /**
   * As written, `srai` gives the same word as `srli`: the shift amount in
   * bits [24:20] and zero, not 0x20, in bits [31:25].
   */
  lemma SraiAsWritten(sra: Mnemonic, srl: Mnemonic, rd: nat, rs1: nat, shamt: int)
    requires sra == Srai && srl == Srli && rd < 32 && rs1 < 32 && 0 <= shamt < 32
    ensures EncodeIType(sra, rd, rs1, shamt) == EncodeIType(srl, rd, rs1, shamt)
    ensures Funct7Of(EncodeIType(sra, rd, rs1, shamt)) == 0 != Funct7(sra)
  {
    assert Funct3(sra) == 5 && Funct3(srl) == 5 && Opcode(sra) == 0x13 && Opcode(srl) == 0x13 && Funct7(sra) == 0x20;
    assert TwosComplement(shamt, 12) == shamt by {
      Pow2Table();
      ModSmall(shamt, 4096);
    }
    var w := ILayout(shamt, rs1, 5, rd, 0x13);
    assert EncodeIType(sra, rd, rs1, shamt) == w && EncodeIType(srl, rd, rs1, shamt) == w;
    assert Funct7Of(w) == 0 by {
      Pow2Table();
      ILayoutSum(shamt, rs1, 5, rd, 0x13);
      FieldAt(w, 0, 0, shamt * 0x10_0000 + rs1 * 0x8000 + 5 * 0x1000 + rd * 0x80 + 0x13, 25, 7, 0x200_0000, 0x80);
    }
  }


  // ---------------------------------------------------------------------
  // S-type

  /** `encode_s_type`: imm[11:5] goes where R-type has funct7, imm[4:0] where it has rd. */
  function EncodeSType(m: Mnemonic, rs2: nat, rs1: nat, imm: int): int
    requires m.HasFunct3()
  {
    var imm12 := TwosComplement(imm, 12);
    RLayout(Low(Shr(imm12, 5), 7), rs2, rs1, Funct3(m), Low(imm12, 5), Opcode(m))
  }

  /**
   * An S-type word is always a 32-bit word (both immediate fields are
   * masked); it decodes to its registers, its two immediate fields together
   * hold imm mod 4096, which reads back as imm in the signed 12-bit range.
   */
  lemma STypeFields(m: Mnemonic, rs2: nat, rs1: nat, imm: int)
    requires m.HasFunct3() && rs2 < 32 && rs1 < 32
    ensures var w := EncodeSType(m, rs2, rs1, imm);
      0 <= w < 0x1_0000_0000 && OpcodeOf(w) == Opcode(m) && Funct3Of(w) == Funct3(m)
      && Rs1Of(w) == rs1 && Rs2Of(w) == rs2
      && Field(w, 25, 7) * 32 + Field(w, 7, 5) == Low(imm, 12)
      && (-2048 <= imm < 2048 ==> SImmediate(w) == imm)
  {
    SWord(Funct3(m), Opcode(m), rs2, rs1, imm);
  }

  /** The S-type layout of a two's complement immediate, for any funct3 and opcode. */
  lemma SWord(f3: nat, op: nat, rs2: nat, rs1: nat, imm: int)
    requires f3 < 8 && op < 128 && rs2 < 32 && rs1 < 32
    ensures var t := TwosComplement(imm, 12);
      var w := RLayout(Low(Shr(t, 5), 7), rs2, rs1, f3, Low(t, 5), op);
      0 <= w < 0x1_0000_0000 && Field(w, 0, 7) == op && Field(w, 12, 3) == f3
      && Field(w, 15, 5) == rs1 && Field(w, 20, 5) == rs2
      && Field(w, 25, 7) * 32 + Field(w, 7, 5) == Low(imm, 12)
      && (-2048 <= imm < 2048 ==> SImmediate(w) == imm)
  {
    var t := TwosComplement(imm, 12);
    var hi, lo := Low(Shr(t, 5), 7), Low(t, 5);
    assert hi < 128 && lo < 32 by {
      Pow2Table();
    }
    RWord(hi, rs2, rs1, f3, lo, op);
    SImmediateSplit(imm);
    if -2048 <= imm < 2048 {
      assert Pow2(11) == 2048 by {
        Pow2Table();
      }
      SignedLow(imm, 12);
    }
  }

  /** The two S-type immediate fields of the two's complement together hold imm mod 4096. */
  lemma SImmediateSplit(imm: int)
    ensures var t := TwosComplement(imm, 12);
      Low(Shr(t, 5), 7) * 32 + Low(t, 5) == Low(imm, 12)
  {
    var t := TwosComplement(imm, 12);
    FieldSplit(t, 5, 7);
    TwosComplementLow(imm, 12);
    assert Pow2(5) == 32 by {
      Pow2Table();
    }
  }


  // ---------------------------------------------------------------------
  // B-type

  /**
   * `(b12 << 31) | (b11 << 30) | (b10_5 << 25) | (rs2 << 20) | (rs1 << 15)
   * | (f3 << 12) | (b4_1 << 8) | op`: imm[11] lands on bit 30, which the
   * six bits of imm[10:5] already cover, and bit 7 stays clear.
   */
  function BLayout(b12: int, b11: int, b10_5: int, rs2: int, rs1: int, f3: int, b4_1: int, op: int): int {
    BitOr(BitOr(BitOr(BitOr(BitOr(BitOr(BitOr(Shl(b12, 31), Shl(b11, 30)), Shl(b10_5, 25)), Shl(rs2, 20)),
      Shl(rs1, 15)), Shl(f3, 12)), Shl(b4_1, 8)), op)
  }

  /** `encode_b_type`: an odd offset is refused. */
  function EncodeBType(m: Mnemonic, rs1: nat, rs2: nat, imm: int): Result<int>
    requires m.HasFunct3()
  {
    if imm % 2 != 0 then Err(Misaligned)
    else
      var imm13 := TwosComplement(imm, 13);
      Ok(BLayout(Field(imm13, 12, 1), Field(imm13, 11, 1), Field(imm13, 5, 6), rs2, rs1, Funct3(m),
        Field(imm13, 1, 4), Opcode(m)))
  }

  /** OR of two bits. */
  lemma OrOfBits(x: nat, y: nat)
    requires x < 2 && y < 2
    ensures BitOr(x, y) == if x == 0 then y else 1
  {
    if x == 1 && y == 1 {
      assert BitOr(x, y) == 2 * BitOr(0, 0) + 1;
    }
  }

  /** The B layout as a sum: bit 30 holds imm[11] OR imm[10], bits 29..25 hold imm[9:5]. */
  lemma BLayoutSum(b12: nat, b11: nat, b10_5: nat, rs2: nat, rs1: nat, f3: nat, b4_1: nat, op: nat)
    requires b12 < 2 && b11 < 2 && b10_5 < 64 && rs2 < 32 && rs1 < 32 && f3 < 8 && b4_1 < 16 && op < 128
    ensures BLayout(b12, b11, b10_5, rs2, rs1, f3, b4_1, op)
      == (2 * b12 + BitOr(b11, b10_5 / 32)) * 0x4000_0000 + (b10_5 % 32) * 0x200_0000 + rs2 * 0x10_0000
         + rs1 * 0x8000 + f3 * 0x1000 + b4_1 * 0x100 + op
  {
    Pow2Table();
    var hi6, lo5 := b10_5 / 32, b10_5 % 32;
    OrOfBits(b11, hi6);
    var o := BitOr(b11, hi6);
    var s1 := BitOr(Shl(b12, 31), Shl(b11, 30));
    OrAbove(Shl(b12, 31), Shl(b11, 30), b12, 31, 0x8000_0000);
    var s2 := BitOr(s1, Shl(b10_5, 25));
    OrSplit(s1, Shl(b10_5, 25), 2 * b12 + b11, 0, hi6, lo5 * 0x200_0000, 30, 0x4000_0000);
    OrSplit(2 * b12 + b11, hi6, b12, b11, 0, hi6, 1, 2);
    assert BitOr(b12, 0) == b12 && BitOr(0, lo5 * 0x200_0000) == lo5 * 0x200_0000;
    var h := 2 * b12 + o;
    assert s2 == h * 0x4000_0000 + lo5 * 0x200_0000;
    var s3 := BitOr(s2, Shl(rs2, 20));
    OrAbove(s2, Shl(rs2, 20), h * 32 + lo5, 25, 0x200_0000);
    var s4 := BitOr(s3, Shl(rs1, 15));
    OrAbove(s3, Shl(rs1, 15), h * 1024 + lo5 * 32 + rs2, 20, 0x10_0000);
    var s5 := BitOr(s4, Shl(f3, 12));
    OrAbove(s4, Shl(f3, 12), h * 0x8000 + lo5 * 0x400 + rs2 * 32 + rs1, 15, 0x8000);
    var s6 := BitOr(s5, Shl(b4_1, 8));
    OrAbove(s5, Shl(b4_1, 8), h * 0x4_0000 + lo5 * 0x2000 + rs2 * 0x100 + rs1 * 8 + f3, 12, 0x1000);
    OrAbove(s6, op, h * 0x40_0000 + lo5 * 0x2_0000 + rs2 * 0x1000 + rs1 * 0x80 + f3 * 0x10 + b4_1, 8, 0x100);
  }

  /** The fields of a B layout sum. */
  lemma BSumFields(b12: nat, o: nat, lo5: nat, rs2: nat, rs1: nat, f3: nat, b4_1: nat, op: nat)
    requires b12 < 2 && o < 2 && lo5 < 32 && rs2 < 32 && rs1 < 32 && f3 < 8 && b4_1 < 16 && op < 128
    ensures var w := (2 * b12 + o) * 0x4000_0000 + lo5 * 0x200_0000 + rs2 * 0x10_0000 + rs1 * 0x8000
      + f3 * 0x1000 + b4_1 * 0x100 + op;
      w < 0x1_0000_0000 && Field(w, 0, 7) == op && Field(w, 7, 1) == 0 && Field(w, 8, 4) == b4_1
      && Field(w, 12, 3) == f3 && Field(w, 15, 5) == rs1 && Field(w, 20, 5) == rs2
      && Field(w, 25, 6) == o * 32 + lo5 && Field(w, 31, 1) == b12
  {
    BSumLowFields(b12, o, lo5, rs2, rs1, f3, b4_1, op);
    BSumHighFields(b12, o, lo5, rs2, rs1, f3, b4_1, op);
  }

  /** Bits [14:0] of the B-type sum. */
  lemma BSumLowFields(b12: nat, o: nat, lo5: nat, rs2: nat, rs1: nat, f3: nat, b4_1: nat, op: nat)
    requires b12 < 2 && o < 2 && lo5 < 32 && rs2 < 32 && rs1 < 32 && f3 < 8 && b4_1 < 16 && op < 128
    ensures var w := (2 * b12 + o) * 0x4000_0000 + lo5 * 0x200_0000 + rs2 * 0x10_0000 + rs1 * 0x8000
      + f3 * 0x1000 + b4_1 * 0x100 + op;
      Field(w, 0, 7) == op && Field(w, 7, 1) == 0 && Field(w, 8, 4) == b4_1 && Field(w, 12, 3) == f3
  {
    Pow2Table();
    var h := 2 * b12 + o;
    var w := h * 0x4000_0000 + lo5 * 0x200_0000 + rs2 * 0x10_0000 + rs1 * 0x8000 + f3 * 0x1000 + b4_1 * 0x100 + op;
    var x := h * 0x40_0000 + lo5 * 0x2_0000 + rs2 * 0x1000 + rs1 * 0x80 + f3 * 0x10 + b4_1;
    FieldAt(w, x * 2, op, 0, 0, 7, 1, 0x80);
    FieldAt(w, x, 0, op, 7, 1, 0x80, 2);
    FieldAt(w, h * 0x4_0000 + lo5 * 0x2000 + rs2 * 0x100 + rs1 * 8 + f3, b4_1, op, 8, 4, 0x100, 0x10);
    FieldAt(w, h * 0x8000 + lo5 * 0x400 + rs2 * 0x20 + rs1, f3, b4_1 * 0x100 + op, 12, 3, 0x1000, 8);
  }

  /** Bits [31:15] of the B-type sum, and its bound. */
  lemma BSumHighFields(b12: nat, o: nat, lo5: nat, rs2: nat, rs1: nat, f3: nat, b4_1: nat, op: nat)
    requires b12 < 2 && o < 2 && lo5 < 32 && rs2 < 32 && rs1 < 32 && f3 < 8 && b4_1 < 16 && op < 128
    ensures var w := (2 * b12 + o) * 0x4000_0000 + lo5 * 0x200_0000 + rs2 * 0x10_0000 + rs1 * 0x8000
      + f3 * 0x1000 + b4_1 * 0x100 + op;
      w < 0x1_0000_0000 && Field(w, 15, 5) == rs1 && Field(w, 20, 5) == rs2
      && Field(w, 25, 6) == o * 32 + lo5 && Field(w, 31, 1) == b12
  {
    Pow2Table();
    var h := 2 * b12 + o;
    var w := h * 0x4000_0000 + lo5 * 0x200_0000 + rs2 * 0x10_0000 + rs1 * 0x8000 + f3 * 0x1000 + b4_1 * 0x100 + op;
    FieldAt(w, h * 0x400 + lo5 * 0x20 + rs2, rs1, f3 * 0x1000 + b4_1 * 0x100 + op, 15, 5, 0x8000, 0x20);
    FieldAt(w, h * 0x20 + lo5, rs2, rs1 * 0x8000 + f3 * 0x1000 + b4_1 * 0x100 + op, 20, 5, 0x10_0000, 0x20);
    FieldAt(w, b12, o * 32 + lo5, rs2 * 0x10_0000 + rs1 * 0x8000 + f3 * 0x1000 + b4_1 * 0x100 + op,
      25, 6, 0x200_0000, 0x40);
    FieldAt(w, 0, b12, o * 0x4000_0000 + lo5 * 0x200_0000 + rs2 * 0x10_0000 + rs1 * 0x8000 + f3 * 0x1000
      + b4_1 * 0x100 + op, 31, 1, 0x8000_0000, 2);
  }


  /** A B layout with fields that fit is a 32-bit word; its fields read back, bit 30 as imm[11] OR imm[10]. */
  lemma BLayoutWord(b12: nat, b11: nat, b10_5: nat, rs2: nat, rs1: nat, f3: nat, b4_1: nat, op: nat)
    requires b12 < 2 && b11 < 2 && b10_5 < 64 && rs2 < 32 && rs1 < 32 && f3 < 8 && b4_1 < 16 && op < 128
    ensures var w := BLayout(b12, b11, b10_5, rs2, rs1, f3, b4_1, op);
      0 <= w < 0x1_0000_0000 && Field(w, 0, 7) == op && Field(w, 7, 1) == 0 && Field(w, 8, 4) == b4_1
      && Field(w, 12, 3) == f3 && Field(w, 15, 5) == rs1 && Field(w, 20, 5) == rs2
      && Field(w, 25, 6) == BitOr(b11, b10_5 / 32) * 32 + b10_5 % 32 && Field(w, 31, 1) == b12
  {
    var o := BitOr(b11, b10_5 / 32);
    assert o < 2 by {
      OrOfBits(b11, b10_5 / 32);
    }
    BLayoutSum(b12, b11, b10_5, rs2, rs1, f3, b4_1, op);
    BSumFields(b12, o, b10_5 % 32, rs2, rs1, f3, b4_1, op);
  }

  /**
   * For every even offset the B-type word is a 32-bit word that decodes to
   * its registers and the mnemonic's table entries, with bit 7 clear.
   */
  lemma BTypeFields(m: Mnemonic, rs1: nat, rs2: nat, imm: int)
    requires m.HasFunct3() && rs1 < 32 && rs2 < 32 && imm % 2 == 0
    ensures EncodeBType(m, rs1, rs2, imm).Ok?
    ensures var w := EncodeBType(m, rs1, rs2, imm).value;
      0 <= w < 0x1_0000_0000 && OpcodeOf(w) == Opcode(m) && Funct3Of(w) == Funct3(m)
      && Rs1Of(w) == rs1 && Rs2Of(w) == rs2 && Field(w, 7, 1) == 0
  {
    var t := TwosComplement(imm, 13);
    BLayoutWord(Field(t, 12, 1), Field(t, 11, 1), Field(t, 5, 6), rs2, rs1, Funct3(m), Field(t, 1, 4), Opcode(m));
  }

  /**
   * As written, a branch offset reads back from its word unchanged exactly
   * when imm[11] is clear; when it is set, bit 7 stays clear and bit 30 is
   * set instead, so the word reads back 1024 or 2048 short.
   */
  lemma BTypeAsWritten(m: Mnemonic, rs1: nat, rs2: nat, imm: int)
    requires m.HasFunct3() && rs1 < 32 && rs2 < 32 && imm % 2 == 0 && -4096 <= imm < 4096
    ensures EncodeBType(m, rs1, rs2, imm).Ok?
    ensures var w, v := EncodeBType(m, rs1, rs2, imm).value, Low(imm, 13);
      BImmediate(w) == (if Field(v, 11, 1) == 0 then imm else imm - 1024 * (1 + Field(v, 10, 1)))
  {
    BranchOffsetBits(imm);
    BOffsetAsWritten(Low(imm, 13), rs2, rs1, Funct3(m), Opcode(m));
  }

  /** An even offset in the signed 13-bit range: its two's complement is its low 13 bits, even, and signed back to it. */
  lemma BranchOffsetBits(imm: int)
    requires imm % 2 == 0 && -4096 <= imm < 4096
    ensures var v := Low(imm, 13);
      TwosComplement(imm, 13) == v && v < 0x2000 && v % 2 == 0 && Signed(v, 13) == imm
  {
    var t := TwosComplement(imm, 13);
    Pow2Table();
    TwosComplementLow(imm, 13);
    ModSmall(t, 8192);
    EvenLow(imm, 13);
    SignedLow(imm, 13);
  }

  /** What the B layout of the even 13-bit value v reads back as. */
  lemma BOffsetAsWritten(v: nat, rs2: nat, rs1: nat, f3: nat, op: nat)
    requires v < 0x2000 && v % 2 == 0 && rs2 < 32 && rs1 < 32 && f3 < 8 && op < 128
    ensures var w := BLayout(Field(v, 12, 1), Field(v, 11, 1), Field(v, 5, 6), rs2, rs1, f3, Field(v, 1, 4), op);
      BImmediate(w) == if Field(v, 11, 1) == 0 then Signed(v, 13) else Signed(v, 13) - 1024 * (1 + Field(v, 10, 1))
  {
    var b12, b11, b10_5, b4_1 := Field(v, 12, 1), Field(v, 11, 1), Field(v, 5, 6), Field(v, 1, 4);
    Pow2Table();
    BLayoutWord(b12, b11, b10_5, rs2, rs1, f3, b4_1, op);
    FieldPieces(v, 5, 5, 1);
    DivModSplit(b10_5, 32);
    OrOfBits(b11, b10_5 / 32);
    BParts(v);
    BSigned(v, b12, b11, b10_5 / 32, b10_5 % 32, b4_1);
  }

  /**
   * Reading the offset v back with imm[11] moved onto imm[10]'s place
   * (ORed with it) loses 1024 * (1 + imm[10]) when imm[11] is set.
   */
  lemma BSigned(v: nat, b12: nat, b11: nat, hi6: nat, lo5: nat, b4_1: nat)
    requires b12 < 2 && b11 < 2 && hi6 < 2 && lo5 < 32 && b4_1 < 16
    requires v == b12 * 4096 + b11 * 2048 + (hi6 * 32 + lo5) * 32 + b4_1 * 2
    ensures var o := if b11 == 0 then hi6 else 1;
      Signed(b12 * 4096 + 0 * 2048 + (o * 32 + lo5) * 32 + b4_1 * 2, 13)
      == if b11 == 0 then Signed(v, 13) else Signed(v, 13) - 1024 * (1 + hi6)
  {
    Pow2Table();
  }

  /** The offset of a branch reads back unchanged exactly when imm[11] is clear. */
  lemma BTypeRoundTripAsWritten(m: Mnemonic, rs1: nat, rs2: nat, imm: int)
    requires m.HasFunct3() && rs1 < 32 && rs2 < 32 && imm % 2 == 0 && -4096 <= imm < 4096
    ensures EncodeBType(m, rs1, rs2, imm).Ok?
    ensures BImmediate(EncodeBType(m, rs1, rs2, imm).value) == imm <==> Field(Low(imm, 13), 11, 1) == 0
  {
    BTypeAsWritten(m, rs1, rs2, imm);
  }

  /** `beq x0, x0, 2048` assembles to 0x40000063: bit 30 set, bit 7 clear. */
  lemma BranchAsWritten(imm: int)
    requires imm == 2048
    ensures EncodeBType(Beq, 0, 0, imm) == Ok(0x4000_0063)
  {
    Pow2Table();
    assert Funct3(Beq) == 0 && Opcode(Beq) == 0x63;
    var v := Low(imm, 13);
    assert TwosComplement(imm, 13) == v == 2048;
    assert Field(v, 12, 1) == 0 && Field(v, 11, 1) == 1 && Field(v, 5, 6) == 0 && Field(v, 1, 4) == 0;
    BLayoutSum(0, 1, 0, 0, 0, 0, 0, 0x63);
    assert BitOr(1, 0) == 1;
  }

  /** The word `beq x0, x0, 2048` assembles to reads back as an offset of 1024. */
  lemma BranchReadBackAsWritten(imm: int)
    requires imm == 2048
    ensures EncodeBType(Beq, 0, 0, imm).Ok?
    ensures BImmediate(EncodeBType(Beq, 0, 0, imm).value) == 1024
  {
    Pow2Table();
    var v := Low(imm, 13);
    assert v == 2048;
    assert Field(v, 11, 1) == 1 && Field(v, 10, 1) == 0;
    BTypeAsWritten(Beq, 0, 0, imm);
  }

  // ---------------------------------------------------------------------
  // U-type

  /** `encode_u_type`: the field takes `(imm >> 12) & 0xFFFFF`, bits 31..12 of imm. */
  function EncodeUType(m: Mnemonic, rd: nat, imm: int): int {
    BitOr(BitOr(Shl(Low(Shr(imm, 12), 20), 12), Shl(rd, 7)), Opcode(m))
  }

  /** The U-type word as the sum of its fields. */
  lemma USum(u: nat, rd: nat, op: nat)
    requires u < 0x10_0000 && rd < 32 && op < 128
    ensures var w := BitOr(BitOr(Shl(u, 12), Shl(rd, 7)), op);
      w == u * 0x1000 + rd * 0x80 + op
      && 0 <= w < 0x1_0000_0000 && Field(w, 0, 7) == op && Field(w, 7, 5) == rd && Field(w, 12, 20) == u
  {
    Pow2Table();
    var s1 := BitOr(Shl(u, 12), Shl(rd, 7));
    OrAbove(Shl(u, 12), Shl(rd, 7), u, 12, 0x1000);
    OrAbove(s1, op, u * 32 + rd, 7, 0x80);
    var w := u * 0x1000 + rd * 0x80 + op;
    FieldAt(w, u * 32 + rd, op, 0, 0, 7, 1, 0x80);
    FieldAt(w, u, rd, op, 7, 5, 0x80, 0x20);
    FieldAt(w, 0, u, rd * 0x80 + op, 12, 20, 0x1000, 0x10_0000);
  }

  /**
   * A U-type word is a 32-bit word that decodes to rd and whose upper
   * field, shifted back, is imm with its 12 low bits cleared (modulo 2^32).
   */
  lemma UTypeFields(m: Mnemonic, rd: nat, imm: int)
    requires rd < 32
    ensures var w := EncodeUType(m, rd, imm);
      0 <= w < 0x1_0000_0000 && OpcodeOf(w) == Opcode(m) && RdOf(w) == rd
      && UField(w) * 0x1000 + Low(imm, 12) == Low(imm, 32)
  {
    UWord(Opcode(m), rd, imm);
  }

  /** The U-type layout for any opcode. */
  lemma UWord(op: nat, rd: nat, imm: int)
    requires op < 128 && rd < 32
    ensures var w := BitOr(BitOr(Shl(Low(Shr(imm, 12), 20), 12), Shl(rd, 7)), op);
      0 <= w < 0x1_0000_0000 && Field(w, 0, 7) == op && Field(w, 7, 5) == rd
      && Field(w, 12, 20) * 0x1000 + Low(imm, 12) == Low(imm, 32)
  {
    var u := Low(Shr(imm, 12), 20);
    assert u < 0x10_0000 by {
      Pow2Table();
    }
    USum(u, rd, op);
    UpperSplit(imm);
  }

  /** The upper 20 of the low 32 bits, and the low 12 bits, together make up imm mod 2^32. */
  lemma UpperSplit(imm: int)
    ensures Low(Shr(imm, 12), 20) * 0x1000 + Low(imm, 12) == Low(imm, 32)
  {
    FieldSplit(imm, 12, 20);
    assert Pow2(12) == 0x1000 by {
      Pow2Table();
    }
  }


  /** As written, `lui x1, 0x12345` puts 0x12 in the upper field, not 0x12345. */
  lemma LuiAsWritten()
    ensures UField(EncodeUType(Lui, 1, 0x12345)) == 0x12
  {
    Pow2Table();
    assert Low(Shr(0x12345, 12), 20) == 0x12;
    USum(0x12, 1, 0x37);
  }

  // ---------------------------------------------------------------------
  // J-type

  /** `encode_j_type`: an odd offset is refused. */
  function EncodeJType(m: Mnemonic, rd: nat, imm: int): Result<int> {
    if imm % 2 != 0 then Err(Misaligned)
    else
      var imm21 := TwosComplement(imm, 21);
      Ok(JLayout(Field(imm21, 20, 1), Field(imm21, 12, 8), Field(imm21, 11, 1), Field(imm21, 1, 10), rd, Opcode(m)))
  }

  /**
   * For an even offset in the signed 21-bit range the J-type word is a
   * 32-bit word that decodes to rd and to the offset itself.
   */
  lemma JTypeRoundTrip(m: Mnemonic, rd: nat, imm: int)
    requires rd < 32 && imm % 2 == 0 && -0x10_0000 <= imm < 0x10_0000
    ensures EncodeJType(m, rd, imm).Ok?
    ensures var w := EncodeJType(m, rd, imm).value;
      0 <= w < 0x1_0000_0000 && OpcodeOf(w) == Opcode(m) && RdOf(w) == rd && JImmediate(w) == imm
  {
    var v := TwosComplement(imm, 21);
    Pow2Table();
    TwosComplementLow(imm, 21);
    ModSmall(v, Pow2(21));
    EvenLow(imm, 21);
    JWord(Field(v, 20, 1), Field(v, 12, 8), Field(v, 11, 1), Field(v, 1, 10), rd, Opcode(m));
    JParts(v);
    SignedLow(imm, 21);
  }

  /** B-type and J-type offsets are refused exactly when they are odd. */
  lemma OddOffsetsRefused(m: Mnemonic, rd: nat, rs1: nat, rs2: nat, imm: int)
    requires m.HasFunct3()
    ensures EncodeBType(m, rs1, rs2, imm) == Err(Misaligned) <==> imm % 2 != 0
    ensures EncodeJType(m, rd, imm) == Err(Misaligned) <==> imm % 2 != 0
  {
  }

  /** The k low bits of an even number (k >= 1) are even. */
  lemma EvenLow(imm: int, k: nat)
    requires imm % 2 == 0 && k >= 1
    ensures Low(imm, k) % 2 == 0
  {
    FieldSplit(imm, 1, k - 1);
    assert Pow2(1) == 2;
    DivModPlace(Field(imm, 1, k - 1), 0, 2);
  }

  // ---------------------------------------------------------------------
  // FENCE

  predicate IsMaskChar(c: char) {
    c == 'i' || c == 'o' || c == 'r' || c == 'w'
  }

  /** The bit each FENCE mask letter sets: i = 8, o = 4, r = 2, w = 1. */
  function MaskBit(c: char): nat
    requires IsMaskChar(c)
  {
    if c == 'i' then 8 else if c == 'o' then 4 else if c == 'r' then 2 else 1
  }

  predicate MaskText(t: string) {
    forall i :: 0 <= i < |t| ==> IsMaskChar(t[i])
  }

  function Flag(t: string, c: char, bit: nat): nat {
    if c in t then bit else 0
  }

  /** The mask value of a text: the bits of the letters that occur in it, each once. */
  function MaskValue(t: string): nat {
    Flag(t, 'i', 8) + Flag(t, 'o', 4) + Flag(t, 'r', 2) + Flag(t, 'w', 1)
  }

  /** What `parse_fence_mask` returns: the mask of the stripped, lower-cased text, or an error for any other letter. */
  function FenceMask(s: string): Result<nat> {
    var t := Lower(Strip(s));
    if MaskText(t) then Ok(MaskValue(t)) else Err(InvalidFenceMask)
  }

  /** `parse_fence_mask`: ORs in the bit of each letter, and stops at the first character that is not a mask letter. */
  method ParseFenceMask(maskStr: string) returns (r: Result<nat>)
    ensures r == FenceMask(maskStr)
  {
    var t := Lower(Strip(maskStr));
    var value: nat := 0;
    var i := 0;
    while i < |t|
      invariant 0 <= i <= |t|
      invariant MaskText(t[..i])
      invariant value == MaskValue(t[..i])
    {
      var c := t[i];
      if !IsMaskChar(c) {
        assert !MaskText(t);
        return Err(InvalidFenceMask);
      }
      MaskStep(t[..i], c);
      if c == 'i' {
        value := BitOr(value, 8);
      } else if c == 'o' {
        value := BitOr(value, 4);
      } else if c == 'r' {
        value := BitOr(value, 2);
      } else {
        value := BitOr(value, 1);
      }
      assert t[..i + 1] == t[..i] + [c];
      i := i + 1;
    }
    assert t[..i] == t;
    return Ok(value);
  }

  /** The four flag bits of a mask value read back. */
  lemma MaskFields(fi: nat, fo: nat, fr: nat, fw: nat)
    requires fi < 2 && fo < 2 && fr < 2 && fw < 2
    ensures var v := fi * 8 + fo * 4 + fr * 2 + fw;
      v < 16 && Field(v, 3, 1) == fi && Field(v, 2, 1) == fo && Field(v, 1, 1) == fr && Field(v, 0, 1) == fw
  {
    Pow2Table();
    var v := fi * 8 + fo * 4 + fr * 2 + fw;
    FieldAt(v, 0, fi, fo * 4 + fr * 2 + fw, 3, 1, 8, 2);
    FieldAt(v, fi, fo, fr * 2 + fw, 2, 1, 4, 2);
    FieldAt(v, fi * 2 + fo, fr, fw, 1, 1, 2, 2);
    FieldAt(v, fi * 4 + fo * 2 + fr, fw, 0, 0, 1, 1, 2);
  }

  /** ORing in the bit of one more letter gives the mask value of the longer text. */
  lemma MaskStep(u: string, c: char)
    requires IsMaskChar(c)
    ensures BitOr(MaskValue(u), MaskBit(c)) == MaskValue(u + [c])
  {
    MaskOr(u, c);
    MaskAppend(u, c);
  }

  /** ORing in a letter's bit adds it unless the letter is already there. */
  lemma MaskOr(u: string, c: char)
    requires IsMaskChar(c)
    ensures BitOr(MaskValue(u), MaskBit(c)) == MaskValue(u) + (if c in u then 0 else MaskBit(c))
  {
    var v := MaskValue(u);
    MaskFields(Flag(u, 'i', 1), Flag(u, 'o', 1), Flag(u, 'r', 1), Flag(u, 'w', 1));
    Pow2Table();
    if c == 'i' {
      OrBit(v, 3);
    } else if c == 'o' {
      OrBit(v, 2);
    } else if c == 'r' {
      OrBit(v, 1);
    } else {
      OrBit(v, 0);
    }
  }

  /** Appending a letter adds its bit unless the letter is already there. */
  lemma MaskAppend(u: string, c: char)
    requires IsMaskChar(c)
    ensures MaskValue(u + [c]) == MaskValue(u) + (if c in u then 0 else MaskBit(c))
  {
    assert forall d :: d in u + [c] <==> d in u || d == c;
  }

  /**
   * The mask is refused exactly when some character of the stripped text
   * is not a mask letter (case aside); otherwise bit i, o, r, w of the
   * value is set exactly when the letter occurs.
   */
  lemma FenceMaskLetters(s: string)
    ensures var t := Lower(Strip(s));
      (FenceMask(s).Ok? <==> forall i :: 0 <= i < |t| ==> IsMaskChar(t[i]))
      && (FenceMask(s).Ok? ==>
            var v := FenceMask(s).value;
            v < 16 && (Field(v, 3, 1) == 1 <==> 'i' in t) && (Field(v, 2, 1) == 1 <==> 'o' in t)
            && (Field(v, 1, 1) == 1 <==> 'r' in t) && (Field(v, 0, 1) == 1 <==> 'w' in t))
  {
    var t := Lower(Strip(s));
    MaskFields(Flag(t, 'i', 1), Flag(t, 'o', 1), Flag(t, 'r', 1), Flag(t, 'w', 1));
  }

  /**
   * The mask depends only on which letters occur: repeating or reordering
   * them changes nothing.
   */
  lemma FenceMaskLetterSet(s: string, s': string)
    requires forall c :: c in Lower(Strip(s)) <==> c in Lower(Strip(s'))
    ensures FenceMask(s) == FenceMask(s')
  {
    var t, t' := Lower(Strip(s)), Lower(Strip(s'));
    if MaskText(t) {
      forall i | 0 <= i < |t'|
        ensures IsMaskChar(t'[i])
      {
        assert t'[i] in t;
      }
    }
    if MaskText(t') {
      forall i | 0 <= i < |t|
        ensures IsMaskChar(t[i])
      {
        assert t[i] in t';
      }
    }
  }

  /** `encode_fence`: pred in bits [27:24], succ in bits [23:20]. */
  function EncodeFence(pred: string, succ: string): Result<int> {
    var p :- FenceMask(pred);
    var s :- FenceMask(succ);
    var imm12 := BitOr(Shl(p, 4), s);
    Ok(BitOr(BitOr(Shl(imm12, 20), Shl(Funct3(Fence), 12)), Opcode(Fence)))
  }

  /**
   * A FENCE word is refused exactly when a mask is; otherwise it is a
   * 32-bit word with the FENCE opcode, zero funct3, rd and rs1, and the two
   * masks in bits [27:24] and [23:20].
   */
  lemma FenceWord(pred: string, succ: string)
    ensures EncodeFence(pred, succ).Ok? <==> FenceMask(pred).Ok? && FenceMask(succ).Ok?
    ensures EncodeFence(pred, succ).Ok? ==>
      var w := EncodeFence(pred, succ).value;
      0 <= w < 0x1_0000_0000 && OpcodeOf(w) == 0x0F && RdOf(w) == 0 && Funct3Of(w) == 0 && Rs1Of(w) == 0
      && Field(w, 24, 4) == FenceMask(pred).value && Field(w, 20, 4) == FenceMask(succ).value
  {
    if FenceMask(pred).Ok? && FenceMask(succ).Ok? {
      FenceMasks(FenceMask(pred).value, FenceMask(succ).value);
    }
  }

  /** The FENCE word of two 4-bit masks, with the table's funct3 and opcode. */
  lemma FenceMasks(p: nat, s: nat)
    requires p < 16 && s < 16
    ensures var w := BitOr(BitOr(Shl(BitOr(Shl(p, 4), s), 20), Shl(Funct3(Fence), 12)), Opcode(Fence));
      0 <= w < 0x1_0000_0000 && OpcodeOf(w) == 0x0F && RdOf(w) == 0 && Funct3Of(w) == 0 && Rs1Of(w) == 0
      && Field(w, 24, 4) == p && Field(w, 20, 4) == s
  {
    assert Funct3(Fence) == 0 && Opcode(Fence) == 0x0F;
    FenceLayout(p, s, Funct3(Fence), Opcode(Fence));
  }

  /** The FENCE word of two 4-bit masks as a sum, and its fields. */
  lemma FenceLayout(p: nat, s: nat, f3: nat, op: nat)
    requires p < 16 && s < 16 && f3 == 0 && op == 0x0F
    ensures var w := BitOr(BitOr(Shl(BitOr(Shl(p, 4), s), 20), Shl(f3, 12)), op);
      w == (p * 16 + s) * 0x10_0000 + 0x0F
      && 0 <= w < 0x1_0000_0000 && Field(w, 0, 7) == 0x0F && Field(w, 7, 5) == 0 && Field(w, 12, 3) == 0
      && Field(w, 15, 5) == 0 && Field(w, 24, 4) == p && Field(w, 20, 4) == s
  {
    FenceSum(p, s, f3, op);
    FenceSumFields(p, s);
  }

  /** The OR chain of the FENCE word adds its disjoint parts. */
  lemma FenceSum(p: nat, s: nat, f3: nat, op: nat)
    requires p < 16 && s < 16 && f3 == 0 && op == 0x0F
    ensures BitOr(BitOr(Shl(BitOr(Shl(p, 4), s), 20), Shl(f3, 12)), op) == (p * 16 + s) * 0x10_0000 + 0x0F
  {
    Pow2Table();
    var imm12 := BitOr(Shl(p, 4), s);
    OrAbove(Shl(p, 4), s, p, 4, 16);
    var hi := Shl(imm12, 20);
    assert Shl(f3, 12) == 0;
    assert BitOr(hi, 0) == hi;
    OrAbove(hi, 0x0F, imm12, 20, 0x10_0000);
  }

  /** The fields of the FENCE word written as a sum. */
  lemma FenceSumFields(p: nat, s: nat)
    requires p < 16 && s < 16
    ensures var w := (p * 16 + s) * 0x10_0000 + 0x0F;
      0 <= w < 0x1_0000_0000 && Field(w, 0, 7) == 0x0F && Field(w, 7, 5) == 0 && Field(w, 12, 3) == 0
      && Field(w, 15, 5) == 0 && Field(w, 24, 4) == p && Field(w, 20, 4) == s
  {
    Pow2Table();
    var w := (p * 16 + s) * 0x10_0000 + 0x0F;
    FieldAt(w, (p * 16 + s) * 0x2000, 0x0F, 0, 0, 7, 1, 0x80);
    FieldAt(w, (p * 16 + s) * 0x100, 0, 0x0F, 7, 5, 0x80, 0x20);
    FieldAt(w, (p * 16 + s) * 0x20, 0, 0x0F, 12, 3, 0x1000, 8);
    FieldAt(w, p * 16 + s, 0, 0x0F, 15, 5, 0x8000, 0x20);
    FieldAt(w, p, s, 0x0F, 20, 4, 0x10_0000, 16);
    FieldAt(w, 0, p, s * 0x10_0000 + 0x0F, 24, 4, 0x100_0000, 16);
  }


  /** The default masks, `fence iorw, iorw`, give 0x0ff0000f. */
  lemma FenceDefault(mask: string)
    requires mask == "iorw"
    ensures EncodeFence(mask, mask) == Ok(0x0FF0_000F)
  {
    IorwMask(mask);
    assert Funct3(Fence) == 0 && Opcode(Fence) == 0x0F;
    FenceLayout(15, 15, Funct3(Fence), Opcode(Fence));
  }

  /** The mask `iorw` has all four bits set. */
  lemma IorwMask(mask: string)
    requires mask == "iorw"
    ensures FenceMask(mask) == Ok(15)
  {
    StripNoSpace(mask);
    assert Lower(mask) == mask;
    assert mask[0] == 'i' && mask[1] == 'o' && mask[2] == 'r' && mask[3] == 'w';
  }

  // ---------------------------------------------------------------------
  // CSR

  /**
   * `parse_csr`: a CSR name, else `int(s, 16)` for a `0x` prefix, else
   * `int(s)`; the address is not range-checked.
   */
  function ParseCsr(token: string): Result<int> {
    var s := Lower(Strip(token));
    match CsrAddress(s)
    case Some(a) => Ok(a)
    case None =>
      if StartsWith(s, "0x") then
        if |s| > 2 && AllHexDigits(s[2..]) then Ok(NumeralValue(s[2..], 16)) else Err(InvalidCsr)
      else
        match ParseDecimal(s)
        case Some(v) => Ok(v)
        case None => Err(InvalidCsr)
  }

  /** Every CSR name starts with a letter. */
  lemma CsrNamesAreWords(s: string)
    requires CsrAddress(s).Some?
    ensures |s| > 0 && 'a' <= s[0] <= 'z'
  {
  }

  /** A text that does not start with a lower-case letter is no CSR name. */
  lemma NotCsrName(s: string)
    requires |s| > 0 && !('a' <= s[0] <= 'z')
    ensures CsrAddress(s).None?
  {
    if CsrAddress(s).Some? {
      CsrNamesAreWords(s);
    }
  }

  /** Stripping and lower-casing leave printed digits behind a prefix as they are. */
  lemma Canonical(prefix: string, d: string)
    requires |d| > 0 && DigitText(d, 16)
    requires forall i :: 0 <= i < |prefix| ==> !IsSpace(prefix[i]) && LowerChar(prefix[i]) == prefix[i]
    ensures Lower(Strip(prefix + d)) == prefix + d
  {
    var s := prefix + d;
    assert s[|s| - 1] == d[|d| - 1];
    assert |prefix| > 0 ==> s[0] == prefix[0];
    assert |prefix| == 0 ==> s[0] == d[0];
    StripNoSpace(s);
    assert forall i :: 0 <= i < |s| ==> LowerChar(s[i]) == s[i] by {
      forall i | 0 <= i < |s|
        ensures LowerChar(s[i]) == s[i]
      {
        if i >= |prefix| {
          assert s[i] == d[i - |prefix|];
        }
      }
    }
  }

  /** Every address printed in hexadecimal parses back as itself. */
  lemma CsrHexRoundTrip(n: nat)
    ensures ParseCsr(HexText(n)) == Ok(n)
  {
    var d := Digits(n, 16);
    DigitsText(n, 16);
    DigitsValue(n, 16);
    var s := HexText(n);
    assert s == "0x" + d;
    Canonical("0x", d);
    NotCsrName(s);
    assert s[..2] == "0x" && s[2..] == d;
  }

  /** Every address printed in decimal parses back as itself, a negative one included. */
  lemma CsrDecimalRoundTrip(v: int)
    ensures ParseCsr(DecimalText(v)) == Ok(v)
  {
    DecimalTextFacts(v);
    DecimalCsr(DecimalText(v), v);
  }

  /** A printed decimal is canonical, starts with `-` or a digit, has no `x`, and `int()` reads it back. */
  lemma DecimalTextFacts(v: int)
    ensures var s := DecimalText(v);
      Lower(Strip(s)) == s && |s| > 0 && (s[0] == '-' || IsDigit(s[0])) && (|s| >= 2 ==> s[1] != 'x')
      && ParseDecimal(s) == Some(v)
  {
    DecimalShape(v);
    DecimalValue(v);
  }

  /** A printed decimal is canonical, starts with `-` or a digit, and has no `x`. */
  lemma DecimalShape(v: int)
    ensures var s := DecimalText(v);
      Lower(Strip(s)) == s && |s| > 0 && (s[0] == '-' || IsDigit(s[0])) && (|s| >= 2 ==> s[1] != 'x')
  {
    var n := if v < 0 then -v else v;
    var d := Digits(n, 10);
    DigitsText(n, 10);
    var prefix := if v < 0 then "-" else "";
    var s := DecimalText(v);
    assert s == prefix + d;
    Canonical(prefix, d);
    assert IsDigit(d[0]) && (|d| >= 2 ==> IsDigit(d[1]));
    if v < 0 {
      assert s[0] == '-' && (|s| >= 2 ==> s[1] == d[0]);
    } else {
      assert s == d;
    }
  }

  /** `int()` reads a printed decimal back. */
  lemma DecimalValue(v: int)
    ensures ParseDecimal(DecimalText(v)) == Some(v)
  {
    var n := if v < 0 then -v else v;
    var d := Digits(n, 10);
    DigitsText(n, 10);
    DigitsValue(n, 10);
    var prefix := if v < 0 then "-" else "";
    assert DecimalText(v) == prefix + d;
    DecimalAddress(v, prefix, d);
  }

  /** A canonical decimal numeral that no CSR name matches is read by `int()`. */
  lemma DecimalCsr(s: string, v: int)
    requires Lower(Strip(s)) == s && |s| > 0 && (s[0] == '-' || IsDigit(s[0])) && (|s| >= 2 ==> s[1] != 'x')
    requires ParseDecimal(s) == Some(v)
    ensures ParseCsr(s) == Ok(v)
  {
    NotCsrName(s);
    assert !StartsWith(s, "0x") by {
      if |s| >= 2 {
        assert s[..2][1] == s[1];
      }
    }
  }

  /** `int()` of a printed decimal gives its value back. */
  lemma DecimalAddress(v: int, prefix: string, d: string)
    requires d == Digits(if v < 0 then -v else v, 10) && prefix == (if v < 0 then "-" else "")
    requires AllHexDigits(d) && AllDigits(d) && NumeralValue(d, 10) == (if v < 0 then -v else v)
    ensures ParseDecimal(prefix + d) == Some(v)
  {
    if v < 0 {
      NegativeDecimal(d);
    } else {
      assert prefix + d == d;
    }
  }

  /**
   * `encode_csr`, and `encode_csr_imm`, whose expression is the same with
   * the 5-bit immediate in place of rs1: the I-type layout with the CSR
   * address as its immediate.
   */
  function EncodeCsr(m: Mnemonic, rd: nat, csr: int, src: nat): int
    requires m.HasFunct3()
  {
    ILayout(csr, src, Funct3(m), rd, Opcode(m))
  }

  /**
   * A CSR word fits in 32 bits exactly when the address does (a negative
   * address gives a negative word); for an address in 0..4095 every field
   * decodes.
   */
  lemma CsrFields(m: Mnemonic, rd: nat, csr: int, src: nat)
    requires m.HasFunct3() && rd < 32 && src < 32
    ensures var w := EncodeCsr(m, rd, csr, src);
      (0 <= w < 0x1_0000_0000 <==> 0 <= csr < 4096)
      && (0 <= csr < 4096 ==>
            OpcodeOf(w) == Opcode(m) && RdOf(w) == rd && Funct3Of(w) == Funct3(m) && Rs1Of(w) == src
            && Field(w, 20, 12) == csr)
  {
    var f3, op := Funct3(m), Opcode(m);
    ILayoutSum(csr, src, f3, rd, op);
    if 0 <= csr < 4096 {
      IWord(csr, src, f3, rd, op);
    }
  }
}
