/**
 * The driver of the single-pass assembler
 * (`single_cycle/insturction_to_machinecode.py`): `assemble_instruction`,
 * which strips the comment, splits the line into a mnemonic and operands
 * and hands them to the encoder of the mnemonic's class, and
 * `assemble_file`, which assembles every line in order and writes one
 * `032b` line per word, or stops at the first failing line and writes
 * nothing.
 */
module RV32IAssembler {
  import opened Results
  import opened Text
  import opened Isa
  import opened Bits
  import opened Decode
  import opened Format
  import opened Operands
  import opened RV32IEncoders
  import opened Lines

  // ---------------------------------------------------------------------
  // One line

  /** `re.sub(r'#.*$', '', line)` on a line without a line break: everything before the first `#`. */
  function CutComment(line: string): (r: string)
    ensures |r| <= |line| && r == line[..|r|]
    ensures forall k :: 0 <= k < |r| ==> r[k] != '#'
    ensures |r| < |line| ==> line[|r|] == '#'
  {
    if line == [] || line[0] == '#' then [] else [line[0]] + CutComment(line[1..])
  }

  /** The lower-cased mnemonic and the non-empty operand tokens of a stripped, non-empty line. */
  function Tokens(text: string): (string, seq<string>) {
    var parts := Split(text);
    (Lower(parts[0]), NonEmpty(parts[1..]))
  }

  /** `operands[i]`, which raises for a missing operand. */
  function Operand(ops: seq<string>, i: nat): Result<string> {
    if i < |ops| then Ok(ops[i]) else Err(MissingOperand)
  }

  function RegisterAt(ops: seq<string>, i: nat): Result<nat> {
    var t :- Operand(ops, i);
    ParseRegister(t)
  }

  function ImmediateAt(ops: seq<string>, i: nat): Result<int> {
    var t :- Operand(ops, i);
    ParseImmediate(t)
  }

  function CsrAt(ops: seq<string>, i: nat): Result<int> {
    var t :- Operand(ops, i);
    ParseCsr(t)
  }

  /** An `offset(reg)` operand: the offset and the base register; text after `)` is ignored, as `re.match` does. */
  function OffsetBaseAt(ops: seq<string>, i: nat): Result<(int, nat)> {
    var t :- Operand(ops, i);
    match MatchOffsetBase(t)
    case None => Err(BadOperandFormat)
    case Some(groups) =>
      var imm :- ParseImmediate(groups.0);
      var rs1 :- ParseRegister(groups.1);
      Ok((imm, rs1))
  }

  /** The body of the `try` in `assemble_instruction`: the word for a mnemonic text and its operands. */
  function Encode(name: string, ops: seq<string>): Result<int> {
    match MnemonicOf(name)
    case None => Err(UnsupportedInstruction)
    case Some(m) => EncodeMnemonic(m, ops)
  }

  /** The dispatch on the mnemonic's class, in the order of the `if`/`elif` chain. */
  function EncodeMnemonic(m: Mnemonic, ops: seq<string>): Result<int> {
    match ClassOf(m)
    case UpperClass => UpperWord(m, ops)
    case JalClass => JumpWord(m, ops)
    case JalrClass => JumpRegisterWord(m, ops)
    case BranchClass => BranchWord(m, ops)
    case LoadClass => LoadWord(m, ops)
    case StoreClass => StoreWord(m, ops)
    case AluImmediateClass => AluImmediateWord(m, ops)
    case ShiftClass => ShiftWord(m, ops)
    case RegisterClass => RegisterWord(m, ops)
    case FenceClass => FenceMasksWord(ops)
    case FenceIClass => Ok(EncodeIType(FenceI, 0, 0, 0))
    case EcallClass => Ok(0x0000_0073)
    case EbreakClass => Ok(0x0010_0073)
    case CsrRegisterClass => CsrWord(m, ops)
    case CsrImmediateClass => CsrImmediateWord(m, ops)
  }

  /** `lui`/`auipc rd, imm`. */
  function UpperWord(m: Mnemonic, ops: seq<string>): Result<int>
    requires m.IsUpper()
  {
    var rd :- RegisterAt(ops, 0);
    var imm :- ImmediateAt(ops, 1);
    Ok(EncodeUType(m, rd, imm))
  }

  /** `jal rd, imm`. */
  function JumpWord(m: Mnemonic, ops: seq<string>): Result<int>
    requires ClassOf(m) == JalClass
  {
    var rd :- RegisterAt(ops, 0);
    var imm :- ImmediateAt(ops, 1);
    EncodeJType(m, rd, imm)
  }

  /** `jalr rd, offset(rs1)` with two operands, otherwise `jalr rd, rs1, imm`. */
  function JumpRegisterWord(m: Mnemonic, ops: seq<string>): Result<int>
    requires ClassOf(m) == JalrClass
  {
    if |ops| == 2 then
      var rd :- RegisterAt(ops, 0);
      var mem :- OffsetBaseAt(ops, 1);
      Ok(EncodeIType(m, rd, mem.1, mem.0))
    else
      var rd :- RegisterAt(ops, 0);
      var rs1 :- RegisterAt(ops, 1);
      var imm :- ImmediateAt(ops, 2);
      Ok(EncodeIType(m, rd, rs1, imm))
  }

  /** `beq rs1, rs2, imm` and the other branches. */
  function BranchWord(m: Mnemonic, ops: seq<string>): Result<int>
    requires m.IsBranch()
  {
    var rs1 :- RegisterAt(ops, 0);
    var rs2 :- RegisterAt(ops, 1);
    var imm :- ImmediateAt(ops, 2);
    EncodeBType(m, rs1, rs2, imm)
  }

  /** `lw rd, offset(rs1)` and the other loads. */
  function LoadWord(m: Mnemonic, ops: seq<string>): Result<int>
    requires m.IsLoad()
  {
    var rd :- RegisterAt(ops, 0);
    var mem :- OffsetBaseAt(ops, 1);
    Ok(EncodeIType(m, rd, mem.1, mem.0))
  }

  /** `sw rs2, offset(rs1)` and the other stores. */
  function StoreWord(m: Mnemonic, ops: seq<string>): Result<int>
    requires m.IsStore()
  {
    var rs2 :- RegisterAt(ops, 0);
    var mem :- OffsetBaseAt(ops, 1);
    Ok(EncodeSType(m, rs2, mem.1, mem.0))
  }

  /** `addi rd, rs1, imm` and the other I-type ALU instructions. */
  function AluImmediateWord(m: Mnemonic, ops: seq<string>): Result<int>
    requires m.IsAluImmediate()
  {
    var rd :- RegisterAt(ops, 0);
    var rs1 :- RegisterAt(ops, 1);
    var imm :- ImmediateAt(ops, 2);
    Ok(EncodeIType(m, rd, rs1, imm))
  }

  /** `slli`/`srli`/`srai rd, rs1, shamt`, with the amount checked against 0..31. */
  function ShiftWord(m: Mnemonic, ops: seq<string>): Result<int>
    requires m.IsShiftImmediate()
  {
    var rd :- RegisterAt(ops, 0);
    var rs1 :- RegisterAt(ops, 1);
    var imm :- ImmediateAt(ops, 2);
    if imm < 0 || imm > 31 then Err(ShiftOutOfRange) else Ok(EncodeIType(m, rd, rs1, imm))
  }

  /** `add rd, rs1, rs2` and the other R-type instructions. */
  function RegisterWord(m: Mnemonic, ops: seq<string>): Result<int>
    requires m.IsRegister()
  {
    var rd :- RegisterAt(ops, 0);
    var rs1 :- RegisterAt(ops, 1);
    var rs2 :- RegisterAt(ops, 2);
    Ok(EncodeRType(m, rd, rs1, rs2))
  }

  /** The mask `fence` takes for a missing operand. */
  const DefaultMask: string := "iorw"

  /** `fence pred, succ`, each mask `iorw` when absent. */
  function FenceMasksWord(ops: seq<string>): Result<int> {
    var pred := if |ops| > 0 then ops[0] else DefaultMask;
    var succ := if |ops| > 1 then ops[1] else DefaultMask;
    EncodeFence(pred, succ)
  }

  /** `csrrw`/`csrrs`/`csrrc rd, csr, rs1`. */
  function CsrWord(m: Mnemonic, ops: seq<string>): Result<int>
    requires m.IsCsrRegister()
  {
    var rd :- RegisterAt(ops, 0);
    var csr :- CsrAt(ops, 1);
    var rs1 :- RegisterAt(ops, 2);
    Ok(EncodeCsr(m, rd, csr, rs1))
  }

  /** `csrrwi`/`csrrsi`/`csrrci rd, csr, imm`, with the immediate checked against 0..31. */
  function CsrImmediateWord(m: Mnemonic, ops: seq<string>): Result<int>
    requires m.IsCsrImmediate()
  {
    var rd :- RegisterAt(ops, 0);
    var csr :- CsrAt(ops, 1);
    var imm :- ImmediateAt(ops, 2);
    if imm < 0 || imm > 31 then Err(CsrImmediateOutOfRange) else Ok(EncodeCsr(m, rd, csr, imm))
  }

  /** `assemble_instruction`: None for a blank or comment-only line, else the word or the failure. */
  function AssembleInstruction(line: string): Result<Option<int>> {
    var text := Strip(CutComment(line));
    if text == [] then Ok(None)
    else
      var (name, ops) := Tokens(text);
      var w :- Encode(name, ops);
      Ok(Some(w))
  }

  // ---------------------------------------------------------------------
  // Properties of one line

  /** A line yields no word, and no failure, exactly when nothing but blanks precedes its first `#`. */
  lemma BlankLine(line: string)
    ensures AssembleInstruction(line) == Ok(None) <==> Strip(CutComment(line)) == []
  {
  }

  /** A mnemonic outside the instruction set is refused whatever its operands. */
  lemma UnknownMnemonic(name: string, ops: seq<string>)
    requires MnemonicOf(name).None?
    ensures Encode(name, ops) == Err(UnsupportedInstruction)
  {
  }

  /** `ecall` and `ebreak` have fixed words; any operands are ignored. */
  lemma SystemWords(m: Mnemonic, ops: seq<string>)
    requires m == Ecall || m == Ebreak
    ensures EncodeMnemonic(m, ops) == Ok(if m == Ecall then 0x0000_0073 else 0x0010_0073)
  {
    if m == Ecall {
      assert ClassOf(m) == EcallClass;
    } else {
      assert ClassOf(m) == EbreakClass;
    }
  }

  /** `fence` without operands orders everything: `fence iorw, iorw`. */
  lemma FenceWithoutOperands(m: Mnemonic, ops: seq<string>)
    requires m == Fence && ops == []
    ensures EncodeMnemonic(m, ops) == Ok(0x0FF0_000F)
  {
    FenceDispatch(m, ops);
    DefaultMasks(ops);
  }

  /** `fence` is encoded by the fence case of the dispatch, with or without operands. */
  lemma FenceDispatch(m: Mnemonic, ops: seq<string>)
    requires m == Fence
    ensures EncodeMnemonic(m, ops) == FenceMasksWord(ops)
  {
    assert ClassOf(m) == FenceClass;
  }

  lemma DefaultMasks(ops: seq<string>)
    requires ops == []
    ensures FenceMasksWord(ops) == Ok(0x0FF0_000F)
  {
    var mask := DefaultMask;
    assert FenceMasksWord(ops) == EncodeFence(mask, mask);
    FenceDefault(mask);
  }

  /**
   * With well-formed registers and immediate, a shift is assembled exactly
   * when the amount is in 0..31, and then it is the I-type word with the
   * amount as immediate.
   */
  lemma ShiftAmountChecked(m: Mnemonic, ops: seq<string>, rd: nat, rs1: nat, shamt: int)
    requires m.IsShiftImmediate() && |ops| >= 3
    requires ParseRegister(ops[0]) == Ok(rd) && ParseRegister(ops[1]) == Ok(rs1) && ParseImmediate(ops[2]) == Ok(shamt)
    ensures EncodeMnemonic(m, ops)
      == if 0 <= shamt <= 31 then Ok(EncodeIType(m, rd, rs1, shamt)) else Err(ShiftOutOfRange)
  {
    assert RegisterAt(ops, 0) == Ok(rd) && RegisterAt(ops, 1) == Ok(rs1) && ImmediateAt(ops, 2) == Ok(shamt);
  }

  /**
   * With well-formed register, CSR and immediate, a CSR-immediate
   * instruction is assembled exactly when the immediate is in 0..31, and
   * then the immediate takes the place of rs1.
   */
  lemma CsrImmediateChecked(m: Mnemonic, ops: seq<string>, rd: nat, csr: int, imm: int)
    requires m.IsCsrImmediate() && |ops| >= 3
    requires ParseRegister(ops[0]) == Ok(rd) && ParseCsr(ops[1]) == Ok(csr) && ParseImmediate(ops[2]) == Ok(imm)
    ensures EncodeMnemonic(m, ops)
      == if 0 <= imm <= 31 then Ok(EncodeCsr(m, rd, csr, imm)) else Err(CsrImmediateOutOfRange)
  {
    CsrImmediateDispatch(m, ops);
    assert RegisterAt(ops, 0) == Ok(rd) && CsrAt(ops, 1) == Ok(csr) && ImmediateAt(ops, 2) == Ok(imm);
  }

  /** A CSR-immediate mnemonic is encoded by the CSR-immediate case of the dispatch. */
  lemma CsrImmediateDispatch(m: Mnemonic, ops: seq<string>)
    requires m.IsCsrImmediate()
    ensures EncodeMnemonic(m, ops) == CsrImmediateWord(m, ops)
  {
    assert ClassOf(m) == CsrImmediateClass;
  }

  // ---------------------------------------------------------------------
  // Lines written in the usual form

  /**
   * A line made of a lower-case mnemonic text and operand tokens is
   * assembled as that mnemonic text applied to exactly those operands.
   */
  lemma UsualLine(name: string, ops: seq<string>)
    requires IsToken(name) && Lower(name) == name
    requires forall k :: 0 <= k < |ops| ==> IsToken(ops[k])
    ensures AssembleInstruction(Line(name, ops))
      == (match Encode(name, ops) case Ok(w) => Ok(Some(w)) case Err(e) => Err(e))
  {
    var line := Line(name, ops);
    LineFacts(name, ops);
    NoComment(line);
    StripNoSpace(line);
    SplitLine(name, ops);
    NonEmptyTokens(ops);
  }

  /**
   * `op rd, rs1, rs2` for an R-type mnemonic assembles to the 32-bit word
   * whose fields are the three registers and the mnemonic's opcode, funct3
   * and funct7.
   */
  lemma RegisterLine(name: string, rd: nat, rs1: nat, rs2: nat)
    requires MnemonicOf(name).Some? && MnemonicOf(name).value.IsRegister()
    requires rd < 32 && rs1 < 32 && rs2 < 32
    ensures var m := MnemonicOf(name).value;
      var r := AssembleInstruction(Line(name, [RegisterName(rd), RegisterName(rs1), RegisterName(rs2)]));
      r.Ok? && r.value.Some?
      && var w := r.value.value;
      0 <= w < 0x1_0000_0000 && OpcodeOf(w) == Opcode(m) && RdOf(w) == rd && Funct3Of(w) == Funct3(m)
      && Rs1Of(w) == rs1 && Rs2Of(w) == rs2 && Funct7Of(w) == Funct7(m)
  {
    var m := MnemonicOf(name).value;
    var ops := [RegisterName(rd), RegisterName(rs1), RegisterName(rs2)];
    MnemonicText(name);
    RegisterTokens(ops, rd, rs1, rs2);
    RegisterOperands(name, m, ops, rd, rs1, rs2);
    LineWord(name, ops, EncodeRType(m, rd, rs1, rs2));
    RTypeFields(m, rd, rs1, rs2);
  }

  /** A usual line whose operands encode to w assembles to w. */
  lemma LineWord(name: string, ops: seq<string>, w: int)
    requires IsToken(name) && Lower(name) == name
    requires forall k :: 0 <= k < |ops| ==> IsToken(ops[k])
    requires Encode(name, ops) == Ok(w)
    ensures AssembleInstruction(Line(name, ops)) == Ok(Some(w))
  {
    UsualLine(name, ops);
  }

  lemma RegisterOperands(name: string, m: Mnemonic, ops: seq<string>, rd: nat, rs1: nat, rs2: nat)
    requires MnemonicOf(name) == Some(m) && m.IsRegister() && |ops| == 3
    requires ParseRegister(ops[0]) == Ok(rd) && ParseRegister(ops[1]) == Ok(rs1) && ParseRegister(ops[2]) == Ok(rs2)
    ensures Encode(name, ops) == Ok(EncodeRType(m, rd, rs1, rs2))
  {
    RegisterDispatch(name, m, ops);
    assert RegisterAt(ops, 0) == Ok(rd) && RegisterAt(ops, 1) == Ok(rs1) && RegisterAt(ops, 2) == Ok(rs2);
  }

  /** An R-type mnemonic is encoded by the R-type case of the dispatch. */
  lemma RegisterDispatch(name: string, m: Mnemonic, ops: seq<string>)
    requires MnemonicOf(name) == Some(m) && m.IsRegister()
    ensures Encode(name, ops) == RegisterWord(m, ops)
  {
    assert ClassOf(m) == RegisterClass;
  }

  /**
   * `op rd, rs1, imm` for an I-type ALU mnemonic and a decimal imm in the
   * signed 12-bit range assembles to the 32-bit word whose fields are the
   * registers and whose immediate reads back as imm.
   */
  lemma ImmediateLine(name: string, rd: nat, rs1: nat, imm: int)
    requires MnemonicOf(name).Some? && MnemonicOf(name).value.IsAluImmediate()
    requires rd < 32 && rs1 < 32 && -2048 <= imm < 2048
    ensures var m := MnemonicOf(name).value;
      var r := AssembleInstruction(Line(name, [RegisterName(rd), RegisterName(rs1), DecimalText(imm)]));
      r.Ok? && r.value.Some?
      && var w := r.value.value;
      0 <= w < 0x1_0000_0000 && OpcodeOf(w) == Opcode(m) && RdOf(w) == rd && Funct3Of(w) == Funct3(m)
      && Rs1Of(w) == rs1 && IImmediate(w) == imm
  {
    var m := MnemonicOf(name).value;
    var ops := [RegisterName(rd), RegisterName(rs1), DecimalText(imm)];
    MnemonicText(name);
    RegisterNameToken(rd);
    RegisterNameToken(rs1);
    DecimalTextToken(imm);
    DecimalRoundTrip(imm);
    assert forall k :: 0 <= k < |ops| ==> IsToken(ops[k]);
    ImmediateOperands(name, m, ops, rd, rs1, imm);
    LineWord(name, ops, EncodeIType(m, rd, rs1, imm));
    ITypeFields(m, rd, rs1, imm);
  }

  lemma ImmediateOperands(name: string, m: Mnemonic, ops: seq<string>, rd: nat, rs1: nat, imm: int)
    requires MnemonicOf(name) == Some(m) && m.IsAluImmediate() && |ops| == 3
    requires ParseRegister(ops[0]) == Ok(rd) && ParseRegister(ops[1]) == Ok(rs1) && ParseImmediate(ops[2]) == Ok(imm)
    ensures Encode(name, ops) == Ok(EncodeIType(m, rd, rs1, imm))
  {
    ImmediateDispatch(name, m, ops);
    assert RegisterAt(ops, 0) == Ok(rd) && RegisterAt(ops, 1) == Ok(rs1) && ImmediateAt(ops, 2) == Ok(imm);
  }

  /** An I-type ALU mnemonic is encoded by the I-type ALU case of the dispatch. */
  lemma ImmediateDispatch(name: string, m: Mnemonic, ops: seq<string>)
    requires MnemonicOf(name) == Some(m) && m.IsAluImmediate()
    ensures Encode(name, ops) == AluImmediateWord(m, ops)
  {
    assert ClassOf(m) == AluImmediateClass;
  }

  /**
   * A load takes rd and an `offset(rs1)` operand; the offset and base are the
   * matched groups, and anything after the `)` is ignored.
   */
  lemma LoadOperands(name: string, m: Mnemonic, ops: seq<string>, rd: nat, imm: int, rs1: nat)
    requires MnemonicOf(name) == Some(m) && m.IsLoad() && |ops| >= 2
    requires ParseRegister(ops[0]) == Ok(rd) && MatchOffsetBase(ops[1]).Some?
    requires ParseImmediate(MatchOffsetBase(ops[1]).value.0) == Ok(imm)
    requires ParseRegister(MatchOffsetBase(ops[1]).value.1) == Ok(rs1)
    ensures Encode(name, ops) == Ok(EncodeIType(m, rd, rs1, imm))
  {
    LoadDispatch(name, m, ops);
    assert RegisterAt(ops, 0) == Ok(rd) && OffsetBaseAt(ops, 1) == Ok((imm, rs1));
  }

  /** A load mnemonic is encoded by the load case of the dispatch. */
  lemma LoadDispatch(name: string, m: Mnemonic, ops: seq<string>)
    requires MnemonicOf(name) == Some(m) && m.IsLoad()
    ensures Encode(name, ops) == LoadWord(m, ops)
  {
    assert ClassOf(m) == LoadClass;
  }

  /** A store takes rs2 and an `offset(rs1)` operand, as a load does. */
  lemma StoreOperands(name: string, m: Mnemonic, ops: seq<string>, rs2: nat, imm: int, rs1: nat)
    requires MnemonicOf(name) == Some(m) && m.IsStore() && |ops| >= 2
    requires ParseRegister(ops[0]) == Ok(rs2) && MatchOffsetBase(ops[1]).Some?
    requires ParseImmediate(MatchOffsetBase(ops[1]).value.0) == Ok(imm)
    requires ParseRegister(MatchOffsetBase(ops[1]).value.1) == Ok(rs1)
    ensures Encode(name, ops) == Ok(EncodeSType(m, rs2, rs1, imm))
  {
    StoreDispatch(name, m, ops);
    assert RegisterAt(ops, 0) == Ok(rs2) && OffsetBaseAt(ops, 1) == Ok((imm, rs1));
  }

  /** A store mnemonic is encoded by the S-type case of the dispatch. */
  lemma StoreDispatch(name: string, m: Mnemonic, ops: seq<string>)
    requires MnemonicOf(name) == Some(m) && m.IsStore()
    ensures Encode(name, ops) == StoreWord(m, ops)
  {
    assert ClassOf(m) == StoreClass;
  }

  /**
   * A load or store, or a two-operand `jalr`, whose address operand is not
   * `offset(reg)` is refused, once its first register has been read.
   */
  lemma MalformedAddress(name: string, m: Mnemonic, ops: seq<string>)
    requires MnemonicOf(name) == Some(m) && (m.IsLoad() || m.IsStore() || (m == Jalr && |ops| == 2))
    requires |ops| >= 2 && ParseRegister(ops[0]).Ok? && MatchOffsetBase(ops[1]).None?
    ensures Encode(name, ops) == Err(BadOperandFormat)
  {
    assert RegisterAt(ops, 0) == ParseRegister(ops[0]) && OffsetBaseAt(ops, 1) == Err(BadOperandFormat);
    if m.IsLoad() {
      assert ClassOf(m) == LoadClass;
    } else if m.IsStore() {
      assert ClassOf(m) == StoreClass;
    } else {
      assert ClassOf(m) == JalrClass;
    }
  }

  /** `jalr rd, offset(rs1)`: with two operands the second is an address. */
  lemma JumpRegisterAddress(name: string, ops: seq<string>, rd: nat, imm: int, rs1: nat)
    requires MnemonicOf(name) == Some(Jalr) && |ops| == 2
    requires ParseRegister(ops[0]) == Ok(rd) && MatchOffsetBase(ops[1]).Some?
    requires ParseImmediate(MatchOffsetBase(ops[1]).value.0) == Ok(imm)
    requires ParseRegister(MatchOffsetBase(ops[1]).value.1) == Ok(rs1)
    ensures Encode(name, ops) == Ok(EncodeIType(Jalr, rd, rs1, imm))
  {
    assert ClassOf(Jalr) == JalrClass;
    assert RegisterAt(ops, 0) == Ok(rd) && OffsetBaseAt(ops, 1) == Ok((imm, rs1));
  }

  /** `jalr rd, rs1, imm`: with any other count the operands are two registers and an immediate. */
  lemma JumpRegisterOperands(name: string, ops: seq<string>, rd: nat, rs1: nat, imm: int)
    requires MnemonicOf(name) == Some(Jalr) && |ops| >= 3
    requires ParseRegister(ops[0]) == Ok(rd) && ParseRegister(ops[1]) == Ok(rs1) && ParseImmediate(ops[2]) == Ok(imm)
    ensures Encode(name, ops) == Ok(EncodeIType(Jalr, rd, rs1, imm))
  {
    assert ClassOf(Jalr) == JalrClass;
    assert RegisterAt(ops, 0) == Ok(rd) && RegisterAt(ops, 1) == Ok(rs1) && ImmediateAt(ops, 2) == Ok(imm);
  }

  /**
   * An R-type line with fewer than three operands, all of them registers,
   * fails on the first missing one (the IndexError of `operands[i]`).
   */
  lemma MissingRegister(name: string, m: Mnemonic, ops: seq<string>)
    requires MnemonicOf(name) == Some(m) && m.IsRegister() && |ops| < 3
    requires forall k :: 0 <= k < |ops| ==> ParseRegister(ops[k]).Ok?
    ensures Encode(name, ops) == Err(MissingOperand)
  {
    RegisterDispatch(name, m, ops);
    assert |ops| < 3 ==> RegisterAt(ops, |ops|) == Err(MissingOperand);
  }

  /** A line without `#` keeps all of its text. */
  lemma NoComment(line: string)
    requires forall k :: 0 <= k < |line| ==> line[k] != '#'
    ensures CutComment(line) == line
  {
  }

  // ---------------------------------------------------------------------
  // The file

  /** The outcome of assembling a file: the words, or the first failing line (counted from 1) and why. */
  datatype Listing = Words(words: seq<int>) | Failed(line: nat, error: Error)

  /** The outcome of each line. */
  function Outcomes(lines: seq<string>): (outs: seq<Result<Option<int>>>)
    ensures |outs| == |lines|
  {
    seq(|lines|, k requires 0 <= k < |lines| => AssembleInstruction(lines[k]))
  }

  /** The loop of `assemble_file` over the outcomes of the lines: collect the words, stop at the first failure. */
  function Collect(outs: seq<Result<Option<int>>>): Listing {
    if outs == [] then Words([])
    else
      match Collect(outs[..|outs| - 1])
      case Failed(n, e) => Failed(n, e)
      case Words(ws) =>
        match outs[|outs| - 1]
        case Err(e) => Failed(|outs|, e)
        case Ok(None) => Words(ws)
        case Ok(Some(w)) => Words(ws + [w])
  }

  /** Assembling the lines of a file. */
  function Pass(lines: seq<string>): Listing {
    Collect(Outcomes(lines))
  }

  /**
   * The file fails exactly at its first failing line: line n (from 1) is
   * reported when it fails and every earlier line assembles.
   */
  lemma {:induction false} CollectFailedFirst(outs: seq<Result<Option<int>>>, n: nat, e: Error)
    ensures Collect(outs) == Failed(n, e) <==>
      1 <= n <= |outs| && outs[n - 1] == Err(e) && forall k :: 0 <= k < n - 1 ==> outs[k].Ok?
  {
    if outs != [] {
      var init := outs[..|outs| - 1];
      CollectFailedFirst(init, n, e);
      assert forall k :: 0 <= k < |init| ==> init[k] == outs[k];
      if Collect(init).Words? {
        CollectWordsAll(init);
      } else {
        CollectFailedFirst(init, Collect(init).line, Collect(init).error);
      }
    }
  }

  /** The file assembles exactly when every line does, and its words are those of the non-blank lines in order. */
  lemma {:induction false} CollectWordsAll(outs: seq<Result<Option<int>>>)
    ensures Collect(outs).Words? <==> forall k :: 0 <= k < |outs| ==> outs[k].Ok?
    ensures Collect(outs).Words? ==> Collect(outs).words == Kept(outs)
  {
    if outs != [] {
      var init := outs[..|outs| - 1];
      CollectWordsAll(init);
      assert forall k :: 0 <= k < |init| ==> init[k] == outs[k];
    }
  }

  /** The words of the lines that produced one, in order (the outcomes read front to back). */
  function Kept(outs: seq<Result<Option<int>>>): seq<int> {
    if outs == [] then []
    else
      var rest := Kept(outs[..|outs| - 1]);
      match outs[|outs| - 1]
      case Ok(Some(w)) => rest + [w]
      case _ => rest
  }

  /** Assembling two files one after the other gives the words of the first followed by those of the second. */
  lemma {:induction false} CollectAppend(a: seq<Result<Option<int>>>, b: seq<Result<Option<int>>>)
    requires Collect(a).Words? && Collect(b).Words?
    ensures Collect(a + b) == Words(Collect(a).words + Collect(b).words)
    decreases |b|
  {
    if b == [] {
      assert a + b == a;
    } else {
      var init := b[..|b| - 1];
      assert (a + b)[..|a + b| - 1] == a + init;
      assert (a + b)[|a + b| - 1] == b[|b| - 1];
      CollectAppend(a, init);
    }
  }

  /** A blank or comment-only line adds no word and never fails. */
  lemma PassSkipsBlank(lines: seq<string>, blank: string)
    requires Strip(CutComment(blank)) == []
    ensures Pass(lines + [blank]) == Pass(lines)
  {
    var outs := Outcomes(lines + [blank]);
    BlankLine(blank);
    assert outs[|lines|] == Ok(None);
    assert outs[..|lines|] == Outcomes(lines);
  }

  /**
   * `assemble_file` on the lines read from the input: true and the output
   * text when every line assembles, false and no output otherwise.
   */
  method AssembleFile(lines: seq<string>) returns (ok: bool, output: string)
    ensures ok <==> Pass(lines).Words?
    ensures ok ==> output == TextFile(Pass(lines).words)
    ensures !ok ==> output == []
  {
    ghost var outs := Outcomes(lines);
    var words: seq<int> := [];
    var i := 0;
    while i < |lines|
      invariant 0 <= i <= |lines|
      invariant Collect(outs[..i]) == Words(words)
    {
      assert outs[..i + 1][..i] == outs[..i];
      var r := AssembleInstruction(lines[i]);
      assert outs[i] == r;
      if r.Err? {
        CollectStops(outs, i + 1);
        return false, [];
      }
      if r.value.Some? {
        words := words + [r.value.value];
      }
      i := i + 1;
    }
    assert outs[..i] == outs;
    output := [];
    var k := 0;
    while k < |words|
      invariant 0 <= k <= |words|
      invariant output == Concat(TextLines(words[..k]))
    {
      TextLinesStep(words, k);
      output := output + (Binary032(words[k]) + "\n");
      k := k + 1;
    }
    assert words[..k] == words;
    ok := true;
  }

  /** Once a prefix fails, the whole file fails. */
  lemma {:induction false} CollectStops(outs: seq<Result<Option<int>>>, i: nat)
    requires i <= |outs| && Collect(outs[..i]).Failed?
    ensures Collect(outs).Failed?
    decreases |outs| - i
  {
    if i < |outs| {
      assert outs[..i + 1][..i] == outs[..i];
      CollectStops(outs, i + 1);
    } else {
      assert outs[..i] == outs;
    }
  }
}
