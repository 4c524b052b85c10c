/**
 * The RV32I mnemonics both assemblers know, their opcode, funct3 and funct7
 * tables, the ABI register names and the named CSRs. The two-pass
 * assembler's tables are the same values restricted to a subset of the
 * mnemonics (see `InTwoPassTables`).
 */
module Isa {
  import opened Results

  datatype Mnemonic =
    | Lui | Auipc | Jal | Jalr
    | Beq | Bne | Blt | Bge | Bltu | Bgeu
    | Lb | Lh | Lw | Lbu | Lhu
    | Sb | Sh | Sw
    | Addi | Slti | Sltiu | Xori | Ori | Andi
    | Slli | Srli | Srai
    | Add | Sub | Sll | Slt | Sltu | Xor | Srl | Sra | Or | And
    | Fence | FenceI | Ecall | Ebreak
    | Csrrw | Csrrs | Csrrc | Csrrwi | Csrrsi | Csrrci
  {
    predicate IsUpper() {
      ClassOf(this) == UpperClass
    }

    predicate IsBranch() {
      ClassOf(this) == BranchClass
    }

    predicate IsLoad() {
      ClassOf(this) == LoadClass
    }

    predicate IsStore() {
      ClassOf(this) == StoreClass
    }

    /** The I-type ALU instructions other than the shifts. */
    predicate IsAluImmediate() {
      ClassOf(this) == AluImmediateClass
    }

    predicate IsShiftImmediate() {
      ClassOf(this) == ShiftClass
    }

    predicate IsRegister() {
      ClassOf(this) == RegisterClass
    }

    predicate IsCsrRegister() {
      ClassOf(this) == CsrRegisterClass
    }

    predicate IsCsrImmediate() {
      ClassOf(this) == CsrImmediateClass
    }

    /** The mnemonics with an entry in the funct3 table. */
    predicate HasFunct3() {
      !(IsUpper() || ClassOf(this) == JalClass)
    }

    /** The mnemonics with an entry in the funct7 table. */
    predicate HasFunct7() {
      IsShiftImmediate() || IsRegister()
    }

    /** The mnemonics in the tables of the two-pass assembler. */
    predicate InTwoPassTables() {
      match ClassOf(this)
      case UpperClass | JalClass | JalrClass | BranchClass | StoreClass | AluImmediateClass | ShiftClass | RegisterClass => true
      case LoadClass => this == Lb || this == Lh || this == Lw
      case _ => false
    }
  }

  /**
   * The groups the single-pass assembler's `if`/`elif` chain tells apart,
   * each encoded by one branch.
   */
  datatype Class =
    | UpperClass | JalClass | JalrClass | BranchClass | LoadClass | StoreClass
    | AluImmediateClass | ShiftClass | RegisterClass
    | FenceClass | FenceIClass | EcallClass | EbreakClass | CsrRegisterClass | CsrImmediateClass

  function ClassOf(m: Mnemonic): Class {
    match m
    case Lui | Auipc => UpperClass
    case Jal => JalClass
    case Jalr => JalrClass
    case Beq | Bne | Blt | Bge | Bltu | Bgeu => BranchClass
    case Lb | Lh | Lw | Lbu | Lhu => LoadClass
    case Sb | Sh | Sw => StoreClass
    case Addi | Slti | Sltiu | Xori | Ori | Andi => AluImmediateClass
    case Slli | Srli | Srai => ShiftClass
    case Add | Sub | Sll | Slt | Sltu | Xor | Srl | Sra | Or | And => RegisterClass
    case Fence => FenceClass
    case FenceI => FenceIClass
    case Ecall => EcallClass
    case Ebreak => EbreakClass
    case Csrrw | Csrrs | Csrrc => CsrRegisterClass
    case Csrrwi | Csrrsi | Csrrci => CsrImmediateClass
  }

  /** The mnemonic a lower-case instruction name stands for, if any. */
  function MnemonicOf(name: string): Option<Mnemonic> {
    match name
    case "lui" => Some(Lui)
    case "auipc" => Some(Auipc)
    case "jal" => Some(Jal)
    case "jalr" => Some(Jalr)
    case "beq" => Some(Beq)
    case "bne" => Some(Bne)
    case "blt" => Some(Blt)
    case "bge" => Some(Bge)
    case "bltu" => Some(Bltu)
    case "bgeu" => Some(Bgeu)
    case "lb" => Some(Lb)
    case "lh" => Some(Lh)
    case "lw" => Some(Lw)
    case "lbu" => Some(Lbu)
    case "lhu" => Some(Lhu)
    case "sb" => Some(Sb)
    case "sh" => Some(Sh)
    case "sw" => Some(Sw)
    case "addi" => Some(Addi)
    case "slti" => Some(Slti)
    case "sltiu" => Some(Sltiu)
    case "xori" => Some(Xori)
    case "ori" => Some(Ori)
    case "andi" => Some(Andi)
    case "slli" => Some(Slli)
    case "srli" => Some(Srli)
    case "srai" => Some(Srai)
    case "add" => Some(Add)
    case "sub" => Some(Sub)
    case "sll" => Some(Sll)
    case "slt" => Some(Slt)
    case "sltu" => Some(Sltu)
    case "xor" => Some(Xor)
    case "srl" => Some(Srl)
    case "sra" => Some(Sra)
    case "or" => Some(Or)
    case "and" => Some(And)
    case "fence" => Some(Fence)
    case "fence.i" => Some(FenceI)
    case "ecall" => Some(Ecall)
    case "ebreak" => Some(Ebreak)
    case "csrrw" => Some(Csrrw)
    case "csrrs" => Some(Csrrs)
    case "csrrc" => Some(Csrrc)
    case "csrrwi" => Some(Csrrwi)
    case "csrrsi" => Some(Csrrsi)
    case "csrrci" => Some(Csrrci)
    case _ => None
  }

  /** The 7-bit major opcode. */
  function Opcode(m: Mnemonic): (r: nat)
    ensures r < 128
  {
    match ClassOf(m)
    case UpperClass => if m == Lui then 0x37 else 0x17
    case JalClass => 0x6F
    case JalrClass => 0x67
    case BranchClass => 0x63
    case LoadClass => 0x03
    case StoreClass => 0x23
    case AluImmediateClass | ShiftClass => 0x13
    case RegisterClass => 0x33
    case FenceClass | FenceIClass => 0x0F
    case _ => 0x73
  }

  function Funct3(m: Mnemonic): (r: nat)
    requires m.HasFunct3()
    ensures r < 8
  {
    match m
    case Jalr => 0
    case Beq => 0 case Bne => 1 case Blt => 4 case Bge => 5 case Bltu => 6 case Bgeu => 7
    case Lb => 0 case Lh => 1 case Lw => 2 case Lbu => 4 case Lhu => 5
    case Sb => 0 case Sh => 1 case Sw => 2
    case Addi => 0 case Slti => 2 case Sltiu => 3 case Xori => 4 case Ori => 6 case Andi => 7
    case Slli => 1 case Srli => 5 case Srai => 5
    case Add => 0 case Sub => 0 case Sll => 1 case Slt => 2 case Sltu => 3
    case Xor => 4 case Srl => 5 case Sra => 5 case Or => 6 case And => 7
    case Fence => 0 case FenceI => 1
    case Ecall => 0 case Ebreak => 0
    case Csrrw => 1 case Csrrs => 2 case Csrrc => 3
    case Csrrwi => 5 case Csrrsi => 6 case Csrrci => 7
  }

  function Funct7(m: Mnemonic): (r: nat)
    requires m.HasFunct7()
    ensures r < 128
  {
    if m == Srai || m == Sub || m == Sra then 0x20 else 0
  }

  /** The register table: ABI names and x0..x31. */
  function RegisterNumber(name: string): Option<nat> {
    match name
    case "x0" => Some(0) case "x1" => Some(1) case "x2" => Some(2) case "x3" => Some(3)
    case "x4" => Some(4) case "x5" => Some(5) case "x6" => Some(6) case "x7" => Some(7)
    case "x8" => Some(8) case "x9" => Some(9) case "x10" => Some(10) case "x11" => Some(11)
    case "x12" => Some(12) case "x13" => Some(13) case "x14" => Some(14) case "x15" => Some(15)
    case "x16" => Some(16) case "x17" => Some(17) case "x18" => Some(18) case "x19" => Some(19)
    case "x20" => Some(20) case "x21" => Some(21) case "x22" => Some(22) case "x23" => Some(23)
    case "x24" => Some(24) case "x25" => Some(25) case "x26" => Some(26) case "x27" => Some(27)
    case "x28" => Some(28) case "x29" => Some(29) case "x30" => Some(30) case "x31" => Some(31)
    case "zero" => Some(0) case "ra" => Some(1) case "sp" => Some(2) case "gp" => Some(3)
    case "tp" => Some(4) case "t0" => Some(5) case "t1" => Some(6) case "t2" => Some(7)
    case "s0" => Some(8) case "fp" => Some(8) case "s1" => Some(9) case "a0" => Some(10)
    case "a1" => Some(11) case "a2" => Some(12) case "a3" => Some(13) case "a4" => Some(14)
    case "a5" => Some(15) case "a6" => Some(16) case "a7" => Some(17) case "s2" => Some(18)
    case "s3" => Some(19) case "s4" => Some(20) case "s5" => Some(21) case "s6" => Some(22)
    case "s7" => Some(23) case "s8" => Some(24) case "s9" => Some(25) case "s10" => Some(26)
    case "s11" => Some(27) case "t3" => Some(28) case "t4" => Some(29) case "t5" => Some(30)
    case "t6" => Some(31)
    case _ => None
  }

  /** The named CSRs of the single-pass assembler. */
  function CsrAddress(name: string): Option<nat> {
    match name
    case "mstatus" => Some(0x300)
    case "mie" => Some(0x304)
    case "mtvec" => Some(0x305)
    case "mepc" => Some(0x341)
    case "mcause" => Some(0x342)
    case "mtval" => Some(0x343)
    case "mip" => Some(0x344)
    case "cycle" => Some(0xC00)
    case "time" => Some(0xC01)
    case "instret" => Some(0xC02)
    case "cycleh" => Some(0xC80)
    case "timeh" => Some(0xC81)
    case "instreth" => Some(0xC82)
    case _ => None
  }
}
