/**
 * The RV32I base instruction formats read back from a 32-bit word, as
 * chapter 2 ("RV32I Base Integer Instruction Set") of the RISC-V
 * unprivileged specification lays them out: the register and function
 * fields, and the sign-extended I, S, B, U and J immediates. Both
 * assemblers' encoders are proved against these readings.
 */
module Decode {
  import opened Bits

  /** The value of a k-bit two's complement field v. */
  function Signed(v: nat, k: nat): int
    requires k >= 1
  {
    if v >= Pow2(k - 1) then v - Pow2(k) else v
  }

  function OpcodeOf(w: int): nat { Field(w, 0, 7) }
  function RdOf(w: int): nat { Field(w, 7, 5) }
  function Funct3Of(w: int): nat { Field(w, 12, 3) }
  function Rs1Of(w: int): nat { Field(w, 15, 5) }
  function Rs2Of(w: int): nat { Field(w, 20, 5) }
  function Funct7Of(w: int): nat { Field(w, 25, 7) }

  /** imm[11:0] = inst[31:20]. */
  function IImmediate(w: int): int {
    Signed(Field(w, 20, 12), 12)
  }

  /** imm[11:5] = inst[31:25], imm[4:0] = inst[11:7]. */
  function SImmediate(w: int): int {
    Signed(Field(w, 25, 7) * 32 + Field(w, 7, 5), 12)
  }

  /** imm[12] = inst[31], imm[11] = inst[7], imm[10:5] = inst[30:25], imm[4:1] = inst[11:8], imm[0] = 0. */
  function BImmediate(w: int): int {
    Signed(Field(w, 31, 1) * 4096 + Field(w, 7, 1) * 2048 + Field(w, 25, 6) * 32 + Field(w, 8, 4) * 2, 13)
  }

  /** The 20-bit upper immediate inst[31:12]. */
  function UField(w: int): nat {
    Field(w, 12, 20)
  }

  /** imm[20] = inst[31], imm[19:12] = inst[19:12], imm[11] = inst[20], imm[10:1] = inst[30:21], imm[0] = 0. */
  function JImmediate(w: int): int {
    Signed(Field(w, 31, 1) * 0x10_0000 + Field(w, 12, 8) * 0x1000 + Field(w, 20, 1) * 0x800 + Field(w, 21, 10) * 2, 21)
  }

  /** Reading the k low bits of a value in the k-bit signed range back as signed gives the value. */
  lemma SignedLow(imm: int, k: nat)
    requires k >= 1 && -(Pow2(k - 1) as int) <= imm < Pow2(k - 1)
    ensures Signed(Low(imm, k), k) == imm
  {
    var p := Pow2(k);
    assert p == 2 * Pow2(k - 1);
    if imm < 0 {
      DivModPlace(-1, imm + p, p);
    } else {
      DivModPlace(0, imm, p);
    }
  }

  /** An even value below 2^13 is the sum of the B-type immediate fields. */
  lemma BParts(v: nat)
    requires v < 0x2000 && v % 2 == 0
    ensures v == Field(v, 12, 1) * 4096 + Field(v, 11, 1) * 2048 + Field(v, 5, 6) * 32 + Field(v, 1, 4) * 2
  {
    Pow2Table();
    FieldSplit(v, 12, 1);
    FieldSplit(v, 11, 1);
    FieldSplit(v, 5, 6);
    FieldSplit(v, 1, 4);
    ModSmall(v, Pow2(13));
  }

  /** An even value below 2^21 is the sum of the J-type immediate fields. */
  lemma JParts(v: nat)
    requires v < 0x20_0000 && v % 2 == 0
    ensures v == Field(v, 20, 1) * 0x10_0000 + Field(v, 12, 8) * 0x1000 + Field(v, 11, 1) * 0x800 + Field(v, 1, 10) * 2
  {
    Pow2Table();
    FieldSplit(v, 20, 1);
    FieldSplit(v, 12, 8);
    FieldSplit(v, 11, 1);
    FieldSplit(v, 1, 10);
    ModSmall(v, Pow2(21));
  }
}
