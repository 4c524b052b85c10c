/**
 * The OR chains the assemblers build words with, in the order the
 * Python expressions OR them, and what they come to when the fields fit:
 * the sum of the shifted fields, from which each field reads back.
 */
module Layouts {
  import opened Bits

  /** `(a << 25) | (b << 20) | (c << 15) | (f3 << 12) | (d << 7) | op`: the R-type layout, which S-type shares. */
  function RLayout(a: int, b: int, c: int, f3: int, d: int, op: int): int {
    BitOr(BitOr(BitOr(BitOr(BitOr(Shl(a, 25), Shl(b, 20)), Shl(c, 15)), Shl(f3, 12)), Shl(d, 7)), op)
  }

  /** `(hi << 20) | (c << 15) | (f3 << 12) | (d << 7) | op`: the I-type layout, which the CSR encoders share. */
  function ILayout(hi: int, c: int, f3: int, d: int, op: int): int {
    BitOr(BitOr(BitOr(BitOr(Shl(hi, 20), Shl(c, 15)), Shl(f3, 12)), Shl(d, 7)), op)
  }

  /** `(b20 << 31) | (b19_12 << 12) | (b11 << 20) | (b10_1 << 21) | (d << 7) | op`: the J-type layout. */
  function JLayout(b20: int, b19_12: int, b11: int, b10_1: int, d: int, op: int): int {
    BitOr(BitOr(BitOr(BitOr(BitOr(Shl(b20, 31), Shl(b19_12, 12)), Shl(b11, 20)), Shl(b10_1, 21)), Shl(d, 7)), op)
  }

  /**
   * `(b12 << 31) | (b10_5 << 25) | (rs2 << 20) | (rs1 << 15) | (f3 << 12)
   * | (b4_1 << 8) | (b11 << 7) | op`: the B-type layout of the two-pass
   * assembler, imm[11] in bit 7.
   */
  function BranchLayout(b12: int, b10_5: int, rs2: int, rs1: int, f3: int, b4_1: int, b11: int, op: int): int {
    BitOr(BitOr(BitOr(BitOr(BitOr(BitOr(BitOr(Shl(b12, 31), Shl(b10_5, 25)), Shl(rs2, 20)), Shl(rs1, 15)),
      Shl(f3, 12)), Shl(b4_1, 8)), Shl(b11, 7)), op)
  }

  /**
   * Any fields that fit their slots give an R layout that fits in 32 bits,
   * even when b is 12 bits wide and overlaps a (as it does in `enc_i`).
   */
  lemma RLayoutBound(a: nat, b: nat, c: nat, f3: nat, d: nat, op: nat)
    requires a < 128 && b < 4096 && c < 32 && f3 < 8 && d < 32 && op < 128
    ensures 0 <= RLayout(a, b, c, f3, d, op) < 0x1_0000_0000
  {
    Pow2Table();
    OrBound(Shl(a, 25), Shl(b, 20), 32);
    var s1 := BitOr(Shl(a, 25), Shl(b, 20));
    OrBound(s1, Shl(c, 15), 32);
    var s2 := BitOr(s1, Shl(c, 15));
    OrBound(s2, Shl(f3, 12), 32);
    var s3 := BitOr(s2, Shl(f3, 12));
    OrBound(s3, Shl(d, 7), 32);
    var s4 := BitOr(s3, Shl(d, 7));
    OrBound(s4, op, 32);
  }

  /** The two-pass B layout ORs fields that do not overlap, so it is their sum. */
  lemma BranchLayoutSum(b12: nat, b10_5: nat, rs2: nat, rs1: nat, f3: nat, b4_1: nat, b11: nat, op: nat)
    requires b12 < 2 && b10_5 < 64 && rs2 < 32 && rs1 < 32 && f3 < 8 && b4_1 < 16 && b11 < 2 && op < 128
    ensures BranchLayout(b12, b10_5, rs2, rs1, f3, b4_1, b11, op)
      == b12 * 0x8000_0000 + b10_5 * 0x200_0000 + rs2 * 0x10_0000 + rs1 * 0x8000 + f3 * 0x1000
         + b4_1 * 0x100 + b11 * 0x80 + op
  {
    Pow2Table();
    var s1 := BitOr(Shl(b12, 31), Shl(b10_5, 25));
    OrAbove(Shl(b12, 31), Shl(b10_5, 25), b12, 31, 0x8000_0000);
    var s2 := BitOr(s1, Shl(rs2, 20));
    OrAbove(s1, Shl(rs2, 20), b12 * 64 + b10_5, 25, 0x200_0000);
    var s3 := BitOr(s2, Shl(rs1, 15));
    OrAbove(s2, Shl(rs1, 15), b12 * 0x800 + b10_5 * 32 + rs2, 20, 0x10_0000);
    var s4 := BitOr(s3, Shl(f3, 12));
    OrAbove(s3, Shl(f3, 12), b12 * 0x1_0000 + b10_5 * 0x400 + rs2 * 32 + rs1, 15, 0x8000);
    var s5 := BitOr(s4, Shl(b4_1, 8));
    OrAbove(s4, Shl(b4_1, 8), b12 * 0x8_0000 + b10_5 * 0x2000 + rs2 * 0x100 + rs1 * 8 + f3, 12, 0x1000);
    var s6 := BitOr(s5, Shl(b11, 7));
    OrAbove(s5, Shl(b11, 7), b12 * 0x80_0000 + b10_5 * 0x2_0000 + rs2 * 0x1000 + rs1 * 0x80 + f3 * 0x10 + b4_1,
      8, 0x100);
    OrAbove(s6, op, b12 * 0x100_0000 + b10_5 * 0x4_0000 + rs2 * 0x2000 + rs1 * 0x100 + f3 * 0x20 + b4_1 * 2 + b11,
      7, 0x80);
  }

  /** The R layout ORs fields that do not overlap, so it is their sum. */
  lemma RLayoutSum(a: int, b: int, c: int, f3: int, d: int, op: int)
    requires 0 <= b < 32 && 0 <= c < 32 && 0 <= f3 < 8 && 0 <= d < 32 && 0 <= op < 128
    ensures RLayout(a, b, c, f3, d, op)
      == a * 0x200_0000 + b * 0x10_0000 + c * 0x8000 + f3 * 0x1000 + d * 0x80 + op
  {
    Pow2Table();
    var s1 := BitOr(Shl(a, 25), Shl(b, 20));
    OrAbove(Shl(a, 25), Shl(b, 20), a, 25, 0x200_0000);
    var s2 := BitOr(s1, Shl(c, 15));
    OrAbove(s1, Shl(c, 15), a * 32 + b, 20, 0x10_0000);
    var s3 := BitOr(s2, Shl(f3, 12));
    OrAbove(s2, Shl(f3, 12), a * 1024 + b * 32 + c, 15, 0x8000);
    var s4 := BitOr(s3, Shl(d, 7));
    OrAbove(s3, Shl(d, 7), a * 8192 + b * 256 + c * 8 + f3, 12, 0x1000);
    OrAbove(s4, op, a * 0x4_0000 + b * 0x2000 + c * 0x100 + f3 * 0x20 + d, 7, 0x80);
  }

  /** The I layout ORs fields that do not overlap, so it is their sum. */
  lemma ILayoutSum(hi: int, c: int, f3: int, d: int, op: int)
    requires 0 <= c < 32 && 0 <= f3 < 8 && 0 <= d < 32 && 0 <= op < 128
    ensures ILayout(hi, c, f3, d, op) == hi * 0x10_0000 + c * 0x8000 + f3 * 0x1000 + d * 0x80 + op
  {
    Pow2Table();
    var s1 := BitOr(Shl(hi, 20), Shl(c, 15));
    OrAbove(Shl(hi, 20), Shl(c, 15), hi, 20, 0x10_0000);
    var s2 := BitOr(s1, Shl(f3, 12));
    OrAbove(s1, Shl(f3, 12), hi * 32 + c, 15, 0x8000);
    var s3 := BitOr(s2, Shl(d, 7));
    OrAbove(s2, Shl(d, 7), hi * 256 + c * 8 + f3, 12, 0x1000);
    OrAbove(s3, op, hi * 0x2000 + c * 0x100 + f3 * 0x20 + d, 7, 0x80);
  }

  /**
   * The J layout ORs its fields out of positional order, but they do not
   * overlap, so it is still their sum.
   */
  lemma JLayoutSum(b20: nat, b19_12: nat, b11: nat, b10_1: nat, d: nat, op: nat)
    requires b20 < 2 && b19_12 < 256 && b11 < 2 && b10_1 < 1024 && d < 32 && op < 128
    ensures JLayout(b20, b19_12, b11, b10_1, d, op)
      == b20 * 0x8000_0000 + b10_1 * 0x20_0000 + b11 * 0x10_0000 + b19_12 * 0x1000 + d * 0x80 + op
  {
    Pow2Table();
    var s1 := BitOr(Shl(b20, 31), Shl(b19_12, 12));
    OrAbove(Shl(b20, 31), Shl(b19_12, 12), b20, 31, 0x8000_0000);
    var s2 := BitOr(s1, Shl(b11, 20));
    OrBetween(s1, Shl(b11, 20), b20, b19_12 * 0x1000, b11, 20, 11, 0x10_0000, 0x800);
    var s3 := BitOr(s2, Shl(b10_1, 21));
    OrBetween(s2, Shl(b10_1, 21), b20, b11 * 0x10_0000 + b19_12 * 0x1000, b10_1, 21, 10, 0x20_0000, 0x400);
    var s4 := BitOr(s3, Shl(d, 7));
    OrAbove(s3, Shl(d, 7), b20 * 0x8_0000 + b10_1 * 0x200 + b11 * 0x100 + b19_12, 12, 0x1000);
    OrAbove(s4, op, b20 * 0x100_0000 + b10_1 * 0x4000 + b11 * 0x2000 + b19_12 * 0x20 + d, 7, 0x80);
  }

  // ---------------------------------------------------------------------
  // Reading the fields back

  /** Every field of an R-layout sum reads back, and the word fits in 32 bits. */
  lemma RSumFields(a: nat, b: nat, c: nat, f3: nat, d: nat, op: nat)
    requires a < 128 && b < 32 && c < 32 && f3 < 8 && d < 32 && op < 128
    ensures var w := a * 0x200_0000 + b * 0x10_0000 + c * 0x8000 + f3 * 0x1000 + d * 0x80 + op;
      w < 0x1_0000_0000 && Field(w, 0, 7) == op && Field(w, 7, 5) == d && Field(w, 12, 3) == f3
      && Field(w, 15, 5) == c && Field(w, 20, 5) == b && Field(w, 25, 7) == a
  {
    Pow2Table();
    var w := a * 0x200_0000 + b * 0x10_0000 + c * 0x8000 + f3 * 0x1000 + d * 0x80 + op;
    FieldAt(w, a * 0x4_0000 + b * 0x2000 + c * 0x100 + f3 * 0x20 + d, op, 0, 0, 7, 1, 0x80);
    FieldAt(w, a * 0x2000 + b * 0x100 + c * 8 + f3, d, op, 7, 5, 0x80, 0x20);
    FieldAt(w, a * 0x400 + b * 0x20 + c, f3, d * 0x80 + op, 12, 3, 0x1000, 8);
    FieldAt(w, a * 0x20 + b, c, f3 * 0x1000 + d * 0x80 + op, 15, 5, 0x8000, 0x20);
    FieldAt(w, a, b, c * 0x8000 + f3 * 0x1000 + d * 0x80 + op, 20, 5, 0x10_0000, 0x20);
    FieldAt(w, 0, a, b * 0x10_0000 + c * 0x8000 + f3 * 0x1000 + d * 0x80 + op, 25, 7, 0x200_0000, 0x80);
  }

  /** Every field of an I-layout sum reads back, and the word fits in 32 bits. */
  lemma ISumFields(hi: nat, c: nat, f3: nat, d: nat, op: nat)
    requires hi < 4096 && c < 32 && f3 < 8 && d < 32 && op < 128
    ensures var w := hi * 0x10_0000 + c * 0x8000 + f3 * 0x1000 + d * 0x80 + op;
      w < 0x1_0000_0000 && Field(w, 0, 7) == op && Field(w, 7, 5) == d && Field(w, 12, 3) == f3
      && Field(w, 15, 5) == c && Field(w, 20, 12) == hi
  {
    Pow2Table();
    var w := hi * 0x10_0000 + c * 0x8000 + f3 * 0x1000 + d * 0x80 + op;
    FieldAt(w, hi * 0x2000 + c * 0x100 + f3 * 0x20 + d, op, 0, 0, 7, 1, 0x80);
    FieldAt(w, hi * 0x100 + c * 8 + f3, d, op, 7, 5, 0x80, 0x20);
    FieldAt(w, hi * 0x20 + c, f3, d * 0x80 + op, 12, 3, 0x1000, 8);
    FieldAt(w, hi, c, f3 * 0x1000 + d * 0x80 + op, 15, 5, 0x8000, 0x20);
    FieldAt(w, 0, hi, c * 0x8000 + f3 * 0x1000 + d * 0x80 + op, 20, 12, 0x10_0000, 0x1000);
  }

  /** Every field of a J-layout sum reads back, and the word fits in 32 bits. */
  lemma JSumFields(b20: nat, b19_12: nat, b11: nat, b10_1: nat, d: nat, op: nat)
    requires b20 < 2 && b19_12 < 256 && b11 < 2 && b10_1 < 1024 && d < 32 && op < 128
    ensures var w := b20 * 0x8000_0000 + b10_1 * 0x20_0000 + b11 * 0x10_0000 + b19_12 * 0x1000 + d * 0x80 + op;
      w < 0x1_0000_0000 && Field(w, 0, 7) == op && Field(w, 7, 5) == d && Field(w, 12, 8) == b19_12
      && Field(w, 20, 1) == b11 && Field(w, 21, 10) == b10_1 && Field(w, 31, 1) == b20
  {
    Pow2Table();
    var w := b20 * 0x8000_0000 + b10_1 * 0x20_0000 + b11 * 0x10_0000 + b19_12 * 0x1000 + d * 0x80 + op;
    FieldAt(w, b20 * 0x100_0000 + b10_1 * 0x4000 + b11 * 0x2000 + b19_12 * 0x20 + d, op, 0, 0, 7, 1, 0x80);
    FieldAt(w, b20 * 0x8_0000 + b10_1 * 0x200 + b11 * 0x100 + b19_12, d, op, 7, 5, 0x80, 0x20);
    FieldAt(w, b20 * 0x800 + b10_1 * 2 + b11, b19_12, d * 0x80 + op, 12, 8, 0x1000, 0x100);
    FieldAt(w, b20 * 0x400 + b10_1, b11, b19_12 * 0x1000 + d * 0x80 + op, 20, 1, 0x10_0000, 2);
    FieldAt(w, b20, b10_1, b11 * 0x10_0000 + b19_12 * 0x1000 + d * 0x80 + op, 21, 10, 0x20_0000, 0x400);
    FieldAt(w, 0, b20, b10_1 * 0x20_0000 + b11 * 0x10_0000 + b19_12 * 0x1000 + d * 0x80 + op, 31, 1, 0x8000_0000, 2);
  }

  /** Every field of a two-pass B-layout sum reads back, and the word fits in 32 bits. */
  lemma BranchSumFields(b12: nat, b10_5: nat, rs2: nat, rs1: nat, f3: nat, b4_1: nat, b11: nat, op: nat)
    requires b12 < 2 && b10_5 < 64 && rs2 < 32 && rs1 < 32 && f3 < 8 && b4_1 < 16 && b11 < 2 && op < 128
    ensures var w := b12 * 0x8000_0000 + b10_5 * 0x200_0000 + rs2 * 0x10_0000 + rs1 * 0x8000 + f3 * 0x1000
      + b4_1 * 0x100 + b11 * 0x80 + op;
      w < 0x1_0000_0000 && Field(w, 0, 7) == op && Field(w, 7, 1) == b11 && Field(w, 8, 4) == b4_1
      && Field(w, 12, 3) == f3 && Field(w, 15, 5) == rs1 && Field(w, 20, 5) == rs2
      && Field(w, 25, 6) == b10_5 && Field(w, 31, 1) == b12
  {
    Pow2Table();
    var w := b12 * 0x8000_0000 + b10_5 * 0x200_0000 + rs2 * 0x10_0000 + rs1 * 0x8000 + f3 * 0x1000
      + b4_1 * 0x100 + b11 * 0x80 + op;
    var lo7 := b4_1 * 0x100 + b11 * 0x80 + op;
    var lo15 := f3 * 0x1000 + lo7;
    var lo20 := rs1 * 0x8000 + lo15;
    FieldAt(w, b12 * 0x100_0000 + b10_5 * 0x4_0000 + rs2 * 0x2000 + rs1 * 0x100 + f3 * 0x20 + b4_1 * 2 + b11,
      op, 0, 0, 7, 1, 0x80);
    FieldAt(w, b12 * 0x80_0000 + b10_5 * 0x2_0000 + rs2 * 0x1000 + rs1 * 0x80 + f3 * 0x10 + b4_1, b11, op,
      7, 1, 0x80, 2);
    FieldAt(w, b12 * 0x8_0000 + b10_5 * 0x2000 + rs2 * 0x100 + rs1 * 8 + f3, b4_1, b11 * 0x80 + op,
      8, 4, 0x100, 0x10);
    FieldAt(w, b12 * 0x1_0000 + b10_5 * 0x400 + rs2 * 32 + rs1, f3, lo7, 12, 3, 0x1000, 8);
    FieldAt(w, b12 * 0x800 + b10_5 * 32 + rs2, rs1, lo15, 15, 5, 0x8000, 0x20);
    FieldAt(w, b12 * 64 + b10_5, rs2, lo20, 20, 5, 0x10_0000, 0x20);
    FieldAt(w, b12, b10_5, rs2 * 0x10_0000 + lo20, 25, 6, 0x200_0000, 0x40);
    FieldAt(w, 0, b12, b10_5 * 0x200_0000 + rs2 * 0x10_0000 + lo20, 31, 1, 0x8000_0000, 2);
  }

  /** An R-layout word with fields that fit is a 32-bit word whose fields read back. */
  lemma RWord(a: nat, b: nat, c: nat, f3: nat, d: nat, op: nat)
    requires a < 128 && b < 32 && c < 32 && f3 < 8 && d < 32 && op < 128
    ensures var w := RLayout(a, b, c, f3, d, op);
      0 <= w < 0x1_0000_0000 && Field(w, 0, 7) == op && Field(w, 7, 5) == d && Field(w, 12, 3) == f3
      && Field(w, 15, 5) == c && Field(w, 20, 5) == b && Field(w, 25, 7) == a
  {
    RLayoutSum(a, b, c, f3, d, op);
    RSumFields(a, b, c, f3, d, op);
  }

  /** An I-layout word with fields that fit is a 32-bit word whose fields read back. */
  lemma IWord(hi: nat, c: nat, f3: nat, d: nat, op: nat)
    requires hi < 4096 && c < 32 && f3 < 8 && d < 32 && op < 128
    ensures var w := ILayout(hi, c, f3, d, op);
      0 <= w < 0x1_0000_0000 && Field(w, 0, 7) == op && Field(w, 7, 5) == d && Field(w, 12, 3) == f3
      && Field(w, 15, 5) == c && Field(w, 20, 12) == hi
  {
    ILayoutSum(hi, c, f3, d, op);
    ISumFields(hi, c, f3, d, op);
  }

  /** A J-layout word with fields that fit is a 32-bit word whose fields read back. */
  lemma JWord(b20: nat, b19_12: nat, b11: nat, b10_1: nat, d: nat, op: nat)
    requires b20 < 2 && b19_12 < 256 && b11 < 2 && b10_1 < 1024 && d < 32 && op < 128
    ensures var w := JLayout(b20, b19_12, b11, b10_1, d, op);
      0 <= w < 0x1_0000_0000 && Field(w, 0, 7) == op && Field(w, 7, 5) == d && Field(w, 12, 8) == b19_12
      && Field(w, 20, 1) == b11 && Field(w, 21, 10) == b10_1 && Field(w, 31, 1) == b20
  {
    JLayoutSum(b20, b19_12, b11, b10_1, d, op);
    JSumFields(b20, b19_12, b11, b10_1, d, op);
  }

  /** A two-pass B layout with fields that fit is a 32-bit word whose fields read back. */
  lemma BranchWord(b12: nat, b10_5: nat, rs2: nat, rs1: nat, f3: nat, b4_1: nat, b11: nat, op: nat)
    requires b12 < 2 && b10_5 < 64 && rs2 < 32 && rs1 < 32 && f3 < 8 && b4_1 < 16 && b11 < 2 && op < 128
    ensures var w := BranchLayout(b12, b10_5, rs2, rs1, f3, b4_1, b11, op);
      0 <= w < 0x1_0000_0000 && Field(w, 0, 7) == op && Field(w, 7, 1) == b11 && Field(w, 8, 4) == b4_1
      && Field(w, 12, 3) == f3 && Field(w, 15, 5) == rs1 && Field(w, 20, 5) == rs2
      && Field(w, 25, 6) == b10_5 && Field(w, 31, 1) == b12
  {
    BranchLayoutSum(b12, b10_5, rs2, rs1, f3, b4_1, b11, op);
    BranchSumFields(b12, b10_5, rs2, rs1, f3, b4_1, b11, op);
  }
}
