/**
 * Python's integer bit operations on unbounded integers: shifts, masks,
 * field extraction, and `|` / `^` exactly as Python evaluates them
 * (two's complement of infinite width).
 */
module Bits {

  /** 2 to the power k. */
  function Pow2(k: nat): (r: nat)
    ensures r >= 1
  {
    if k == 0 then 1 else 2 * Pow2(k - 1)
  }

  /** Python's `x << k`. */
  function Shl(x: int, k: nat): int {
    x * Pow2(k)
  }

  /** Python's `x >> k`, which rounds towards minus infinity (as Dafny's `/` does for a positive divisor). */
  function Shr(x: int, k: nat): int {
    x / Pow2(k)
  }

  /** Python's `x & (2**k - 1)`: the k low bits of x, also for negative x. */
  function Low(x: int, k: nat): (r: nat)
    ensures r < Pow2(k)
  {
    x % Pow2(k)
  }

  /** Bits [lo + width - 1 : lo] of w, that is `(w >> lo) & (2**width - 1)`. */
  function Field(w: int, lo: nat, width: nat): (r: nat)
    ensures r < Pow2(width)
  {
    Low(Shr(w, lo), width)
  }

  function Abs(x: int): nat {
    if x < 0 then -x else x
  }

  /** Python's `a | b` on integers of any sign. */
  function BitOr(a: int, b: int): int
    decreases Abs(a) + Abs(b)
  {
    if a == 0 then b
    else if b == 0 then a
    else if a == -1 || b == -1 then -1
    else 2 * BitOr(a / 2, b / 2) + (if a % 2 == 1 || b % 2 == 1 then 1 else 0)
  }

  /** Python's `a ^ b` on non-negative integers. */
  function BitXor(a: nat, b: nat): nat
    decreases a + b
  {
    if a == 0 then b
    else if b == 0 then a
    else 2 * BitXor(a / 2, b / 2) + (if a % 2 == b % 2 then 0 else 1)
  }

  // ---------------------------------------------------------------------
  // Division by a power of two

  /** Splitting hi * p + lo by p gives back hi and lo. */
  lemma DivModPlace(hi: int, lo: int, p: int)
    requires p > 0 && 0 <= lo < p
    ensures (hi * p + lo) / p == hi
    ensures (hi * p + lo) % p == lo
  {
    var q, r := (hi * p + lo) / p, (hi * p + lo) % p;
    assert (q - hi) * p == lo - r by {
      assert q * p + r == hi * p + lo;
      MulSub(q, hi, p);
    }
    if q > hi {
      MulAtLeast(q - hi, p);
    } else if q < hi {
      MulAtLeast(hi - q, p);
      MulSub(hi, q, p);
    }
  }

  lemma MulSub(a: int, b: int, p: int)
    ensures (a - b) * p == a * p - b * p
  {
  }

  lemma DivModSplit(n: nat, b: nat)
    requires b > 0
    ensures n == (n / b) * b + n % b && 0 <= n % b < b && n / b >= 0
  {
  }

  lemma ModSmall(n: nat, b: nat)
    requires n < b
    ensures n % b == n && n / b == 0
  {
  }

  lemma DivShrinks(n: nat, b: nat)
    requires b >= 2 && n >= 1
    ensures n / b < n
  {
    var q, r := n / b, n % b;
    assert n == b * q + r;
    assert b * q == 2 * q + (b - 2) * q;
    assert (b - 2) * q >= 0;
  }

  lemma MulAtLeast(d: int, p: int)
    requires d >= 1 && p > 0
    ensures d * p >= p
  {
    assert d * p == (d - 1) * p + p;
    assert (d - 1) * p >= 0;
  }

  /**
   * The field of `width` bits at position `lo` of (h * 2^width + f) * 2^lo + l
   * is f, when f and l fit their widths.
   */
  lemma FieldOf(h: int, f: int, l: int, lo: nat, width: nat)
    requires 0 <= f < Pow2(width) && 0 <= l < Pow2(lo)
    ensures Field((h * Pow2(width) + f) * Pow2(lo) + l, lo, width) == f
  {
    DivModPlace(h * Pow2(width) + f, l, Pow2(lo));
    DivModPlace(h, f, Pow2(width));
  }

  /** The k + w low bits of v are its field of w bits at k above its k low bits. */
  lemma FieldSplit(v: int, k: nat, w: nat)
    ensures Low(v, k + w) == Field(v, k, w) * Pow2(k) + Low(v, k)
  {
    Pow2Add(k, w);
    ModProduct(v, Pow2(k), Pow2(w));
  }

  /** The remainder by a * b, read in base a. */
  lemma ModProduct(v: int, a: int, b: int)
    requires a > 0 && b > 0
    ensures v % (a * b) == (v / a % b) * a + v % a
    ensures v / (a * b) == v / a / b
  {
    var q, r := v / a, v % a;
    var q2, r2 := q / b, q % b;
    var low := r2 * a + r;
    assert low < a * b by {
      MulSub(b - 1, r2, a);
      MulAtLeastZero(b - 1 - r2, a);
      MulSub(b, 1, a);
    }
    assert v == q2 * (a * b) + low by {
      assert v == q * a + r;
      assert q * a == (q2 * b) * a + r2 * a;
    }
    MulAtLeastZero(r2, a);
    DivModPlace(q2, low, a * b);
  }

  /** A field of a + b bits splits into its a low bits and the b bits above them. */
  lemma FieldPieces(t: int, lo: nat, a: nat, b: nat)
    ensures Field(t, lo, a + b) / Pow2(a) == Field(t, lo + a, b)
    ensures Field(t, lo, a + b) % Pow2(a) == Field(t, lo, a)
  {
    var v := Shr(t, lo);
    FieldSplit(v, a, b);
    DivModPlace(Field(v, a, b), Low(v, a), Pow2(a));
    Pow2Add(lo, a);
    ModProduct(t, Pow2(lo), Pow2(a));
  }

  lemma MulAtLeastZero(d: int, p: int)
    requires d >= 0 && p >= 0
    ensures d * p >= 0
  {
  }

  /** The powers of two used by the 32-bit instruction layouts. */
  lemma Pow2Table()
    ensures Pow2(0) == 1 && Pow2(1) == 2 && Pow2(2) == 4 && Pow2(3) == 8
    ensures Pow2(4) == 16 && Pow2(5) == 32 && Pow2(6) == 64 && Pow2(7) == 128
    ensures Pow2(8) == 256 && Pow2(9) == 512 && Pow2(10) == 1024 && Pow2(11) == 2048
    ensures Pow2(12) == 4096 && Pow2(13) == 8192 && Pow2(14) == 16384 && Pow2(15) == 32768
    ensures Pow2(16) == 65536 && Pow2(17) == 131072 && Pow2(18) == 262144 && Pow2(19) == 524288
    ensures Pow2(20) == 1048576 && Pow2(21) == 2097152 && Pow2(22) == 4194304 && Pow2(23) == 8388608
    ensures Pow2(24) == 16777216 && Pow2(25) == 33554432 && Pow2(26) == 67108864 && Pow2(27) == 134217728
    ensures Pow2(28) == 268435456 && Pow2(29) == 536870912 && Pow2(30) == 1073741824 && Pow2(31) == 2147483648
    ensures Pow2(32) == 4294967296
  {
    assert Pow2(1) == 2 * Pow2(0);
    assert Pow2(2) == 2 * Pow2(1);
    assert Pow2(3) == 2 * Pow2(2);
    assert Pow2(4) == 2 * Pow2(3);
    assert Pow2(5) == 2 * Pow2(4);
    assert Pow2(6) == 2 * Pow2(5);
    assert Pow2(7) == 2 * Pow2(6);
    assert Pow2(8) == 2 * Pow2(7);
    assert Pow2(9) == 2 * Pow2(8);
    assert Pow2(10) == 2 * Pow2(9);
    assert Pow2(11) == 2 * Pow2(10);
    assert Pow2(12) == 2 * Pow2(11);
    assert Pow2(13) == 2 * Pow2(12);
    assert Pow2(14) == 2 * Pow2(13);
    assert Pow2(15) == 2 * Pow2(14);
    assert Pow2(16) == 2 * Pow2(15);
    assert Pow2(17) == 2 * Pow2(16);
    assert Pow2(18) == 2 * Pow2(17);
    assert Pow2(19) == 2 * Pow2(18);
    assert Pow2(20) == 2 * Pow2(19);
    assert Pow2(21) == 2 * Pow2(20);
    assert Pow2(22) == 2 * Pow2(21);
    assert Pow2(23) == 2 * Pow2(22);
    assert Pow2(24) == 2 * Pow2(23);
    assert Pow2(25) == 2 * Pow2(24);
    assert Pow2(26) == 2 * Pow2(25);
    assert Pow2(27) == 2 * Pow2(26);
    assert Pow2(28) == 2 * Pow2(27);
    assert Pow2(29) == 2 * Pow2(28);
    assert Pow2(30) == 2 * Pow2(29);
    assert Pow2(31) == 2 * Pow2(30);
    assert Pow2(32) == 2 * Pow2(31);
  }

  lemma Pow2Add(a: nat, b: nat)
    ensures Pow2(a + b) == Pow2(a) * Pow2(b)
  {
    if a > 0 {
      Pow2Add(a - 1, b);
    }
  }

  // ---------------------------------------------------------------------
  // OR of fields that do not overlap

  /**
   * OR-ing a value below 2^k into a multiple of 2^k is addition, whatever
   * the sign of the high part.
   */
  lemma {:induction false} OrPlace(hi: int, lo: int, k: nat)
    requires 0 <= lo < Pow2(k)
    ensures BitOr(hi * Pow2(k), lo) == hi * Pow2(k) + lo
  {
    if k > 0 && hi != 0 && lo != 0 {
      var a := hi * Pow2(k);
      assert a == 2 * (hi * Pow2(k - 1));
      OrPlace(hi, lo / 2, k - 1);
    }
  }

  /** OR of two non-negative values works independently above and below bit k. */
  lemma {:induction false} OrConcat(a: nat, x: nat, b: nat, y: nat, k: nat)
    requires x < Pow2(k) && y < Pow2(k)
    ensures BitOr(a * Pow2(k) + x, b * Pow2(k) + y) == BitOr(a, b) * Pow2(k) + BitOr(x, y)
  {
    if k > 0 {
      HalveConcat(a, x, k);
      OrConcat(a, x / 2, b, y / 2, k - 1);
      OrConcatStep(a, x, b, y, k);
    } else {
      assert Pow2(k) == 1 && x == 0 && y == 0;
      assert BitOr(0, 0) == 0;
    }
  }

  /** One bit of `OrConcat`: the claim for k follows from the claim for k - 1 on the halves. */
  lemma OrConcatStep(a: nat, x: nat, b: nat, y: nat, k: nat)
    requires k > 0 && x < Pow2(k) && y < Pow2(k)
    requires BitOr(a * Pow2(k - 1) + x / 2, b * Pow2(k - 1) + y / 2) == BitOr(a, b) * Pow2(k - 1) + BitOr(x / 2, y / 2)
    ensures BitOr(a * Pow2(k) + x, b * Pow2(k) + y) == BitOr(a, b) * Pow2(k) + BitOr(x, y)
  {
    var p := Pow2(k - 1);
    var A, B := a * Pow2(k) + x, b * Pow2(k) + y;
    var o, low := BitOr(a, b), BitOr(x / 2, y / 2);
    var bit := if x % 2 == 1 || y % 2 == 1 then 1 else 0;
    HalveConcat(a, x, k);
    HalveConcat(b, y, k);
    MulNat(a, Pow2(k));
    MulNat(b, Pow2(k));
    OrHalves(A, B);
    OrHalves(x, y);
    MulDouble(o, p);
    assert Pow2(k) == 2 * p;
    OrLinear(BitOr(A, B), BitOr(A / 2, B / 2), BitOr(x, y), low, o * p, o * Pow2(k), bit);
  }

  /** The linear step that closes `OrConcat`. */
  lemma OrLinear(ab: int, half: int, xy: int, low: int, op: int, opk: int, bit: int)
    requires ab == 2 * half + bit && half == op + low && xy == 2 * low + bit && opk == 2 * op
    ensures ab == opk + xy
  {
  }

  /** Python's `a | b` on non-negative values is twice the OR of the halves plus the OR of the low bits. */
  lemma OrHalves(a: nat, b: nat)
    ensures BitOr(a, b) == 2 * BitOr(a / 2, b / 2) + (if a % 2 == 1 || b % 2 == 1 then 1 else 0)
  {
    if a == 0 {
      assert BitOr(0, b / 2) == b / 2;
    } else if b == 0 {
      assert BitOr(a / 2, 0) == a / 2;
    }
  }

  /** Halving a * 2^k + x splits off the low bit of x. */
  lemma HalveConcat(a: int, x: nat, k: nat)
    requires k > 0 && x < Pow2(k)
    ensures (a * Pow2(k) + x) / 2 == a * Pow2(k - 1) + x / 2
    ensures (a * Pow2(k) + x) % 2 == x % 2
    ensures x / 2 < Pow2(k - 1)
  {
    assert a * Pow2(k) + x == (a * Pow2(k - 1) + x / 2) * 2 + x % 2;
    DivModPlace(a * Pow2(k - 1) + x / 2, x % 2, 2);
  }

  lemma MulNat(a: nat, b: nat)
    ensures a * b >= 0
  {
  }

  lemma MulDouble(o: int, p: int)
    ensures o * (2 * p) == 2 * (o * p)
  {
  }

  lemma MulZero(a: nat, p: nat)
    requires p > 0 && a * p == 0
    ensures a == 0
  {
    if a > 0 {
      MulAtLeast(a, p);
    }
  }

  /** OR-ing a value below 2^k into a multiple of 2^k (both written out) is addition. */
  lemma OrAbove(acc: int, lo: int, hi: int, k: nat, m: nat)
    requires m == Pow2(k) && acc == hi * m && 0 <= lo < m
    ensures BitOr(acc, lo) == acc + lo
  {
    OrPlace(hi, lo, k);
  }

  /** OrPlace with the power of two written as a literal m. */
  lemma OrLow(hi: int, lo: int, k: nat, m: nat)
    requires m == Pow2(k) && 0 <= lo < m
    ensures BitOr(hi * m, lo) == hi * m + lo
  {
    OrPlace(hi, lo, k);
  }

  /**
   * OR-ing a field f of w bits at position k into a value with bits above
   * k + w and below k (but none in between) puts f in between.
   */
  lemma OrInsert(h: nat, l: nat, f: nat, k: nat, w: nat, pk: nat, pw: nat)
    requires pk == Pow2(k) && pw == Pow2(w) && l < pk && f < pw
    ensures BitOr((h * pw) * pk + l, f * pk) == (h * pw + f) * pk + l
  {
    OrConcat(h * pw, l, f, 0, k);
    assert BitOr(l, 0) == l;
    OrPlace(h, f, w);
  }

  /** OrInsert with the value and the field written out. */
  lemma OrBetween(acc: int, f: int, h: nat, l: nat, g: nat, k: nat, w: nat, pk: nat, pw: nat)
    requires pk == Pow2(k) && pw == Pow2(w) && l < pk && g < pw
    requires acc == (h * pw) * pk + l && f == g * pk
    ensures BitOr(acc, f) == acc + f
  {
    OrInsert(h, l, g, k, w, pk, pw);
  }

  /**
   * OR of x = a * 2^k + lx and y = b * 2^k + ly works independently above
   * and below bit k.
   */
  lemma {:induction false} OrSplit(x: int, y: int, a: nat, lx: nat, b: nat, ly: nat, k: nat, m: nat)
    requires m == Pow2(k) && lx < m && ly < m && x == a * m + lx && y == b * m + ly
    ensures BitOr(x, y) == BitOr(a, b) * m + BitOr(lx, ly)
    decreases k
  {
    if k == 0 {
      assert x == a && y == b && lx == 0 && ly == 0;
    } else {
      var p := Pow2(k - 1);
      HalveSplit(x, a, lx, p, m);
      HalveSplit(y, b, ly, p, m);
      OrSplit(x / 2, y / 2, a, lx / 2, b, ly / 2, k - 1, p);
      OrHalves(x, y);
      OrHalves(lx, ly);
      MulDouble(BitOr(a, b), p);
    }
  }

  /** Halving x = a * 2p + lx halves lx and keeps its low bit. */
  lemma HalveSplit(x: int, a: nat, lx: nat, p: nat, m: nat)
    requires m == 2 * p && lx < m && x == a * m + lx
    ensures x >= 0 && x / 2 == a * p + lx / 2 && x % 2 == lx % 2 && lx / 2 < p
  {
    MulNat(a, m);
    assert x == (a * p + lx / 2) * 2 + lx % 2;
    DivModPlace(a * p + lx / 2, lx % 2, 2);
  }

  /** FieldOf with the value and the powers of two written out. */
  lemma FieldAt(w: int, h: int, f: int, l: int, lo: nat, width: nat, plo: nat, pw: nat)
    requires plo == Pow2(lo) && pw == Pow2(width) && 0 <= f < pw && 0 <= l < plo
    requires w == (h * pw + f) * plo + l
    ensures Field(w, lo, width) == f
  {
    var v := (h * Pow2(width) + f) * Pow2(lo) + l;
    FieldOf(h, f, l, lo, width);
    assert w == v;
  }

  /** OR-ing the single bit 2^k sets bit k and leaves the rest alone. */
  lemma {:induction false} OrBit(v: nat, k: nat)
    ensures BitOr(v, Pow2(k)) == if Field(v, k, 1) == 1 then v else v + Pow2(k)
  {
    if k == 0 {
      assert Field(v, 0, 1) == v % 2;
    } else {
      var p := Pow2(k - 1);
      OrHalves(v, Pow2(k));
      assert Pow2(k) / 2 == p && Pow2(k) % 2 == 0;
      OrBit(v / 2, k - 1);
      HalveDivMod(v, p);
      assert Field(v, k, 1) == Field(v / 2, k - 1, 1);
    }
  }

  /** OR of two values below 2^k is a value below 2^k. */
  lemma {:induction false} OrBound(x: nat, y: nat, k: nat)
    requires x < Pow2(k) && y < Pow2(k)
    ensures 0 <= BitOr(x, y) < Pow2(k)
  {
    if k > 0 && x != 0 && y != 0 {
      OrBound(x / 2, y / 2, k - 1);
    }
  }

  /** XOR with an all-ones mask of k bits flips the k low bits and keeps the rest. */
  lemma {:induction false} XorAllOnes(a: nat, k: nat)
    ensures BitXor(a, Pow2(k) - 1) == (a / Pow2(k)) * Pow2(k) + (Pow2(k) - 1 - a % Pow2(k))
  {
    if k > 0 && a != 0 {
      var p := Pow2(k - 1);
      var h, b := a / 2, a % 2;
      XorAllOnes(h, k - 1);
      DivModPlace(p - 1, 1, 2);
      var x := BitXor(h, p - 1);
      assert x == (h / p) * p + (p - 1 - h % p);
      assert BitXor(a, Pow2(k) - 1) == 2 * x + (1 - b);
      HalveDivMod(a, p);
      MulDouble(h / p, p);
      assert (a / Pow2(k)) * Pow2(k) == 2 * ((h / p) * p);
    } else if k == 0 {
      assert Pow2(k) == 1;
    } else {
      assert a / Pow2(k) == 0 && a % Pow2(k) == 0;
    }
  }

  /** Dividing by 2p is halving and then dividing by p. */
  lemma HalveDivMod(a: nat, p: nat)
    requires p > 0
    ensures a / (2 * p) == a / 2 / p
    ensures a % (2 * p) == 2 * (a / 2 % p) + a % 2
  {
    var q, r := a / 2 / p, a / 2 % p;
    assert a / 2 == q * p + r;
    MulDouble(q, p);
    assert a == q * (2 * p) + (2 * r + a % 2);
    DivModPlace(q, 2 * r + a % 2, 2 * p);
  }
}
