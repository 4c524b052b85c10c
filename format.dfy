/**
 * The output formats: Python's `format(code, '032b')` and `format(code, '08x')`,
 * the text file of one binary word per line and the Xilinx COE memory
 * initialisation file.
 */
module Format {
  import opened Bits

  /** The digit characters Python prints, in lower case. */
  function DigitChar(d: nat): char
    requires d < 16
  {
    "0123456789abcdef"[d]
  }

  function Power(base: nat, k: nat): (r: nat)
    ensures base >= 1 ==> r >= 1
  {
    if k == 0 then 1 else base * Power(base, k - 1)
  }

  /** The digits of n in `base`, most significant first, without leading zeros. */
  function Digits(n: nat, base: nat): (s: string)
    requires 2 <= base <= 16
    ensures |s| >= 1
  {
    if n < base then [DigitChar(n)] else Digits(n / base, base) + [DigitChar(n % base)]
  }

  /** The `0` fill of a format spec: left-pads s with '0' up to `width` characters. */
  function ZeroPad(s: string, width: nat): string {
    if |s| >= width then s else "0" + ZeroPad(s, width - 1)
  }

  /** Python's `format(code, '032b')`; a negative code keeps its sign in front. */
  function Binary032(code: int): string {
    if code >= 0 then ZeroPad(Digits(code, 2), 32) else "-" + ZeroPad(Digits(-code, 2), 31)
  }

  /** Python's `format(code, '08x')`. */
  function Hex08(code: int): string {
    if code >= 0 then ZeroPad(Digits(code, 16), 8) else "-" + ZeroPad(Digits(-code, 16), 7)
  }

  /** The k lowest digits of n in `base`, most significant first (a reference for the padded forms). */
  function Fixed(n: nat, base: nat, k: nat): (s: string)
    requires 2 <= base <= 16
    ensures |s| == k
  {
    if k == 0 then [] else Fixed(n / base, base, k - 1) + [DigitChar(n % base)]
  }

  // ---------------------------------------------------------------------
  // The text and COE files

  /** The concatenation of `pieces`, in order. */
  function Concat(pieces: seq<string>): string {
    if pieces == [] then [] else Concat(pieces[..|pieces| - 1]) + pieces[|pieces| - 1]
  }

  /** The lines of the text file: the `032b` form of each word and a newline. */
  function TextLines(words: seq<int>): (lines: seq<string>)
    ensures |lines| == |words|
  {
    seq(|words|, i requires 0 <= i < |words| => Binary032(words[i]) + "\n")
  }

  /** The text file. */
  function TextFile(words: seq<int>): string {
    Concat(TextLines(words))
  }

  const CoeHeader: string := "memory_initialization_radix=16;\nmemory_initialization_vector=\n"

  /** The `08x` form of each word. */
  function HexWords(words: seq<int>): (hexes: seq<string>)
    ensures |hexes| == |words|
  {
    seq(|words|, i requires 0 <= i < |words| => Hex08(words[i]))
  }

  /** The entries of a COE vector: each one followed by `,` and a newline, the last by `;`. */
  function Terminated(hexes: seq<string>): (entries: seq<string>)
    ensures |entries| == |hexes|
  {
    seq(|hexes|, i requires 0 <= i < |hexes| => hexes[i] + (if i == |hexes| - 1 then ";" else ",\n"))
  }

  /** The COE file. */
  function CoeFile(words: seq<int>): string {
    CoeHeader + Concat(Terminated(HexWords(words)))
  }

  /** The text file of a prefix of the words grows by one line per word. */
  lemma TextLinesStep(words: seq<int>, k: nat)
    requires k < |words|
    ensures Concat(TextLines(words[..k + 1])) == Concat(TextLines(words[..k])) + (Binary032(words[k]) + "\n")
  {
    var p := TextLines(words[..k + 1]);
    assert p[..|p| - 1] == TextLines(words[..k]);
  }

  predicate AllWords(words: seq<int>) {
    forall i :: 0 <= i < |words| ==> 0 <= words[i] < 0x1_0000_0000
  }

  // ---------------------------------------------------------------------
  // Layout lemmas

  /** A 32-bit word prints as 32 binary digits, bit 31 first. */
  lemma Binary032Bits(w: int)
    requires 0 <= w < 0x1_0000_0000
    ensures |Binary032(w)| == 32
    ensures forall j :: 0 <= j < 32 ==> Binary032(w)[j] == DigitChar(Field(w, 31 - j, 1))
  {
    Binary032Fixed(w);
    forall j | 0 <= j < 32
      ensures Fixed(w, 2, 32)[j] == DigitChar(Field(w, 31 - j, 1))
    {
      BinaryDigit(w, 32, j);
    }
  }

  lemma Binary032Fixed(w: int)
    requires 0 <= w < 0x1_0000_0000
    ensures Binary032(w) == Fixed(w, 2, 32)
  {
    PowerTwo(32);
    Pow2Table();
    PadDigits(w, 2, 32);
  }

  lemma Hex08Fixed(w: int)
    requires 0 <= w < 0x1_0000_0000
    ensures Hex08(w) == Fixed(w, 16, 8)
  {
    PowerSixteen(8);
    Pow2Table();
    PadDigits(w, 16, 8);
  }

  lemma Binary032Length(w: int)
    requires 0 <= w < 0x1_0000_0000
    ensures |Binary032(w)| == 32
  {
    Binary032Fixed(w);
  }

  lemma Hex08Length(w: int)
    requires 0 <= w < 0x1_0000_0000
    ensures |Hex08(w)| == 8
  {
    Hex08Fixed(w);
  }

  lemma BinaryDigit(w: nat, k: nat, j: nat)
    requires j < k
    ensures Fixed(w, 2, k)[j] == DigitChar(Field(w, k - 1 - j, 1))
  {
    FixedDigit(w, 2, k, j);
    PowerTwo(k - 1 - j);
    assert Pow2(1) == 2;
  }

  /** A 32-bit word prints as 8 hexadecimal digits, bits 31..28 first. */
  lemma Hex08Nibbles(w: int)
    requires 0 <= w < 0x1_0000_0000
    ensures |Hex08(w)| == 8
    ensures forall j :: 0 <= j < 8 ==> Hex08(w)[j] == DigitChar(Field(w, 4 * (7 - j), 4))
  {
    Hex08Fixed(w);
    forall j | 0 <= j < 8
      ensures Fixed(w, 16, 8)[j] == DigitChar(Field(w, 4 * (7 - j), 4))
    {
      HexDigit(w, 8, j);
    }
  }

  lemma HexDigit(w: nat, k: nat, j: nat)
    requires j < k
    ensures Fixed(w, 16, k)[j] == DigitChar(Field(w, 4 * (k - 1 - j), 4))
  {
    FixedDigit(w, 16, k, j);
    PowerSixteen(k - 1 - j);
    assert Pow2(4) == 16 by {
      Pow2Table();
    }
  }

  /** Line i of the text file (33 characters from 33 * i) is the binary form of word i and a newline. */
  lemma TextLayout(words: seq<int>)
    requires AllWords(words)
    ensures |TextFile(words)| == 33 * |words|
    ensures forall i :: 0 <= i < |words| ==>
      TextFile(words)[33 * i..33 * i + 32] == Binary032(words[i]) && TextFile(words)[33 * i + 32] == '\n'
  {
    var lines := TextLines(words);
    forall i | 0 <= i < |words|
      ensures |lines[i]| == 33
    {
      Binary032Length(words[i]);
    }
    ConcatLayout(lines, 33);
    forall i | 0 <= i < |words|
      ensures TextFile(words)[33 * i..33 * i + 32] == Binary032(words[i])
      ensures TextFile(words)[33 * i + 32] == '\n'
    {
      LineAt(words, i);
    }
  }

  /** Line i of the text file, given that every line has 33 characters. */
  lemma LineAt(words: seq<int>, i: nat)
    requires i < |words| && forall j :: 0 <= j < |words| ==> |TextLines(words)[j]| == 33
    ensures 33 * i + 33 <= |TextFile(words)|
    ensures TextFile(words)[33 * i..33 * i + 32] == Binary032(words[i]) && TextFile(words)[33 * i + 32] == '\n'
  {
    var lines := TextLines(words);
    ConcatLayout(lines, 33);
    var t := TextFile(words);
    assert lines[i] == Binary032(words[i]) + "\n";
    assert t[33 * i..33 * i + 33] == lines[i];
    assert t[33 * i..33 * i + 32] == (t[33 * i..33 * i + 33])[..32];
    assert t[33 * i + 32] == (t[33 * i..33 * i + 33])[32];
  }

  /**
   * Entry i of the COE vector (10 characters from 10 * i after the header) is
   * the hexadecimal form of word i and a comma and newline, or `;` after the last word.
   */
  lemma CoeLayout(words: seq<int>)
    requires AllWords(words)
    ensures |CoeFile(words)| == |CoeHeader| + (if words == [] then 0 else 10 * |words| - 1)
    ensures forall i :: 0 <= i < |words| ==>
      CoeFile(words)[|CoeHeader| + 10 * i..|CoeHeader| + 10 * i + 8] == Hex08(words[i])
    ensures forall i :: 0 <= i < |words| - 1 ==>
      CoeFile(words)[|CoeHeader| + 10 * i + 8..|CoeHeader| + 10 * i + 10] == ",\n"
    ensures words != [] ==> CoeFile(words)[|CoeHeader| + 10 * |words| - 2] == ';'
  {
    var hexes := HexWords(words);
    forall i | 0 <= i < |words|
      ensures |hexes[i]| == 8
    {
      Hex08Length(words[i]);
    }
    VectorLayout(CoeHeader, hexes);
    assert CoeFile(words) == CoeHeader + Concat(Terminated(hexes));
    assert forall i :: 0 <= i < |words| ==> hexes[i] == Hex08(words[i]);
  }

  /** The layout of a header followed by 8-character entries separated by a comma and newline and closed by `;`. */
  lemma VectorLayout(header: string, hexes: seq<string>)
    requires forall i :: 0 <= i < |hexes| ==> |hexes[i]| == 8
    ensures |header + Concat(Terminated(hexes))| == |header| + (if hexes == [] then 0 else 10 * |hexes| - 1)
    ensures forall i :: 0 <= i < |hexes| ==>
      (header + Concat(Terminated(hexes)))[|header| + 10 * i..|header| + 10 * i + 8] == hexes[i]
    ensures forall i :: 0 <= i < |hexes| - 1 ==>
      (header + Concat(Terminated(hexes)))[|header| + 10 * i + 8..|header| + 10 * i + 10] == ",\n"
    ensures hexes != [] ==> (header + Concat(Terminated(hexes)))[|header| + 10 * |hexes| - 2] == ';'
  {
    var entries := Terminated(hexes);
    ConcatLayout(entries, 10);
    forall i | 0 <= i < |hexes|
      ensures (header + Concat(entries))[|header| + 10 * i..|header| + 10 * i + 8] == hexes[i]
      ensures i < |hexes| - 1 ==> (header + Concat(entries))[|header| + 10 * i + 8..|header| + 10 * i + 10] == ",\n"
    {
      EntryAt(header, hexes, i);
    }
    if hexes != [] {
      LastEntry(header, hexes);
    }
  }

  /** The last entry of a COE vector ends in `;`. */
  lemma LastEntry(header: string, hexes: seq<string>)
    requires hexes != [] && forall i :: 0 <= i < |hexes| ==> |hexes[i]| == 8
    ensures |header + Concat(Terminated(hexes))| == |header| + 10 * |hexes| - 1
    ensures (header + Concat(Terminated(hexes)))[|header| + 10 * |hexes| - 2] == ';'
  {
    var entries := Terminated(hexes);
    var n := |hexes|;
    ConcatLayout(entries, 10);
    SubSlice(header, Concat(entries), 10 * (n - 1), entries[n - 1], 8, 9);
    assert entries[n - 1][8..9] == ";";
  }

  lemma EntryAt(header: string, hexes: seq<string>, i: nat)
    requires forall j :: 0 <= j < |hexes| ==> |hexes[j]| == 8
    requires i < |hexes| && |Concat(Terminated(hexes))| == 10 * |hexes| - 1
    ensures (header + Concat(Terminated(hexes)))[|header| + 10 * i..|header| + 10 * i + 8] == hexes[i]
    ensures i < |hexes| - 1 ==>
      (header + Concat(Terminated(hexes)))[|header| + 10 * i + 8..|header| + 10 * i + 10] == ",\n"
  {
    var entries := Terminated(hexes);
    var body := Concat(entries);
    ConcatLayout(entries, 10);
    var e := entries[i];
    SubSlice(header, body, 10 * i, e, 0, 8);
    assert e[0..8] == hexes[i];
    if i < |hexes| - 1 {
      SubSlice(header, body, 10 * i, e, 8, 10);
      assert e[8..10] == ",\n";
    }
  }

  /**
   * When every piece but the last has `width` characters, piece i starts at
   * width * i.
   */
  lemma {:induction false} ConcatLayout(pieces: seq<string>, width: nat)
    requires forall i :: 0 <= i < |pieces| - 1 ==> |pieces[i]| == width
    ensures pieces != [] ==> |Concat(pieces)| == width * (|pieces| - 1) + |pieces[|pieces| - 1]|
    ensures forall i :: 0 <= i < |pieces| ==>
      width * i + |pieces[i]| <= |Concat(pieces)| && Concat(pieces)[width * i..width * i + |pieces[i]|] == pieces[i]
  {
    if pieces != [] {
      var n := |pieces|;
      var init := pieces[..n - 1];
      var prev := Concat(init);
      ConcatLayout(init, width);
      assert |prev| == width * (n - 1) by {
        if n > 1 {
          assert init[n - 2] == pieces[n - 2];
          assert width * (n - 2) + width == width * (n - 1);
        }
      }
      assert Concat(pieces) == prev + pieces[n - 1];
      forall i | 0 <= i < n
        ensures width * i + |pieces[i]| <= |Concat(pieces)|
        ensures Concat(pieces)[width * i..width * i + |pieces[i]|] == pieces[i]
      {
        if i < n - 1 {
          assert init[i] == pieces[i];
          SliceOfPrefix(prev, pieces[n - 1], width * i, width * i + width);
        } else {
          SliceOfSuffix(prev, pieces[n - 1], 0, |pieces[n - 1]|);
        }
      }
    }
  }

  lemma SliceOfPrefix(a: string, b: string, lo: nat, hi: nat)
    requires lo <= hi <= |a|
    ensures (a + b)[lo..hi] == a[lo..hi]
  {
  }

  lemma SubSlice(header: string, body: string, at: nat, e: string, lo: nat, hi: nat)
    requires at + |e| <= |body| && body[at..at + |e|] == e && lo <= hi <= |e|
    ensures (header + body)[|header| + at + lo..|header| + at + hi] == e[lo..hi]
  {
    var x := body[at..at + |e|];
    assert (header + body)[|header| + at + lo..|header| + at + hi] == body[at + lo..at + hi];
    assert forall j :: 0 <= j < hi - lo ==> x[lo..hi][j] == body[at + lo..at + hi][j];
    assert x[lo..hi] == body[at + lo..at + hi];
  }

  lemma SliceOfSuffix(a: string, b: string, lo: nat, hi: nat)
    requires lo <= hi <= |b|
    ensures (a + b)[|a| + lo..|a| + hi] == b[lo..hi]
  {
  }

  // ---------------------------------------------------------------------
  // Digits and their padded form

  lemma {:induction false} FixedDigit(n: nat, base: nat, k: nat, j: nat)
    requires 2 <= base <= 16 && j < k
    ensures Fixed(n, base, k)[j] == DigitChar(n / Power(base, k - 1 - j) % base)
    decreases k
  {
    if j < k - 1 {
      FixedDigit(n / base, base, k - 1, j);
      FixedShift(n, base, k, j);
    } else {
      FixedLast(n, base, k);
    }
  }

  /** The last digit of the k-digit form is n mod base. */
  lemma FixedLast(n: nat, base: nat, k: nat)
    requires 2 <= base <= 16 && k >= 1
    ensures Fixed(n, base, k)[k - 1] == DigitChar(n / Power(base, 0) % base)
  {
    assert Power(base, 0) == 1;
  }

  /** Below the last place, digit j of n is digit j of n / base one place shorter. */
  lemma FixedShift(n: nat, base: nat, k: nat, j: nat)
    requires 2 <= base <= 16 && j < k - 1
    ensures Fixed(n, base, k)[j] == Fixed(n / base, base, k - 1)[j]
    ensures n / Power(base, k - 1 - j) == n / base / Power(base, k - 2 - j)
  {
    var p := Power(base, k - 2 - j);
    assert Power(base, k - 1 - j) == base * p;
    DivDiv(n, base, p);
  }

  lemma {:induction false} PadDigits(n: nat, base: nat, k: nat)
    requires 2 <= base <= 16 && k >= 1 && n < Power(base, k)
    ensures ZeroPad(Digits(n, base), k) == Fixed(n, base, k)
    decreases k
  {
    if n < base {
      PadDigit(n, base, k);
    } else {
      assert Power(base, 1) == base;
      DivBelow(n, base, Power(base, k - 1));
      var d := Digits(n / base, base);
      DigitsLength(n / base, base, k - 1);
      PadDigits(n / base, base, k - 1);
      PadAppend(d, DigitChar(n % base), k);
    }
  }

  /** A single digit padded to k places is k - 1 zeros and the digit. */
  lemma PadDigit(n: nat, base: nat, k: nat)
    requires 2 <= base <= 16 && k >= 1 && n < base
    ensures ZeroPad(Digits(n, base), k) == Fixed(n, base, k)
  {
    var c := DigitChar(n % base);
    DivModPlace(0, n, base);
    assert Digits(n, base) == [] + [c];
    PadAppend([], c, k);
    PadZero(base, k - 1);
    assert Fixed(n, base, k) == Fixed(0, base, k - 1) + [c];
  }

  lemma {:induction false} DigitsLength(n: nat, base: nat, k: nat)
    requires 2 <= base <= 16 && k >= 1 && n < Power(base, k)
    ensures |Digits(n, base)| <= k
    decreases k
  {
    if n >= base {
      assert Power(base, 1) == base;
      DivBelow(n, base, Power(base, k - 1));
      DigitsLength(n / base, base, k - 1);
    }
  }

  /** Padding a string with one more character at its end. */
  lemma {:induction false} PadAppend(s: string, c: char, k: nat)
    requires 1 <= k && |s| <= k - 1
    ensures ZeroPad(s + [c], k) == ZeroPad(s, k - 1) + [c]
  {
    if |s| + 1 < k {
      PadAppend(s, c, k - 1);
    }
  }

  /** Padding the empty string gives the digits of zero. */
  lemma {:induction false} PadZero(base: nat, k: nat)
    requires 2 <= base <= 16
    ensures ZeroPad([], k) == Fixed(0, base, k)
  {
    if k > 0 {
      PadZero(base, k - 1);
      PadAppend([], '0', k);
      PadSingleZero(k);
      assert [] + ['0'] == ['0'];
      assert Fixed(0, base, k) == Fixed(0, base, k - 1) + ['0'];
    }
  }

  lemma {:induction false} PadSingleZero(k: nat)
    requires k >= 1
    ensures ZeroPad([], k) == ZeroPad(['0'], k)
  {
    if k > 1 {
      PadSingleZero(k - 1);
    }
  }

  lemma DivBelow(n: nat, b: nat, p: nat)
    requires b > 0 && n < b * p
    ensures n / b < p
  {
    if n / b >= p {
      MulMono(b, p, n / b);
    }
  }

  lemma MulMono(b: nat, x: nat, y: nat)
    requires x <= y
    ensures b * x <= b * y
  {
    assert b * y == b * x + b * (y - x);
  }

  lemma DivDiv(a: nat, b: nat, c: nat)
    requires b > 0 && c > 0
    ensures a / b / c == a / (b * c)
  {
    var q, r2, r1 := a / b / c, a / b % c, a % b;
    assert a / b == c * q + r2;
    assert a == b * (c * q + r2) + r1;
    assert b * (c * q + r2) == (b * c) * q + b * r2;
    MulMono(b, r2, c - 1);
    assert b * (c - 1) == b * c - b;
    DivModPlace(q, b * r2 + r1, b * c);
  }

  lemma {:induction false} PowerTwo(m: nat)
    ensures Power(2, m) == Pow2(m)
  {
    if m > 0 {
      PowerTwo(m - 1);
    }
  }

  lemma {:induction false} PowerSixteen(m: nat)
    ensures Power(16, m) == Pow2(4 * m)
  {
    if m > 0 {
      PowerSixteen(m - 1);
      Pow2Add(4 * (m - 1), 4);
      Pow2Table();
    }
  }
}
