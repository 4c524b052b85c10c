/**
 * The lexical helpers both assemblers use: Python's `strip()` and `lower()`
 * on ASCII text, the numerals `int()` is given, the `[,\s]+` tokeniser and
 * the `offset(reg)` operand pattern. Python's `\s`, `\w` and `\d` are taken
 * over ASCII.
 */
module Text {
  import opened Results

  /** ASCII characters for which Python's `str.isspace()` holds (and `\s` matches). */
  predicate IsSpace(c: char) {
    c == ' ' || ('\t' <= c <= '\r') || ('\U{1C}' <= c <= '\U{1F}')
  }

  /** The number of blanks at the start of s. */
  function LeadingBlanks(s: string): (n: nat)
    ensures n <= |s|
  {
    if |s| > 0 && IsSpace(s[0]) then 1 + LeadingBlanks(s[1..]) else 0
  }

  /** The number of blanks at the end of s. */
  function TrailingBlanks(s: string): (n: nat)
    ensures n <= |s|
  {
    if |s| > 0 && IsSpace(s[|s| - 1]) then 1 + TrailingBlanks(s[..|s| - 1]) else 0
  }

  /** Python's `s.strip()`. */
  function Strip(s: string): (r: string)
    ensures |r| <= |s|
  {
    var a := LeadingBlanks(s);
    s[a..|s| - TrailingBlanks(s[a..])]
  }

  /** Stripping a string that neither starts nor ends with a blank leaves it as it is. */
  lemma StripNoSpace(s: string)
    requires s != [] ==> !IsSpace(s[0]) && !IsSpace(s[|s| - 1])
    ensures Strip(s) == s
  {
    assert LeadingBlanks(s) == 0;
    assert s[0..] == s;
    assert TrailingBlanks(s) == 0;
  }

  function LowerChar(c: char): char {
    if 'A' <= c <= 'Z' then (c as int + 32) as char else c
  }

  /** Python's `s.lower()` on ASCII letters. */
  function Lower(s: string): (r: string)
    ensures |r| == |s|
  {
    seq(|s|, i requires 0 <= i < |s| => LowerChar(s[i]))
  }

  /** Lower-casing neither makes nor unmakes a blank. */
  lemma LowerCharSpace(c: char)
    ensures IsSpace(LowerChar(c)) == IsSpace(c)
  {
  }

  /** The first character after the leading blanks is not a blank. */
  lemma {:induction false} LeadingBlanksEnd(s: string)
    ensures LeadingBlanks(s) < |s| ==> !IsSpace(s[LeadingBlanks(s)])
    decreases |s|
  {
    if |s| > 0 && IsSpace(s[0]) {
      LeadingBlanksEnd(s[1..]);
    }
  }

  /** The last character before the trailing blanks is not a blank. */
  lemma {:induction false} TrailingBlanksEnd(s: string)
    ensures TrailingBlanks(s) < |s| ==> !IsSpace(s[|s| - 1 - TrailingBlanks(s)])
    decreases |s|
  {
    if |s| > 0 && IsSpace(s[|s| - 1]) {
      TrailingBlanksEnd(s[..|s| - 1]);
    }
  }

  /** A stripped string neither starts nor ends with a blank. */
  lemma StrippedEnds(s: string)
    ensures var r := Strip(s); r != [] ==> !IsSpace(r[0]) && !IsSpace(r[|r| - 1])
  {
    var a := LeadingBlanks(s);
    var b := TrailingBlanks(s[a..]);
    var r := Strip(s);
    LeadingBlanksEnd(s);
    TrailingBlanksEnd(s[a..]);
    if r != [] {
      assert r[0] == s[a];
      assert r[|r| - 1] == s[a..][|s[a..]| - 1 - b];
    }
  }

  /**
   * Stripping, then lower-casing, gives a string that stripping and
   * lower-casing again leave as it is.
   */
  lemma LowerStripped(s: string)
    ensures var u := Lower(Strip(s)); Strip(u) == u && Lower(u) == u
  {
    var r := Strip(s);
    var u := Lower(r);
    StrippedEnds(s);
    if u != [] {
      LowerCharSpace(r[0]);
      LowerCharSpace(r[|r| - 1]);
    }
    StripNoSpace(u);
  }

  predicate StartsWith(s: string, prefix: string) {
    |prefix| <= |s| && s[..|prefix|] == prefix
  }

  predicate IsDigit(c: char) {
    '0' <= c <= '9'
  }

  predicate IsHexDigit(c: char) {
    IsDigit(c) || 'a' <= c <= 'f' || 'A' <= c <= 'F'
  }

  /** Python's `\w` over ASCII. */
  predicate IsWordChar(c: char) {
    IsDigit(c) || 'a' <= c <= 'z' || 'A' <= c <= 'Z' || c == '_'
  }

  function HexDigitValue(c: char): (d: nat)
    requires IsHexDigit(c)
    ensures d < 16
    ensures IsDigit(c) ==> d < 10
  {
    if IsDigit(c) then c as int - '0' as int
    else if 'a' <= c <= 'f' then c as int - 'a' as int + 10
    else c as int - 'A' as int + 10
  }

  predicate AllDigits(s: string) {
    forall i :: 0 <= i < |s| ==> IsDigit(s[i])
  }

  predicate AllHexDigits(s: string) {
    forall i :: 0 <= i < |s| ==> IsHexDigit(s[i])
  }

  /** The value of a string of digits read in `base`, most significant digit first. */
  function NumeralValue(s: string, base: nat): nat
    requires AllHexDigits(s)
  {
    if s == [] then 0
    else NumeralValue(s[..|s| - 1], base) * base + HexDigitValue(s[|s| - 1])
  }

  /** The token matches `-?[0-9]+`. */
  predicate IsDecimalLiteral(s: string) {
    (|s| > 0 && AllDigits(s)) || (|s| > 1 && s[0] == '-' && AllDigits(s[1..]))
  }

  /** The token matches `-?0x[0-9a-fA-F]+`. */
  predicate IsHexLiteral(s: string) {
    (|s| > 2 && s[..2] == "0x" && AllHexDigits(s[2..]))
    || (|s| > 3 && s[..3] == "-0x" && AllHexDigits(s[3..]))
  }

  /** Python's `int(s, 10)` on a token matching `-?[0-9]+`; None where `int` raises. */
  function ParseDecimal(s: string): (r: Option<int>)
    ensures r.Some? <==> IsDecimalLiteral(s)
  {
    if |s| > 0 && AllDigits(s) then Some(NumeralValue(s, 10))
    else if |s| > 1 && s[0] == '-' && AllDigits(s[1..]) then Some(-(NumeralValue(s[1..], 10) as int))
    else None
  }

  /** Python's `int(s, 16)` on a token matching `-?0x[0-9a-fA-F]+`. */
  function HexLiteralValue(s: string): int
    requires IsHexLiteral(s)
  {
    if s[0] == '-' then -(NumeralValue(s[3..], 16) as int) else NumeralValue(s[2..], 16)
  }

  // ---------------------------------------------------------------------
  // Tokenising

  predicate IsSeparator(c: char) {
    c == ',' || IsSpace(c)
  }

  /** Length of the longest prefix of s made of separators (sep) or of non-separators (!sep). */
  function Span(s: string, sep: bool): (n: nat)
    ensures n <= |s|
    ensures forall k :: 0 <= k < n ==> IsSeparator(s[k]) == sep
    ensures n < |s| ==> IsSeparator(s[n]) != sep
  {
    if |s| > 0 && IsSeparator(s[0]) == sep then 1 + Span(s[1..], sep) else 0
  }

  /** Python's `re.split(r'[,\s]+', s)`. */
  function Split(s: string): (parts: seq<string>)
    ensures |parts| >= 1
    decreases |s|
  {
    var i := Span(s, false);
    if i == |s| then [s]
    else
      var j := i + Span(s[i..], true);
      [s[..i]] + Split(s[j..])
  }

  /** `[p for p in parts if p]`. */
  function NonEmpty(parts: seq<string>): (r: seq<string>)
    ensures forall k :: 0 <= k < |r| ==> r[k] != []
  {
    if parts == [] then []
    else if parts[0] == [] then NonEmpty(parts[1..])
    else [parts[0]] + NonEmpty(parts[1..])
  }

  /** Length of the longest prefix of s made of `\w` characters. */
  function WordSpan(s: string): (n: nat)
    ensures n <= |s|
    ensures forall k :: 0 <= k < n ==> IsWordChar(s[k])
    ensures n < |s| ==> !IsWordChar(s[n])
  {
    if |s| > 0 && IsWordChar(s[0]) then 1 + WordSpan(s[1..]) else 0
  }

  /**
   * `re.match(r'(-?\w+)\((\w+)\)', tok)`: the offset text, the register text
   * and whatever follows the closing parenthesis.
   */
  function MatchOffsetBase(tok: string): Option<(string, string, string)>
  {
    var a := OffsetEnd(tok);
    if a == Sign(tok) || a >= |tok| || tok[a] != '(' then None else MatchBase(tok, a)
  }

  /** The length of the optional `-`. */
  function Sign(tok: string): nat {
    if |tok| > 0 && tok[0] == '-' then 1 else 0
  }

  /** Where the `-?\w+` group ends (it is empty when this is Sign(tok)). */
  function OffsetEnd(tok: string): nat {
    Sign(tok) + WordSpan(tok[Sign(tok)..])
  }

  /** The `(\w+)` group and the `)` after the `(` at position a. */
  function MatchBase(tok: string, a: nat): Option<(string, string, string)>
    requires a < |tok|
  {
    var b := a + 1 + WordSpan(tok[a + 1..]);
    if b == a + 1 || b >= |tok| || tok[b] != ')' then None
    else Some((tok[..a], tok[a + 1..b], tok[b + 1..]))
  }

  /** A non-empty run of `\w` characters. */
  predicate IsWordText(s: string) {
    |s| > 0 && forall k :: 0 <= k < |s| ==> IsWordChar(s[k])
  }

  /** The text `-?\w+` matches. */
  predicate IsOffsetText(s: string) {
    IsWordText(s) || (|s| > 1 && s[0] == '-' && IsWordText(s[1..]))
  }

  /** The word run starting at i ends at j when tok[i..j] is all word characters and tok[j] is not one. */
  lemma {:induction false} WordSpanAt(tok: string, i: nat, j: nat)
    requires i <= j < |tok| && !IsWordChar(tok[j])
    requires forall k :: i <= k < j ==> IsWordChar(tok[k])
    ensures WordSpan(tok[i..]) == j - i
    decreases j - i
  {
    if i < j {
      assert tok[i..][1..] == tok[i + 1..];
      WordSpanAt(tok, i + 1, j);
    }
  }

  /** `offset(reg)` at the start of a token is matched, with its three groups. */
  lemma OffsetBaseMatches(tok: string, a: nat, b: nat)
    requires a + 1 < b < |tok| && tok[a] == '(' && tok[b] == ')'
    requires IsOffsetText(tok[..a]) && IsWordText(tok[a + 1..b])
    ensures MatchOffsetBase(tok) == Some((tok[..a], tok[a + 1..b], tok[b + 1..]))
  {
    var sign := Sign(tok);
    assert tok[0] == tok[..a][0];
    forall k | sign <= k < a
      ensures IsWordChar(tok[k])
    {
      assert tok[k] == tok[..a][k];
      if sign == 1 {
        assert tok[k] == tok[..a][1..][k - 1];
      }
    }
    WordSpanAt(tok, sign, a);
    forall k | a + 1 <= k < b
      ensures IsWordChar(tok[k])
    {
      assert tok[k] == tok[a + 1..b][k - a - 1];
    }
    WordSpanAt(tok, a + 1, b);
    MatchFromSpans(tok, sign, a, b);
  }

  /** The matcher's result once the two word runs are known. */
  lemma MatchFromSpans(tok: string, sign: nat, a: nat, b: nat)
    requires sign == Sign(tok)
    requires sign < a < |tok| && a + 1 < b < |tok| && tok[a] == '(' && tok[b] == ')'
    requires a == sign + WordSpan(tok[sign..]) && b == a + 1 + WordSpan(tok[a + 1..])
    ensures MatchOffsetBase(tok) == Some((tok[..a], tok[a + 1..b], tok[b + 1..]))
  {
    assert OffsetEnd(tok) == a;
    assert MatchOffsetBase(tok) == MatchBase(tok, a);
    assert MatchBase(tok, a) == Some((tok[..a], tok[a + 1..b], tok[b + 1..]));
  }

  /** Whatever is matched is `offset(reg)` at the start of the token, the third group what follows. */
  lemma OffsetBaseShape(tok: string)
    requires MatchOffsetBase(tok).Some?
    ensures var g := MatchOffsetBase(tok).value;
      var a := |g.0|;
      var b := a + 1 + |g.1|;
      b < |tok| && tok[a] == '(' && tok[b] == ')'
      && g.0 == tok[..a] && g.1 == tok[a + 1..b] && g.2 == tok[b + 1..]
      && IsOffsetText(g.0) && IsWordText(g.1)
  {
    OffsetPositions(tok);
    OffsetGroups(tok);
  }

  /** The `(` and the `)` of a match stand right after the first and the second group. */
  lemma OffsetPositions(tok: string)
    requires MatchOffsetBase(tok).Some?
    ensures var g := MatchOffsetBase(tok).value;
      var a := |g.0|;
      var b := a + 1 + |g.1|;
      b < |tok| && tok[a] == '(' && tok[b] == ')'
      && g.0 == tok[..a] && g.1 == tok[a + 1..b] && g.2 == tok[b + 1..]
  {
    var a, b := OffsetBaseCut(tok);
    GroupsAt(tok, MatchOffsetBase(tok).value, a, b);
  }

  /** Three groups cut from tok around a `(` at a and a `)` at b are found again from their lengths. */
  lemma GroupsAt(tok: string, g: (string, string, string), a: nat, b: nat)
    requires a < b < |tok| && tok[a] == '(' && tok[b] == ')'
    requires g == (tok[..a], tok[a + 1..b], tok[b + 1..])
    ensures var a, b := |g.0|, |g.0| + 1 + |g.1|;
      b < |tok| && tok[a] == '(' && tok[b] == ')'
      && g.0 == tok[..a] && g.1 == tok[a + 1..b] && g.2 == tok[b + 1..]
  {
  }

  /** The groups of a match are `-?\w+` and `\w+`. */
  lemma OffsetGroups(tok: string)
    requires MatchOffsetBase(tok).Some?
    ensures IsOffsetText(MatchOffsetBase(tok).value.0) && IsWordText(MatchOffsetBase(tok).value.1)
  {
    var a, b := OffsetBaseCut(tok);
    GroupWords(tok, a, b);
  }

  /**
   * Where a match puts its `(` and its `)`: everything from the optional
   * `-` up to the `)`, but the `(`, is a word character.
   */
  lemma OffsetBaseCut(tok: string) returns (a: nat, b: nat)
    requires MatchOffsetBase(tok).Some?
    ensures Sign(tok) < a && a + 1 < b < |tok| && tok[a] == '(' && tok[b] == ')'
    ensures MatchOffsetBase(tok) == Some((tok[..a], tok[a + 1..b], tok[b + 1..]))
    ensures forall k :: Sign(tok) <= k < b && k != a ==> IsWordChar(tok[k])
  {
    a := OffsetEnd(tok);
    OffsetOpen(tok);
    b := a + 1 + WordSpan(tok[a + 1..]);
    BaseClose(tok, a);
    SpanChars(tok, a, b);
  }

  /** The base group of a match runs from after the `(` to a `)`. */
  lemma BaseClose(tok: string, a: nat)
    requires a < |tok| && MatchBase(tok, a).Some?
    ensures var b := a + 1 + WordSpan(tok[a + 1..]);
      a + 1 < b < |tok| && tok[b] == ')' && MatchBase(tok, a) == Some((tok[..a], tok[a + 1..b], tok[b + 1..]))
  {
  }

  /** The two word runs the matcher measured are word characters, all but the `(` between them. */
  lemma SpanChars(tok: string, a: nat, b: nat)
    requires Sign(tok) <= a < b <= |tok|
    requires a == Sign(tok) + WordSpan(tok[Sign(tok)..]) && b == a + 1 + WordSpan(tok[a + 1..])
    ensures forall k :: Sign(tok) <= k < b && k != a ==> IsWordChar(tok[k])
  {
    forall k | Sign(tok) <= k < b && k != a
      ensures IsWordChar(tok[k])
    {
      if k < a {
        assert tok[k] == tok[Sign(tok)..][k - Sign(tok)];
      } else {
        assert tok[k] == tok[a + 1..][k - a - 1];
      }
    }
  }

  /** A match has a non-empty offset group followed by `(`, where the base group starts. */
  lemma OffsetOpen(tok: string)
    requires MatchOffsetBase(tok).Some?
    ensures var a := OffsetEnd(tok);
      Sign(tok) < a < |tok| && a == Sign(tok) + WordSpan(tok[Sign(tok)..]) && tok[a] == '('
      && MatchOffsetBase(tok) == MatchBase(tok, a)
  {
  }

  /** Word characters on both sides of the `(` make the two groups `-?\w+` and `\w+`. */
  lemma GroupWords(tok: string, a: nat, b: nat)
    requires Sign(tok) < a && a + 1 < b <= |tok|
    requires forall k :: Sign(tok) <= k < b && k != a ==> IsWordChar(tok[k])
    ensures IsOffsetText(tok[..a]) && IsWordText(tok[a + 1..b])
  {
    var offset, base := tok[..a], tok[a + 1..b];
    forall k | 0 <= k < |base|
      ensures IsWordChar(base[k])
    {
      assert base[k] == tok[a + 1 + k];
    }
    assert IsWordText(base);
    if Sign(tok) == 1 {
      var unsigned := offset[1..];
      forall k | 0 <= k < |unsigned|
        ensures IsWordChar(unsigned[k])
      {
        assert unsigned[k] == tok[k + 1];
      }
      assert offset[0] == '-' && IsWordText(unsigned);
    } else {
      forall k | 0 <= k < |offset|
        ensures IsWordChar(offset[k])
      {
        assert offset[k] == tok[k];
      }
      assert IsWordText(offset);
    }
  }

}
