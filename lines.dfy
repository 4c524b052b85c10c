/**
 * Instruction lines written in the usual form, `name op0, op1, ...` with
 * one blank after the mnemonic and `, ` between operands, and what the
 * splitter both assemblers share makes of them: the mnemonic and exactly
 * the operands.
 */
module Lines {
  import opened Results
  import opened Text
  import opened Isa
  import opened Format
  import opened Operands

  /** A token the splitter keeps whole: non-empty, no separator and no `#`. */
  predicate IsToken(t: string) {
    t != [] && forall k :: 0 <= k < |t| ==> !IsSeparator(t[k]) && t[k] != '#'
  }

  /** The operands joined by `, `. */
  function Joined(ops: seq<string>): string {
    if ops == [] then [] else if |ops| == 1 then ops[0] else ops[0] + ", " + Joined(ops[1..])
  }

  /** An instruction line `name op0, op1, ...`. */
  function Line(name: string, ops: seq<string>): string {
    if ops == [] then name else name + " " + Joined(ops)
  }

  /** The register token `xN`. */
  function RegisterName(n: nat): string {
    "x" + Digits(n, 10)
  }


  lemma RegisterTokens(ops: seq<string>, a: nat, b: nat, c: nat)
    requires a < 32 && b < 32 && c < 32
    requires ops == [RegisterName(a), RegisterName(b), RegisterName(c)]
    ensures forall k :: 0 <= k < |ops| ==> IsToken(ops[k])
    ensures ParseRegister(ops[0]) == Ok(a) && ParseRegister(ops[1]) == Ok(b) && ParseRegister(ops[2]) == Ok(c)
  {
    RegisterNameToken(a);
    RegisterNameToken(b);
    RegisterNameToken(c);
  }

  /** `xN` is a token and parses back to register N. */
  lemma RegisterNameToken(n: nat)
    requires n < 32
    ensures IsToken(RegisterName(n)) && ParseRegister(RegisterName(n)) == Ok(n)
  {
    DigitsText(n, 10);
    NumberedRegister(n);
    var s := RegisterName(n);
    forall k | 0 <= k < |s|
      ensures !IsSeparator(s[k]) && s[k] != '#'
    {
      if k > 0 {
        assert s[k] == Digits(n, 10)[k - 1];
      }
    }
  }

  /** The decimal form of an integer is a token. */
  lemma DecimalTextToken(v: int)
    ensures IsToken(DecimalText(v))
  {
    var n := if v < 0 then -v else v;
    DigitsText(n, 10);
    var s := DecimalText(v);
    forall k | 0 <= k < |s|
      ensures !IsSeparator(s[k]) && s[k] != '#'
    {
      if v < 0 && k > 0 {
        assert s[k] == Digits(n, 10)[k - 1];
      }
    }
  }

  /** The mnemonic names are lower-case tokens. */
  lemma MnemonicText(name: string)
    requires MnemonicOf(name).Some?
    ensures IsToken(name) && Lower(name) == name
  {
    forall k | 0 <= k < |name|
      ensures !IsSeparator(name[k]) && name[k] != '#' && LowerChar(name[k]) == name[k]
    {
    }
  }

  /** The usual line is non-empty, has no `#`, and starts and ends with a non-blank. */
  lemma LineFacts(name: string, ops: seq<string>)
    requires IsToken(name)
    requires forall k :: 0 <= k < |ops| ==> IsToken(ops[k])
    ensures var line := Line(name, ops);
      line != [] && !IsSpace(line[0]) && !IsSpace(line[|line| - 1])
      && forall k :: 0 <= k < |line| ==> line[k] != '#'
  {
    if ops != [] {
      JoinedFacts(ops);
    }
  }

  lemma {:induction false} JoinedFacts(ops: seq<string>)
    requires ops != []
    requires forall k :: 0 <= k < |ops| ==> IsToken(ops[k])
    ensures var j := Joined(ops);
      j != [] && !IsSeparator(j[0]) && !IsSpace(j[|j| - 1])
      && forall k :: 0 <= k < |j| ==> j[k] != '#'
  {
    if |ops| > 1 {
      JoinedFacts(ops[1..]);
      var rest := Joined(ops[1..]);
      assert Joined(ops) == ops[0] + ", " + rest;
    }
  }

  /** The operand tokens survive the filter for empty strings. */
  lemma {:induction false} NonEmptyTokens(ops: seq<string>)
    requires forall k :: 0 <= k < |ops| ==> ops[k] != []
    ensures NonEmpty(ops) == ops
  {
    if ops != [] {
      NonEmptyTokens(ops[1..]);
    }
  }

  /** The splitter recovers the mnemonic and the operands of the usual line. */
  lemma SplitLine(name: string, ops: seq<string>)
    requires IsToken(name)
    requires forall k :: 0 <= k < |ops| ==> IsToken(ops[k])
    ensures Split(Line(name, ops)) == [name] + ops
  {
    if ops == [] {
      SplitToken(name);
    } else {
      JoinedFacts(ops);
      SplitAfter(name, " ", Joined(ops));
      SplitJoined(ops);
    }
  }

  lemma {:induction false} SplitJoined(ops: seq<string>)
    requires ops != []
    requires forall k :: 0 <= k < |ops| ==> IsToken(ops[k])
    ensures Split(Joined(ops)) == ops
  {
    if |ops| == 1 {
      SplitToken(ops[0]);
    } else {
      JoinedFacts(ops[1..]);
      SplitAfter(ops[0], ", ", Joined(ops[1..]));
      SplitJoined(ops[1..]);
      assert ops == [ops[0]] + ops[1..];
    }
  }

  /** A token is split into itself. */
  lemma SplitToken(t: string)
    requires IsToken(t)
    ensures Split(t) == [t]
  {
    SpanToken(t, []);
    assert t + [] == t;
  }

  /** A token, a run of separators and a text starting with a non-separator split into the token and the text's parts. */
  lemma SplitAfter(t: string, sep: string, rest: string)
    requires IsToken(t) && sep != [] && rest != [] && !IsSeparator(rest[0])
    requires forall k :: 0 <= k < |sep| ==> IsSeparator(sep[k])
    ensures Split(t + sep + rest) == [t] + Split(rest)
  {
    var s := t + sep + rest;
    SpanToken(t, sep + rest);
    assert t + sep + rest == t + (sep + rest);
    SpanSeparators(sep, rest);
    assert s[|t|..] == sep + rest;
    assert s[..|t|] == t;
    assert s[|t| + |sep|..] == rest;
  }

  lemma {:induction false} SpanToken(t: string, x: string)
    requires forall k :: 0 <= k < |t| ==> !IsSeparator(t[k])
    requires x != [] ==> IsSeparator(x[0])
    ensures Span(t + x, false) == |t|
  {
    if t != [] {
      assert (t + x)[1..] == t[1..] + x;
      SpanToken(t[1..], x);
    } else {
      assert t + x == x;
    }
  }

  lemma {:induction false} SpanSeparators(sep: string, rest: string)
    requires forall k :: 0 <= k < |sep| ==> IsSeparator(sep[k])
    requires rest != [] ==> !IsSeparator(rest[0])
    ensures Span(sep + rest, true) == |sep|
  {
    if sep != [] {
      assert (sep + rest)[1..] == sep[1..] + rest;
      SpanSeparators(sep[1..], rest);
    } else {
      assert sep + rest == rest;
    }
  }
}
