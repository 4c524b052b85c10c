/**
 * The two-pass assembler of `asm2c-0113.py`. Pass one (`preprocess`) drops
 * comments and blank lines, binds every `name:` prefix to the address of
 * the next instruction and numbers the instructions 0, 4, 8, ...; pass two
 * (`assemble_instr`) encodes each instruction, resolving label operands to
 * offsets from the instruction's own address. `assemble_file` runs both
 * and writes the words as a text file and a COE file.
 */
module TwoPassAssembler {
  import opened Results
  import opened Text
  import opened Isa
  import opened Bits
  import opened Decode
  import opened Format
  import opened Operands
  import opened TwoPassEncoders
  import opened Lines

  // ---------------------------------------------------------------------
  // Pass one: comments and labels

  /** A comment starts at position k: a `#`, or the first `/` of `//`. */
  predicate CommentAt(s: string, k: nat)
    requires k < |s|
  {
    s[k] == '#' || (s[k] == '/' && k + 1 < |s| && s[k + 1] == '/')
  }

  /** Where the first comment of the line starts, or the line's length when it has none. */
  function CommentStart(line: string): (n: nat)
    ensures n <= |line|
    ensures forall k :: 0 <= k < n ==> !CommentAt(line, k)
    ensures n < |line| ==> CommentAt(line, n)
  {
    if line == [] || CommentAt(line, 0) then 0
    else
      var n := CommentStart(line[1..]);
      assert forall k :: 0 <= k < 1 + n ==> !CommentAt(line, k) by {
        forall k | 0 < k < 1 + n ensures !CommentAt(line, k) {
          assert !CommentAt(line[1..], k - 1);
        }
      }
      assert 1 + n < |line| ==> CommentAt(line, 1 + n) by {
        if 1 + n < |line| {
          assert CommentAt(line[1..], n);
        }
      }
      1 + n
  }

  /** `re.sub(r'//.*$|#.*$', '', line)`: the line up to its first comment. */
  function CutComments(line: string): string {
    line[..CommentStart(line)]
  }

  predicate IsLabelStart(c: char) {
    'a' <= c <= 'z' || 'A' <= c <= 'Z' || c == '_'
  }

  /** A label name matches `[A-Za-z_]\w*`. */
  predicate IsLabel(s: string) {
    |s| > 0 && IsLabelStart(s[0]) && forall k :: 0 <= k < |s| ==> IsWordChar(s[k])
  }

  /**
   * `re.match(r'^([A-Za-z_]\w*):', line)`: the label at the head of the
   * line and the text after its colon. There is one exactly when the line
   * is a label name, a colon and the rest.
   */
  function LabelPrefix(line: string): (r: Option<(string, string)>)
    ensures r.Some? ==> IsLabel(r.value.0) && line == r.value.0 + ":" + r.value.1
    ensures r.None? ==> forall j :: 0 < j < |line| && IsLabel(line[..j]) ==> line[j] != ':'
  {
    if line == [] || !IsLabelStart(line[0]) then None
    else
      var j := 1 + WordSpan(line[1..]);
      assert forall k :: 1 <= k < j ==> IsWordChar(line[k]) by {
        forall k | 1 <= k < j ensures IsWordChar(line[k]) {
          assert line[k] == line[1..][k - 1];
        }
      }
      if j < |line| && line[j] == ':' then Some((line[..j], line[j + 1..]))
      else
        assert j < |line| ==> !IsWordChar(line[j]) by {
          if j < |line| {
            assert line[j] == line[1..][j - 1];
          }
        }
        assert forall i :: 0 < i < |line| && IsLabel(line[..i]) ==> line[i] != ':' by {
          forall i | 0 < i < |line| && IsLabel(line[..i]) ensures line[i] != ':' {
          }
        }
        None
  }

  /**
   * The `name:` prefixes at the head of a line, in the order written, and
   * the text after the last of them, each prefix's remainder stripped
   * before the next is looked for: `a: b:  addi x1, x0, 1` has the names
   * `a` and `b` and the text `addi x1, x0, 1`. No label is left at the head
   * of that text.
   */
  function HeadLabels(line: string): (r: (seq<string>, string))
    ensures LabelPrefix(r.1).None? && |r.1| <= |line|
    ensures forall k :: 0 <= k < |r.0| ==> IsLabel(r.0[k])
    decreases |line|
  {
    match LabelPrefix(line)
    case None => ([], line)
    case Some((name, rest)) =>
      var (names, text) := HeadLabels(Strip(rest));
      ([name] + names, text)
  }

  /** No name occurs twice. */
  predicate Distinct(names: seq<string>) {
    forall i, j :: 0 <= i < j < |names| ==> names[i] != names[j]
  }

  /** No name is bound yet. */
  predicate Unbound(names: seq<string>, labels: map<string, nat>) {
    forall i :: 0 <= i < |names| ==> names[i] !in labels
  }

  /**
   * Names n, names are distinct and unbound exactly when n is unbound and
   * names are distinct and unbound once n is bound.
   */
  lemma UnboundStep(n: string, names: seq<string>, labels: map<string, nat>, pc: nat)
    requires n !in labels
    ensures Distinct([n] + names) && Unbound([n] + names, labels)
      <==> Distinct(names) && Unbound(names, labels[n := pc])
  {
    var all := [n] + names;
    if Distinct(names) && Unbound(names, labels[n := pc]) {
      forall i, j | 0 <= i < j < |all| ensures all[i] != all[j] {
        if i == 0 {
          assert all[j] == names[j - 1] && names[j - 1] !in labels[n := pc];
        } else {
          assert all[i] == names[i - 1] && all[j] == names[j - 1];
        }
      }
      forall i | 0 <= i < |all| ensures all[i] !in labels {
        if i > 0 {
          assert all[i] == names[i - 1] && names[i - 1] !in labels[n := pc];
        }
      }
    }
    if Distinct(all) && Unbound(all, labels) {
      forall i | 0 <= i < |names| ensures names[i] !in labels[n := pc] {
        assert names[i] == all[i + 1] && all[0] != all[i + 1];
      }
      forall i, j | 0 <= i < j < |names| ensures names[i] != names[j] {
        assert names[i] == all[i + 1] && names[j] == all[j + 1];
      }
    }
  }

  /** The text left of a line after its labels, and the label table with them bound. */
  datatype Labelled = Labelled(text: string, labels: map<string, nat>)

  /**
   * The `while True` loop of `preprocess`: takes the labels off the head of
   * the line one by one, binding each to pc, and refuses a label already
   * bound, whether before this line or earlier on it. It succeeds exactly
   * when the line's head names are distinct and unbound; then the text is
   * what follows them, the table gains exactly those names, each bound to
   * pc, and earlier bindings stay as they are.
   */
  function TakeLabels(line: string, labels: map<string, nat>, pc: nat): (r: Result<Labelled>)
    ensures r.Err? ==> r.error == DuplicateLabel
    ensures r.Ok? <==> Distinct(HeadLabels(line).0) && Unbound(HeadLabels(line).0, labels)
    ensures r.Ok? ==> r.value.text == HeadLabels(line).1
    ensures r.Ok? ==> forall l :: l in r.value.labels <==> l in labels || l in HeadLabels(line).0
    ensures r.Ok? ==> forall l :: l in labels ==> l in r.value.labels && r.value.labels[l] == labels[l]
    ensures r.Ok? ==> forall l :: l in HeadLabels(line).0 ==> l in r.value.labels && r.value.labels[l] == pc
    decreases |line|
  {
    match LabelPrefix(line)
    case None => Ok(Labelled(line, labels))
    case Some((name, rest)) =>
      var names := HeadLabels(Strip(rest)).0;
      assert HeadLabels(line).0 == [name] + names;
      if name in labels then
        assert ([name] + names)[0] == name;
        Err(DuplicateLabel)
      else
        UnboundStep(name, names, labels, pc);
        var r := TakeLabels(Strip(rest), labels[name := pc], pc);
        assert r.Ok? ==> forall l :: l in r.value.labels <==> l in labels || l in [name] + names;
        r
  }

  /** An instruction of the program with its address. */
  datatype Entry = Entry(pc: nat, text: string)

  /** What pass one has gathered: the instructions so far and the label table. */
  datatype Pass1 = Pass1(entries: seq<Entry>, labels: map<string, nat>)

  /**
   * One turn of the `for raw in lines` loop of `preprocess`. The next
   * address is 4 times the number of instructions so far. A line adds at
   * most one instruction, keeps the instructions and labels there are, and
   * binds its own labels to that next address.
   */
  function ScanLine(s: Pass1, raw: string): (r: Result<Pass1>)
    ensures r.Err? ==> r.error == DuplicateLabel
    ensures r.Ok? ==> (|s.entries| <= |r.value.entries| <= |s.entries| + 1
      && r.value.entries[..|s.entries|] == s.entries)
    ensures r.Ok? && |r.value.entries| > |s.entries| ==>
      r.value.entries[|s.entries|].pc == 4 * |s.entries| && r.value.entries[|s.entries|].text != []
    ensures r.Ok? ==> forall l :: l in s.labels ==> l in r.value.labels && r.value.labels[l] == s.labels[l]
    ensures r.Ok? ==> forall l :: l in r.value.labels && l !in s.labels ==> r.value.labels[l] == 4 * |s.entries|
    ensures var (names, rest) := HeadLabels(Strip(CutComments(raw)));
      && (r.Ok? <==> Distinct(names) && Unbound(names, s.labels))
      && (r.Ok? ==> r.value.entries == s.entries + (if rest == [] then [] else [Entry(4 * |s.entries|, rest)]))
      && (r.Ok? ==> forall l :: l in r.value.labels <==> l in s.labels || l in names)
      && (r.Ok? ==> forall l :: l in names ==> l in r.value.labels && r.value.labels[l] == 4 * |s.entries|)
  {
    var line := Strip(CutComments(raw));
    if line == [] then Ok(s)
    else
      var pc := 4 * |s.entries|;
      var t :- TakeLabels(line, s.labels, pc);
      if t.text == [] then Ok(Pass1(s.entries, t.labels))
      else
        assert (s.entries + [Entry(pc, t.text)])[..|s.entries|] == s.entries;
        Ok(Pass1(s.entries + [Entry(pc, t.text)], t.labels))
  }

  /** `preprocess`: the first pass over the lines, stopping at the first duplicate label. */
  function Scan(lines: seq<string>): Result<Pass1> {
    if lines == [] then Ok(Pass1([], map[]))
    else
      var s :- Scan(lines[..|lines| - 1]);
      ScanLine(s, lines[|lines| - 1])
  }

  /** `preprocess`, as the loop it is: the result is that of the first pass over the lines. */
  method Preprocess(lines: seq<string>) returns (r: Result<Pass1>)
    ensures r == Scan(lines)
  {
    var cleaned: seq<Entry> := [];
    var labels: map<string, nat> := map[];
    var pc: nat := 0;
    for i := 0 to |lines|
      invariant Scan(lines[..i]) == Ok(Pass1(cleaned, labels))
      invariant pc == 4 * |cleaned|
    {
      assert lines[..i + 1][..i] == lines[..i];
      var line := Strip(CutComments(lines[i]));
      if line == [] {
        continue;
      }
      ghost var start, before := line, labels;
      while true
        invariant TakeLabels(line, labels, pc) == TakeLabels(start, before, pc)
        decreases |line|
      {
        var m := LabelPrefix(line);
        if m.None? {
          break;
        }
        var name := m.value.0;
        if name in labels {
          ScanStops(lines, i + 1);
          return Err(DuplicateLabel);
        }
        labels := labels[name := pc];
        line := Strip(m.value.1);
      }
      if line == [] {
        continue;
      }
      cleaned := cleaned + [Entry(pc, line)];
      pc := pc + 4;
    }
    assert lines[..|lines|] == lines;
    r := Ok(Pass1(cleaned, labels));
  }

  /** Once a prefix of the lines fails, the whole pass fails the same way. */
  lemma {:induction false} ScanStops(lines: seq<string>, i: nat)
    requires i <= |lines| && Scan(lines[..i]).Err?
    ensures Scan(lines) == Scan(lines[..i])
    decreases |lines| - i
  {
    if i < |lines| {
      assert lines[..i + 1][..i] == lines[..i];
      ScanStops(lines, i + 1);
    } else {
      assert lines[..i] == lines;
    }
  }

  /**
   * After pass one, instruction i sits at address 4i and is not empty, and
   * every label stands for an address among 0, 4, ..., 4n for n
   * instructions.
   */
  predicate Numbered(p: Pass1) {
    (forall i :: 0 <= i < |p.entries| ==> p.entries[i].pc == 4 * i && p.entries[i].text != [])
    && (forall l :: l in p.labels ==> p.labels[l] % 4 == 0 && p.labels[l] <= 4 * |p.entries|)
  }

  /** Pass one over a non-empty list of lines is pass one over all but the last, then the last line. */
  lemma ScanLast(lines: seq<string>)
    requires lines != [] && Scan(lines).Ok?
    ensures Scan(lines[..|lines| - 1]).Ok?
    ensures Scan(lines) == ScanLine(Scan(lines[..|lines| - 1]).value, lines[|lines| - 1])
  {
  }

  /** One line keeps the instructions and the labels `Numbered`. */
  lemma LineNumbered(s: Pass1, raw: string)
    requires Numbered(s) && ScanLine(s, raw).Ok?
    ensures Numbered(ScanLine(s, raw).value)
  {
    LineEntries(s, raw);
    LineLabels(s, raw);
  }

  /** One line keeps instruction i at address 4i. */
  lemma LineEntries(s: Pass1, raw: string)
    requires Numbered(s) && ScanLine(s, raw).Ok?
    ensures var p := ScanLine(s, raw).value;
      forall i :: 0 <= i < |p.entries| ==> p.entries[i].pc == 4 * i && p.entries[i].text != []
  {
    var p := ScanLine(s, raw).value;
    forall i | 0 <= i < |p.entries|
      ensures p.entries[i].pc == 4 * i && p.entries[i].text != []
    {
      if i < |s.entries| {
        assert p.entries[i] == p.entries[..|s.entries|][i];
      }
    }
  }

  /** One line binds its labels to a multiple of 4 no further than the next instruction. */
  lemma LineLabels(s: Pass1, raw: string)
    requires Numbered(s) && ScanLine(s, raw).Ok?
    ensures var p := ScanLine(s, raw).value;
      forall l :: l in p.labels ==> p.labels[l] % 4 == 0 && p.labels[l] <= 4 * |p.entries|
  {
    LabelsBound(s, ScanLine(s, raw).value);
  }

  /**
   * Labels that stay as they were, or are new and bound to 4n for the n
   * instructions before, are multiples of 4 no further than the next
   * instruction.
   */
  lemma LabelsBound(s: Pass1, p: Pass1)
    requires forall l :: l in s.labels ==> s.labels[l] % 4 == 0 && s.labels[l] <= 4 * |s.entries|
    requires |s.entries| <= |p.entries|
    requires forall l :: l in s.labels ==> l in p.labels && p.labels[l] == s.labels[l]
    requires forall l :: l in p.labels && l !in s.labels ==> p.labels[l] == 4 * |s.entries|
    ensures forall l :: l in p.labels ==> p.labels[l] % 4 == 0 && p.labels[l] <= 4 * |p.entries|
  {
    var n := |s.entries|;
    assert (4 * n) % 4 == 0;
  }

  /** Pass one numbers the instructions and binds the labels as `Numbered` says. */
  lemma {:induction false} ScanNumbered(lines: seq<string>)
    requires Scan(lines).Ok?
    ensures Numbered(Scan(lines).value)
  {
    if lines != [] {
      ScanLast(lines);
      ScanNumbered(lines[..|lines| - 1]);
      LineNumbered(Scan(lines[..|lines| - 1]).value, lines[|lines| - 1]);
    }
  }

  /** q carries on from p: p's instructions come first in q, and q binds p's labels as p does. */
  predicate Extends(q: Pass1, p: Pass1) {
    |p.entries| <= |q.entries| && q.entries[..|p.entries|] == p.entries
    && forall l :: l in p.labels ==> l in q.labels && q.labels[l] == p.labels[l]
  }

  /** `Extends` is reflexive. */
  lemma ExtendsSelf(p: Pass1)
    ensures Extends(p, p)
  {
    assert p.entries[..|p.entries|] == p.entries;
  }

  /** `Extends` is transitive. */
  lemma ExtendsChain(p: Pass1, m: Pass1, q: Pass1)
    requires Extends(m, p) && Extends(q, m)
    ensures Extends(q, p)
  {
    assert q.entries[..|p.entries|] == q.entries[..|m.entries|][..|p.entries|];
  }

  /**
   * A prefix of lines that pass one accepts is accepted too, and its
   * instructions and labels are the first ones of the whole.
   */
  lemma {:induction false} ScanPrefix(lines: seq<string>, j: nat)
    requires Scan(lines).Ok? && j <= |lines|
    ensures Scan(lines[..j]).Ok?
    ensures Extends(Scan(lines).value, Scan(lines[..j]).value)
    decreases |lines|
  {
    if j == |lines| {
      assert lines[..j] == lines;
      ExtendsSelf(Scan(lines).value);
    } else {
      var init := lines[..|lines| - 1];
      ScanLast(lines);
      ScanPrefix(init, j);
      assert init[..j] == lines[..j];
      LineExtends(Scan(init).value, lines[|lines| - 1]);
      ExtendsChain(Scan(lines[..j]).value, Scan(init).value, Scan(lines).value);
    }
  }

  /** One line of pass one carries on from the state before it. */
  lemma LineExtends(s: Pass1, raw: string)
    requires ScanLine(s, raw).Ok?
    ensures Extends(ScanLine(s, raw).value, s)
  {
  }

  /**
   * A label defined on line k stands for the address of the first
   * instruction from line k on: the instructions before that address are
   * exactly those of the lines before k.
   */
  lemma LabelAddress(lines: seq<string>, k: nat, l: string)
    requires Scan(lines).Ok? && k < |lines|
    requires Scan(lines[..k]).Ok? && l !in Scan(lines[..k]).value.labels
    requires Scan(lines[..k + 1]).Ok? && l in Scan(lines[..k + 1]).value.labels
    ensures var n := |Scan(lines[..k]).value.entries|;
      l in Scan(lines).value.labels && Scan(lines).value.labels[l] == 4 * n
      && n <= |Scan(lines).value.entries| && Scan(lines).value.entries[..n] == Scan(lines[..k]).value.entries
  {
    ScanPrefix(lines, k + 1);
    ScanPrefix(lines, k);
    assert lines[..k + 1][..k] == lines[..k];
  }

  /** Pass one over the lines and one more is pass one over the lines, then a turn on the last. */
  lemma ScanAppend(lines: seq<string>, raw: string)
    requires Scan(lines).Ok?
    ensures Scan(lines + [raw]) == ScanLine(Scan(lines).value, raw)
  {
    assert (lines + [raw])[..|lines|] == lines;
  }

  /**
   * A line one of whose head labels is already bound, or that names the
   * same label twice, stops pass one with `DuplicateLabel`, wherever among
   * the line's labels the repeated name stands.
   */
  lemma DuplicateRejected(lines: seq<string>, raw: string)
    requires Scan(lines).Ok?
    requires var names := HeadLabels(Strip(CutComments(raw))).0;
      !Distinct(names) || !Unbound(names, Scan(lines).value.labels)
    ensures Scan(lines + [raw]) == Err(DuplicateLabel)
  {
    ScanAppend(lines, raw);
  }

  /**
   * A label written at the head of line k of a program that pass one
   * accepts is bound to 4n, where n is the number of instructions on the
   * lines before k: the address of the next instruction, which is the text
   * of line k after its labels when there is any.
   */
  lemma LabelDefined(lines: seq<string>, k: nat, l: string)
    requires Scan(lines).Ok? && k < |lines|
    requires l in HeadLabels(Strip(CutComments(lines[k]))).0
    ensures Scan(lines[..k]).Ok?
    ensures var n, p := |Scan(lines[..k]).value.entries|, Scan(lines).value;
      l in p.labels && p.labels[l] == 4 * n
      && n <= |p.entries| && p.entries[..n] == Scan(lines[..k]).value.entries
    ensures var n, p := |Scan(lines[..k]).value.entries|, Scan(lines).value;
      var rest := HeadLabels(Strip(CutComments(lines[k]))).1;
      rest != [] ==> n < |p.entries| && p.entries[n] == Entry(4 * n, rest)
  {
    NextLine(lines, k);
    LineDefines(Scan(lines[..k]).value, lines[k], l);
    LabelAddress(lines, k, l);
    NextInstruction(lines, k);
  }

  /**
   * The text left of line k after its labels, when there is any, is the
   * instruction that follows those of the lines before k, at 4 times their
   * number.
   */
  lemma NextInstruction(lines: seq<string>, k: nat)
    requires Scan(lines).Ok? && k < |lines|
    ensures Scan(lines[..k]).Ok?
    ensures var n, p := |Scan(lines[..k]).value.entries|, Scan(lines).value;
      var rest := HeadLabels(Strip(CutComments(lines[k]))).1;
      rest != [] ==> n < |p.entries| && p.entries[n] == Entry(4 * n, rest)
  {
    NextLine(lines, k);
    ScanPrefix(lines, k + 1);
    NextEntry(Scan(lines).value, Scan(lines[..k]).value, lines[k]);
  }

  /** The instruction one line adds stays in every later state, at the index it was added at. */
  lemma NextEntry(p: Pass1, s: Pass1, raw: string)
    requires ScanLine(s, raw).Ok? && Extends(p, ScanLine(s, raw).value)
    ensures var n, rest := |s.entries|, HeadLabels(Strip(CutComments(raw))).1;
      rest != [] ==> n < |p.entries| && p.entries[n] == Entry(4 * n, rest)
  {
    var q, n, rest := ScanLine(s, raw).value, |s.entries|, HeadLabels(Strip(CutComments(raw))).1;
    if rest != [] {
      assert q.entries == s.entries + [Entry(4 * n, rest)];
      assert p.entries[n] == p.entries[..|q.entries|][n];
    }
  }

  /** Pass one over the first k + 1 lines is pass one over the first k, then line k. */
  lemma NextLine(lines: seq<string>, k: nat)
    requires Scan(lines).Ok? && k < |lines|
    ensures Scan(lines[..k]).Ok? && Scan(lines[..k + 1]).Ok?
    ensures Scan(lines[..k + 1]) == ScanLine(Scan(lines[..k]).value, lines[k])
  {
    ScanPrefix(lines, k + 1);
    var pre := lines[..k + 1];
    ScanLast(pre);
    assert pre[..k] == lines[..k] && pre[k] == lines[k];
  }

  /** A label at the head of an accepted line was unbound before it and is bound to the next address. */
  lemma LineDefines(s: Pass1, raw: string, l: string)
    requires ScanLine(s, raw).Ok?
    requires l in HeadLabels(Strip(CutComments(raw))).0
    ensures l !in s.labels && l in ScanLine(s, raw).value.labels
    ensures ScanLine(s, raw).value.labels[l] == 4 * |s.entries|
    ensures var rest := HeadLabels(Strip(CutComments(raw))).1;
      rest != [] ==> ScanLine(s, raw).value.entries == s.entries + [Entry(4 * |s.entries|, rest)]
  {
    var names := HeadLabels(Strip(CutComments(raw))).0;
    var i :| 0 <= i < |names| && names[i] == l;
  }

  /** A blank or comment-only line changes nothing in pass one. */
  lemma BlankSkipped(lines: seq<string>, raw: string)
    requires Strip(CutComments(raw)) == []
    ensures Scan(lines + [raw]) == Scan(lines)
  {
    assert (lines + [raw])[..|lines|] == lines;
  }

  // ---------------------------------------------------------------------
  // Pass two: one instruction

  /** The token matches `-?(0x[0-9a-fA-F]+|\d+)`. */
  predicate IsNumeral(token: string) {
    IsHexLiteral(token) || IsDecimalLiteral(token)
  }

  /** A numeral has no blanks around it. */
  lemma NumeralStripped(token: string)
    requires IsNumeral(token)
    ensures Strip(token) == token
  {
    assert token[0] == '-' || IsDigit(token[0]);
    if IsHexLiteral(token) {
      var k := if token[0] == '-' then 3 else 2;
      assert IsHexDigit(token[k..][|token| - 1 - k]);
    } else {
      var k := if token[0] == '-' then 1 else 0;
      assert IsDigit(token[k..][|token| - 1 - k]);
    }
    StripNoSpace(token);
  }

  /**
   * `parse_imm_or_label`: a numeral is an immediate; any other token must be
   * a label, and stands for its address minus the address of the
   * instruction, so that pc plus the offset is the label's address.
   */
  function ImmOrLabel(token: string, pc: nat, labels: map<string, nat>): (r: Result<int>)
    ensures IsNumeral(token) ==> r.Ok?
    ensures !IsNumeral(token) ==> (r.Ok? <==> token in labels)
    ensures !IsNumeral(token) && r.Ok? ==> pc + r.value == labels[token]
    ensures r.Err? ==> r.error == UnknownLabel
  {
    if IsNumeral(token) then
      NumeralStripped(token);
      ParseImmediate(token)
    else if token !in labels then Err(UnknownLabel)
    else Ok(labels[token] - pc)
  }

  /** `re.match(r'^(-?\w+)\((\w+)\)$', token)`: the offset and the register of `offset(reg)`, filling the token. */
  function OffsetBase(token: string): Option<(string, string)> {
    match MatchOffsetBase(token)
    case Some((offset, base, rest)) => if rest == [] then Some((offset, base)) else None
    case None => None
  }

  /** `lui` and `auipc`: rd and a numeric immediate (no label). */
  function UpperWord(m: Mnemonic, ops: seq<string>): (r: Result<int>)
    requires m.IsUpper()
    ensures r.Err? ==> r.error != UnsupportedInstruction
    ensures r.Ok? ==> 0 <= r.value < 0x1_0000_0000
  {
    if |ops| != 2 then Err(WrongOperandCount)
    else
      var rd :- ParseRegister(ops[0]);
      var imm :- ParseImmediate(ops[1]);
      Ok(EncU(m, rd, imm))
  }

  /** `jal`: rd and an offset or label. */
  function JumpWord(m: Mnemonic, ops: seq<string>, pc: nat, labels: map<string, nat>): (r: Result<int>)
    requires ClassOf(m) == JalClass
    ensures r.Err? ==> r.error != UnsupportedInstruction
    ensures r.Ok? ==> 0 <= r.value < 0x1_0000_0000
  {
    if |ops| != 2 then Err(WrongOperandCount)
    else
      var rd :- ParseRegister(ops[0]);
      var imm :- ImmOrLabel(ops[1], pc, labels);
      EncJ(m, rd, imm)
  }

  /** `jalr` and the loads `lb`, `lh`, `lw`: rd and `offset(rs1)`, the offset a numeral or a label. */
  function OffsetWord(m: Mnemonic, ops: seq<string>, pc: nat, labels: map<string, nat>): (r: Result<int>)
    requires InFunct3Table(m)
    ensures r.Err? ==> r.error != UnsupportedInstruction
    ensures r.Ok? ==> 0 <= r.value < 0x1_0000_0000
  {
    if |ops| != 2 then Err(WrongOperandCount)
    else
      var rd :- ParseRegister(ops[0]);
      match OffsetBase(ops[1])
      case None => Err(BadOperandFormat)
      case Some((offset, base)) =>
        var imm :- ImmOrLabel(offset, pc, labels);
        var rs1 :- ParseRegister(base);
        Ok(EncI(m, rd, rs1, imm))
  }

  /** The stores: rs2 and `offset(rs1)`. */
  function StoreWord(m: Mnemonic, ops: seq<string>, pc: nat, labels: map<string, nat>): (r: Result<int>)
    requires m.IsStore()
    ensures r.Err? ==> r.error != UnsupportedInstruction
    ensures r.Ok? ==> 0 <= r.value < 0x1_0000_0000
  {
    if |ops| != 2 then Err(WrongOperandCount)
    else
      var rs2 :- ParseRegister(ops[0]);
      match OffsetBase(ops[1])
      case None => Err(BadOperandFormat)
      case Some((offset, base)) =>
        var imm :- ImmOrLabel(offset, pc, labels);
        var rs1 :- ParseRegister(base);
        Ok(EncS(m, rs2, rs1, imm))
  }

  /** The I-type ALU instructions: rd, rs1 and an immediate or label. */
  function AluWord(m: Mnemonic, ops: seq<string>, pc: nat, labels: map<string, nat>): (r: Result<int>)
    requires m.IsAluImmediate()
    ensures r.Err? ==> r.error != UnsupportedInstruction
    ensures r.Ok? ==> 0 <= r.value < 0x1_0000_0000
  {
    if |ops| != 3 then Err(WrongOperandCount)
    else
      var rd :- ParseRegister(ops[0]);
      var rs1 :- ParseRegister(ops[1]);
      var imm :- ImmOrLabel(ops[2], pc, labels);
      Ok(EncI(m, rd, rs1, imm))
  }

  /** The shifts: rd, rs1 and a numeric shift amount in 0..31. */
  function ShiftWord(m: Mnemonic, ops: seq<string>): (r: Result<int>)
    requires m.IsShiftImmediate()
    ensures r.Err? ==> r.error != UnsupportedInstruction
    ensures r.Ok? ==> 0 <= r.value < 0x1_0000_0000
  {
    if |ops| != 3 then Err(WrongOperandCount)
    else
      var rd :- ParseRegister(ops[0]);
      var rs1 :- ParseRegister(ops[1]);
      var imm :- ParseImmediate(ops[2]);
      if !(0 <= imm <= 31) then Err(ShiftOutOfRange)
      else Ok(EncI(m, rd, rs1, imm))
  }

  /** The branches: rs1, rs2 and an offset or label. */
  function BranchWord(m: Mnemonic, ops: seq<string>, pc: nat, labels: map<string, nat>): (r: Result<int>)
    requires m.IsBranch()
    ensures r.Err? ==> r.error != UnsupportedInstruction
    ensures r.Ok? ==> 0 <= r.value < 0x1_0000_0000
  {
    if |ops| != 3 then Err(WrongOperandCount)
    else
      var rs1 :- ParseRegister(ops[0]);
      var rs2 :- ParseRegister(ops[1]);
      var imm :- ImmOrLabel(ops[2], pc, labels);
      EncB(m, rs1, rs2, imm)
  }

  /** The R-type instructions: rd, rs1 and rs2. */
  function RegisterWord(m: Mnemonic, ops: seq<string>): (r: Result<int>)
    requires m.IsRegister()
    ensures r.Err? ==> r.error != UnsupportedInstruction
    ensures r.Ok? ==> 0 <= r.value < 0x1_0000_0000
  {
    if |ops| != 3 then Err(WrongOperandCount)
    else
      var rd :- ParseRegister(ops[0]);
      var rs1 :- ParseRegister(ops[1]);
      var rs2 :- ParseRegister(ops[2]);
      Ok(EncR(m, rd, rs1, rs2))
  }

  /**
   * The `if` chain of `assemble_instr` after `nop`: the mnemonics outside the
   * two-pass tables are unsupported, and every word is a 32-bit word.
   */
  function EncodeMnemonic(m: Mnemonic, ops: seq<string>, pc: nat, labels: map<string, nat>): (r: Result<int>)
    ensures r == Err(UnsupportedInstruction) <==> !m.InTwoPassTables()
    ensures r.Ok? ==> 0 <= r.value < 0x1_0000_0000
  {
    match ClassOf(m)
    case UpperClass => UpperWord(m, ops)
    case JalClass => JumpWord(m, ops, pc, labels)
    case JalrClass => OffsetWord(m, ops, pc, labels)
    case LoadClass => if m.InTwoPassTables() then OffsetWord(m, ops, pc, labels) else Err(UnsupportedInstruction)
    case StoreClass => StoreWord(m, ops, pc, labels)
    case AluImmediateClass => AluWord(m, ops, pc, labels)
    case ShiftClass => ShiftWord(m, ops)
    case BranchClass => BranchWord(m, ops, pc, labels)
    case RegisterClass => RegisterWord(m, ops)
    case _ => Err(UnsupportedInstruction)
  }

  /** The pseudo-instruction `nop`, then the mnemonics. */
  function Encode(name: string, ops: seq<string>, pc: nat, labels: map<string, nat>): Result<int> {
    if name == "nop" then Ok(EncI(Addi, 0, 0, 0))
    else
      match MnemonicOf(name)
      case None => Err(UnsupportedInstruction)
      case Some(m) => EncodeMnemonic(m, ops, pc, labels)
  }

  /** `assemble_instr`: split the text at commas and blanks, lower-case the mnemonic, encode. */
  function AssembleInstr(pc: nat, text: string, labels: map<string, nat>): (r: Result<int>)
    ensures r.Ok? ==> 0 <= r.value < 0x1_0000_0000
  {
    var parts := Split(Strip(text));
    Encode(Lower(parts[0]), NonEmpty(parts[1..]), pc, labels)
  }

  /** `nop`, whatever follows it, assembles to `addi x0, x0, 0`, the word 0x00000013. */
  lemma NopLine(pc: nat, text: string, labels: map<string, nat>)
    requires Lower(Split(Strip(text))[0]) == "nop"
    ensures AssembleInstr(pc, text, labels) == Ok(0x13)
  {
    NopWord();
  }

  /** The number of operands each mnemonic of the two-pass tables takes. */
  function Arity(m: Mnemonic): nat {
    match ClassOf(m)
    case UpperClass | JalClass | JalrClass | LoadClass | StoreClass => 2
    case _ => 3
  }

  /** Any other number of operands is refused before an operand is read. */
  lemma OperandCount(m: Mnemonic, ops: seq<string>, pc: nat, labels: map<string, nat>)
    requires m.InTwoPassTables() && |ops| != Arity(m)
    ensures EncodeMnemonic(m, ops, pc, labels) == Err(WrongOperandCount)
  {
  }

  /**
   * A load whose offset is a label reads the label's distance from the
   * instruction into its 12-bit immediate, so pc + immediate is the label's
   * address when the distance fits.
   */
  lemma LoadFromLabel(m: Mnemonic, ops: seq<string>, pc: nat, labels: map<string, nat>, rd: nat, l: string, base: string, rs1: nat)
    requires m.IsLoad() && m.InTwoPassTables() && |ops| == 2 && ParseRegister(ops[0]) == Ok(rd)
    requires OffsetBase(ops[1]) == Some((l, base)) && ParseRegister(base) == Ok(rs1)
    requires !IsNumeral(l) && l in labels && -2048 <= labels[l] - pc < 2048
    ensures EncodeMnemonic(m, ops, pc, labels).Ok?
    ensures var w := EncodeMnemonic(m, ops, pc, labels).value;
      OpcodeOf(w) == 0x03 && Funct3Of(w) == Funct3(m) && RdOf(w) == rd && Rs1Of(w) == rs1
      && pc + IImmediate(w) == labels[l]
  {
    var off := labels[l] - pc;
    LoadDispatch(m, ops, pc, labels, rd, l, base, rs1, off);
    LoadFields(m, rd, rs1, off);
  }

  lemma LoadDispatch(m: Mnemonic, ops: seq<string>, pc: nat, labels: map<string, nat>, rd: nat, l: string, base: string, rs1: nat, off: int)
    requires m.IsLoad() && m.InTwoPassTables() && |ops| == 2 && ParseRegister(ops[0]) == Ok(rd)
    requires OffsetBase(ops[1]) == Some((l, base)) && ParseRegister(base) == Ok(rs1)
    requires !IsNumeral(l) && l in labels && off == labels[l] - pc
    ensures EncodeMnemonic(m, ops, pc, labels) == Ok(EncI(m, rd, rs1, off))
  {
    assert ClassOf(m) == LoadClass;
    assert ImmOrLabel(l, pc, labels) == Ok(off);
  }

  lemma LoadFields(m: Mnemonic, rd: nat, rs1: nat, off: int)
    requires m.IsLoad() && m.InTwoPassTables() && rd < 32 && rs1 < 32 && -2048 <= off < 2048
    ensures var w := EncI(m, rd, rs1, off);
      OpcodeOf(w) == 0x03 && Funct3Of(w) == Funct3(m) && RdOf(w) == rd && Rs1Of(w) == rs1 && IImmediate(w) == off
  {
    assert ClassOf(m) == LoadClass;
    EncIFields(m, rd, rs1, off);
    Register(rd);
    Register(rs1);
  }

  /** A store with a label offset, likewise: the S-type immediate is the label's distance. */
  lemma StoreToLabel(m: Mnemonic, ops: seq<string>, pc: nat, labels: map<string, nat>, rs2: nat, l: string, base: string, rs1: nat)
    requires m.IsStore() && |ops| == 2 && ParseRegister(ops[0]) == Ok(rs2)
    requires OffsetBase(ops[1]) == Some((l, base)) && ParseRegister(base) == Ok(rs1)
    requires !IsNumeral(l) && l in labels && -2048 <= labels[l] - pc < 2048
    ensures EncodeMnemonic(m, ops, pc, labels).Ok?
    ensures var w := EncodeMnemonic(m, ops, pc, labels).value;
      OpcodeOf(w) == 0x23 && Funct3Of(w) == Funct3(m) && Rs1Of(w) == rs1 && Rs2Of(w) == rs2
      && pc + SImmediate(w) == labels[l]
  {
    var off := labels[l] - pc;
    StoreDispatch(m, ops, pc, labels, rs2, l, base, rs1, off);
    StoreFields(m, rs2, rs1, off);
  }

  lemma StoreDispatch(m: Mnemonic, ops: seq<string>, pc: nat, labels: map<string, nat>, rs2: nat, l: string, base: string, rs1: nat, off: int)
    requires m.IsStore() && |ops| == 2 && ParseRegister(ops[0]) == Ok(rs2)
    requires OffsetBase(ops[1]) == Some((l, base)) && ParseRegister(base) == Ok(rs1)
    requires !IsNumeral(l) && l in labels && off == labels[l] - pc
    ensures EncodeMnemonic(m, ops, pc, labels) == Ok(EncS(m, rs2, rs1, off))
  {
    assert ClassOf(m) == StoreClass;
    assert EncodeMnemonic(m, ops, pc, labels) == StoreWord(m, ops, pc, labels);
    StoreOperands(m, ops, pc, labels, rs2, l, base, rs1, off);
  }

  lemma StoreOperands(m: Mnemonic, ops: seq<string>, pc: nat, labels: map<string, nat>, rs2: nat, l: string, base: string, rs1: nat, off: int)
    requires m.IsStore() && |ops| == 2 && ParseRegister(ops[0]) == Ok(rs2)
    requires OffsetBase(ops[1]) == Some((l, base)) && ParseRegister(base) == Ok(rs1)
    requires !IsNumeral(l) && l in labels && off == labels[l] - pc
    ensures StoreWord(m, ops, pc, labels) == Ok(EncS(m, rs2, rs1, off))
  {
    assert ImmOrLabel(l, pc, labels) == Ok(off);
    StoreSteps(m, ops, pc, labels, rs2, l, base, rs1, off);
  }

  lemma StoreFields(m: Mnemonic, rs2: nat, rs1: nat, off: int)
    requires m.IsStore() && rs2 < 32 && rs1 < 32 && -2048 <= off < 2048
    ensures var w := EncS(m, rs2, rs1, off);
      OpcodeOf(w) == 0x23 && Funct3Of(w) == Funct3(m) && Rs1Of(w) == rs1 && Rs2Of(w) == rs2 && SImmediate(w) == off
  {
    assert ClassOf(m) == StoreClass;
    EncSFields(m, rs2, rs1, off);
    Register(rs2);
    Register(rs1);
  }

  /**
   * `jalr`, a load or a store whose second operand is not exactly
   * `offset(reg)` is refused once its first register has been read; unlike
   * the single-pass assembler, text after the `)` is not ignored.
   */
  lemma MalformedAddress(m: Mnemonic, ops: seq<string>, pc: nat, labels: map<string, nat>)
    requires m.InTwoPassTables() && (m == Jalr || m.IsLoad() || m.IsStore())
    requires |ops| == 2 && ParseRegister(ops[0]).Ok? && OffsetBase(ops[1]).None?
    ensures EncodeMnemonic(m, ops, pc, labels) == Err(BadOperandFormat)
  {
    if m == Jalr {
      assert ClassOf(m) == JalrClass;
    } else if m.IsLoad() {
      assert ClassOf(m) == LoadClass;
    } else {
      assert ClassOf(m) == StoreClass;
    }
  }

  /** An address operand followed by more text is not `offset(reg)` here. */
  lemma TrailingTextRefused(tok: string)
    requires MatchOffsetBase(tok).Some? && MatchOffsetBase(tok).value.2 != []
    ensures OffsetBase(tok).None?
  {
  }

  /** A shift amount outside 0..31 is refused; one inside it is encoded as given. */
  lemma ShiftRange(m: Mnemonic, ops: seq<string>, rd: nat, rs1: nat, shamt: int)
    requires m.IsShiftImmediate() && |ops| == 3
    requires ParseRegister(ops[0]) == Ok(rd) && ParseRegister(ops[1]) == Ok(rs1) && ParseImmediate(ops[2]) == Ok(shamt)
    ensures ShiftWord(m, ops) == if 0 <= shamt <= 31 then Ok(EncI(m, rd, rs1, shamt)) else Err(ShiftOutOfRange)
  {
  }

  /**
   * `jal rd, label` from an instruction at a multiple of 4 to a label at a
   * multiple of 4 within 1 MiB jumps to the label: pc plus the J-type
   * offset the word holds is the label's address.
   */
  lemma JumpToLabel(m: Mnemonic, ops: seq<string>, pc: nat, labels: map<string, nat>, rd: nat)
    requires m == Jal && |ops| == 2 && ParseRegister(ops[0]) == Ok(rd)
    requires !IsNumeral(ops[1]) && ops[1] in labels
    requires pc % 4 == 0 && labels[ops[1]] % 4 == 0 && -0x10_0000 <= labels[ops[1]] - pc < 0x10_0000
    ensures JumpWord(m, ops, pc, labels).Ok?
    ensures var w := JumpWord(m, ops, pc, labels).value;
      OpcodeOf(w) == 0x6F && RdOf(w) == rd && pc + JImmediate(w) == labels[ops[1]]
  {
    var off := labels[ops[1]] - pc;
    assert JumpWord(m, ops, pc, labels) == EncJ(m, rd, off) by {
      assert ClassOf(m) == JalClass;
      assert ImmOrLabel(ops[1], pc, labels) == Ok(off);
    }
    EvenDifference(labels[ops[1]], pc, off);
    JumpOffset(m, rd, off);
  }

  /** `loop: addi x1, x1, 1` then `jal x0, loop`: the jump at pc 4 to the label at 0 carries offset -4. */
  lemma LoopBack(ops: seq<string>, labels: map<string, nat>)
    requires ops == ["x0", "loop"] && labels == map["loop" := 0]
    ensures JumpWord(Jal, ops, 4, labels).Ok?
    ensures var w := JumpWord(Jal, ops, 4, labels).value; RdOf(w) == 0 && JImmediate(w) == -4
  {
    NumberedRegister(0);
    assert "x" + Digits(0, 10) == "x0";
    assert !IsHexLiteral("loop") && !IsDecimalLiteral("loop");
    JumpToLabel(Jal, ops, 4, labels, 0);
  }

  /** Two word addresses are an even distance apart. */
  lemma EvenDifference(a: int, b: int, d: int)
    requires a % 4 == 0 && b % 4 == 0 && d == a - b
    ensures d % 2 == 0
  {
    var x, y := a / 4, b / 4;
    assert a == 4 * x && b == 4 * y;
    var k := 2 * x - 2 * y;
    assert d == 2 * k;
  }

  /**
   * A branch to a label at a multiple of 4 within 4 KiB of an instruction
   * at a multiple of 4 lands on the label: pc plus the B-type offset the
   * word holds is the label's address.
   */
  lemma BranchToLabel(m: Mnemonic, ops: seq<string>, pc: nat, labels: map<string, nat>, rs1: nat, rs2: nat)
    requires m.IsBranch() && |ops| == 3 && ParseRegister(ops[0]) == Ok(rs1) && ParseRegister(ops[1]) == Ok(rs2)
    requires !IsNumeral(ops[2]) && ops[2] in labels
    requires pc % 4 == 0 && labels[ops[2]] % 4 == 0 && -0x1000 <= labels[ops[2]] - pc < 0x1000
    ensures BranchWord(m, ops, pc, labels).Ok?
    ensures var w := BranchWord(m, ops, pc, labels).value;
      OpcodeOf(w) == 0x63 && Funct3Of(w) == Funct3(m) && Rs1Of(w) == rs1 && Rs2Of(w) == rs2
      && pc + BImmediate(w) == labels[ops[2]]
  {
    var off := labels[ops[2]] - pc;
    BranchDispatch(m, ops, pc, labels, rs1, rs2);
    EvenDifference(labels[ops[2]], pc, off);
    BranchOffset(m, rs1, rs2, off);
  }

  /** A branch to a label encodes the distance from pc to the label. */
  lemma BranchDispatch(m: Mnemonic, ops: seq<string>, pc: nat, labels: map<string, nat>, rs1: nat, rs2: nat)
    requires m.IsBranch() && |ops| == 3 && ParseRegister(ops[0]) == Ok(rs1) && ParseRegister(ops[1]) == Ok(rs2)
    requires !IsNumeral(ops[2]) && ops[2] in labels
    ensures BranchWord(m, ops, pc, labels) == EncB(m, rs1, rs2, labels[ops[2]] - pc)
  {
    var imm := ImmOrLabel(ops[2], pc, labels);
    assert imm == Ok(labels[ops[2]] - pc);
    assert !ParseRegister(ops[0]).IsFailure() && ParseRegister(ops[0]).Extract() == rs1;
    assert !ParseRegister(ops[1]).IsFailure() && ParseRegister(ops[1]).Extract() == rs2;
    assert !imm.IsFailure() && imm.Extract() == labels[ops[2]] - pc;
  }

  // ---------------------------------------------------------------------
  // Instruction texts written in the usual form

  /**
   * An instruction text written in the usual form, a lower-case mnemonic
   * and operand tokens, is encoded as that mnemonic applied to exactly
   * those operands.
   */
  lemma UsualText(name: string, ops: seq<string>, pc: nat, labels: map<string, nat>)
    requires IsToken(name) && Lower(name) == name
    requires forall k :: 0 <= k < |ops| ==> IsToken(ops[k])
    ensures AssembleInstr(pc, Line(name, ops), labels) == Encode(name, ops, pc, labels)
  {
    var line := Line(name, ops);
    LineFacts(name, ops);
    StripNoSpace(line);
    SplitLine(name, ops);
    NonEmptyTokens(ops);
  }

  /** A usual text whose operands encode to w assembles to w. */
  lemma TextWord(name: string, ops: seq<string>, pc: nat, labels: map<string, nat>, w: int)
    requires IsToken(name) && Lower(name) == name
    requires forall k :: 0 <= k < |ops| ==> IsToken(ops[k])
    requires Encode(name, ops, pc, labels) == Ok(w)
    ensures AssembleInstr(pc, Line(name, ops), labels) == Ok(w)
  {
    UsualText(name, ops, pc, labels);
  }

  /** A name of the tables other than `nop` is encoded by its mnemonic's case of the dispatch. */
  lemma NamedMnemonic(name: string, m: Mnemonic, ops: seq<string>, pc: nat, labels: map<string, nat>)
    requires MnemonicOf(name) == Some(m)
    ensures Encode(name, ops, pc, labels) == EncodeMnemonic(m, ops, pc, labels)
  {
    assert MnemonicOf("nop").None?;
  }

  /**
   * A usual text whose mnemonic text names m is encoded by m's case of the
   * dispatch, applied to exactly its operands.
   */
  lemma NamedText(name: string, m: Mnemonic, ops: seq<string>, pc: nat, labels: map<string, nat>)
    requires MnemonicOf(name) == Some(m)
    requires forall k :: 0 <= k < |ops| ==> IsToken(ops[k])
    ensures AssembleInstr(pc, Line(name, ops), labels) == EncodeMnemonic(m, ops, pc, labels)
  {
    MnemonicText(name);
    UsualText(name, ops, pc, labels);
    NamedMnemonic(name, m, ops, pc, labels);
  }

  /** Registers in 0..31 read back from the R-type word, with the mnemonic's opcode, funct3 and funct7. */
  lemma RegisterFields(m: Mnemonic, rd: nat, rs1: nat, rs2: nat)
    requires m.IsRegister() && rd < 32 && rs1 < 32 && rs2 < 32
    ensures var w := EncR(m, rd, rs1, rs2);
      OpcodeOf(w) == Opcode(m) && RdOf(w) == rd && Funct3Of(w) == Funct3(m)
      && Rs1Of(w) == rs1 && Rs2Of(w) == rs2 && Funct7Of(w) == Funct7(m)
  {
    EncRFields(m, rd, rs1, rs2);
    Register(rd);
    Register(rs1);
    Register(rs2);
  }

  /** Registers in 0..31 and a signed 12-bit immediate read back from the I-type word. */
  lemma ImmediateFields(m: Mnemonic, rd: nat, rs1: nat, imm: int)
    requires InFunct3Table(m) && !m.IsShiftImmediate() && rd < 32 && rs1 < 32 && -2048 <= imm < 2048
    ensures var w := EncI(m, rd, rs1, imm);
      OpcodeOf(w) == Opcode(m) && RdOf(w) == rd && Funct3Of(w) == Funct3(m)
      && Rs1Of(w) == rs1 && IImmediate(w) == imm
  {
    EncIFields(m, rd, rs1, imm);
    Register(rd);
    Register(rs1);
  }

  /**
   * `op rd, rs1, rs2` for an R-type mnemonic assembles to the word whose
   * fields are the three registers and the mnemonic's opcode, funct3 and
   * funct7.
   */
  lemma RegisterText(name: string, pc: nat, labels: map<string, nat>, rd: nat, rs1: nat, rs2: nat)
    requires MnemonicOf(name).Some? && MnemonicOf(name).value.IsRegister()
    requires rd < 32 && rs1 < 32 && rs2 < 32
    ensures var m := MnemonicOf(name).value;
      var r := AssembleInstr(pc, Line(name, [RegisterName(rd), RegisterName(rs1), RegisterName(rs2)]), labels);
      r.Ok? && OpcodeOf(r.value) == Opcode(m) && RdOf(r.value) == rd && Funct3Of(r.value) == Funct3(m)
      && Rs1Of(r.value) == rs1 && Rs2Of(r.value) == rs2 && Funct7Of(r.value) == Funct7(m)
  {
    var m := MnemonicOf(name).value;
    var ops := [RegisterName(rd), RegisterName(rs1), RegisterName(rs2)];
    RegisterTokens(ops, rd, rs1, rs2);
    NamedText(name, m, ops, pc, labels);
    RegisterOperands(name, m, ops, pc, labels, rd, rs1, rs2);
    RegisterFields(m, rd, rs1, rs2);
  }

  lemma RegisterOperands(name: string, m: Mnemonic, ops: seq<string>, pc: nat, labels: map<string, nat>, rd: nat, rs1: nat, rs2: nat)
    requires MnemonicOf(name) == Some(m) && m.IsRegister() && |ops| == 3
    requires ParseRegister(ops[0]) == Ok(rd) && ParseRegister(ops[1]) == Ok(rs1) && ParseRegister(ops[2]) == Ok(rs2)
    ensures Encode(name, ops, pc, labels) == Ok(EncR(m, rd, rs1, rs2))
    ensures EncodeMnemonic(m, ops, pc, labels) == Ok(EncR(m, rd, rs1, rs2))
  {
    NamedMnemonic(name, m, ops, pc, labels);
    RegisterCase(m, ops, pc, labels);
    RegisterSteps(m, ops, rd, rs1, rs2);
  }

  /** An R-type mnemonic is encoded by the R-type case of the dispatch. */
  lemma RegisterCase(m: Mnemonic, ops: seq<string>, pc: nat, labels: map<string, nat>)
    requires m.IsRegister()
    ensures EncodeMnemonic(m, ops, pc, labels) == RegisterWord(m, ops)
  {
    assert ClassOf(m) == RegisterClass;
  }

  lemma RegisterSteps(m: Mnemonic, ops: seq<string>, rd: nat, rs1: nat, rs2: nat)
    requires m.IsRegister() && |ops| == 3
    requires ParseRegister(ops[0]) == Ok(rd) && ParseRegister(ops[1]) == Ok(rs1) && ParseRegister(ops[2]) == Ok(rs2)
    ensures RegisterWord(m, ops) == Ok(EncR(m, rd, rs1, rs2))
  {
    assert !ParseRegister(ops[0]).IsFailure() && ParseRegister(ops[0]).Extract() == rd;
    assert !ParseRegister(ops[1]).IsFailure() && ParseRegister(ops[1]).Extract() == rs1;
    assert !ParseRegister(ops[2]).IsFailure() && ParseRegister(ops[2]).Extract() == rs2;
  }

  /**
   * `op rd, rs1, t` for an I-type ALU mnemonic, where t is a numeral or a
   * label that `ImmOrLabel` reads as an immediate in the signed 12-bit
   * range, assembles to the word whose fields are the registers and whose
   * immediate reads back as that value.
   */
  lemma AluText(name: string, pc: nat, labels: map<string, nat>, rd: nat, rs1: nat, t: string, imm: int)
    requires MnemonicOf(name).Some? && MnemonicOf(name).value.IsAluImmediate()
    requires rd < 32 && rs1 < 32 && IsToken(t)
    requires ImmOrLabel(t, pc, labels) == Ok(imm) && -2048 <= imm < 2048
    ensures var m := MnemonicOf(name).value;
      var r := AssembleInstr(pc, Line(name, [RegisterName(rd), RegisterName(rs1), t]), labels);
      r.Ok? && OpcodeOf(r.value) == Opcode(m) && RdOf(r.value) == rd && Funct3Of(r.value) == Funct3(m)
      && Rs1Of(r.value) == rs1 && IImmediate(r.value) == imm
  {
    var m := MnemonicOf(name).value;
    var ops := [RegisterName(rd), RegisterName(rs1), t];
    RegisterNameToken(rd);
    RegisterNameToken(rs1);
    NamedText(name, m, ops, pc, labels);
    AluOperands(name, m, ops, pc, labels, rd, rs1, imm);
    ImmediateFields(m, rd, rs1, imm);
  }

  lemma AluOperands(name: string, m: Mnemonic, ops: seq<string>, pc: nat, labels: map<string, nat>, rd: nat, rs1: nat, imm: int)
    requires MnemonicOf(name) == Some(m) && m.IsAluImmediate() && |ops| == 3
    requires ParseRegister(ops[0]) == Ok(rd) && ParseRegister(ops[1]) == Ok(rs1) && ImmOrLabel(ops[2], pc, labels) == Ok(imm)
    ensures InFunct3Table(m) && !m.IsShiftImmediate()
    ensures EncodeMnemonic(m, ops, pc, labels) == Ok(EncI(m, rd, rs1, imm))
  {
    assert ClassOf(m) == AluImmediateClass;
    assert EncodeMnemonic(m, ops, pc, labels) == AluWord(m, ops, pc, labels);
    assert !ParseRegister(ops[0]).IsFailure() && ParseRegister(ops[0]).Extract() == rd;
    assert !ParseRegister(ops[1]).IsFailure() && ParseRegister(ops[1]).Extract() == rs1;
    assert !ImmOrLabel(ops[2], pc, labels).IsFailure() && ImmOrLabel(ops[2], pc, labels).Extract() == imm;
  }

  /**
   * `op rd, rs1, t` for a shift, where t is a numeral for an amount in
   * 0..31, assembles to the word whose rs2 field is the amount and whose
   * funct7 field is the mnemonic's.
   */
  lemma ShiftText(name: string, pc: nat, labels: map<string, nat>, rd: nat, rs1: nat, t: string, shamt: int)
    requires MnemonicOf(name).Some? && MnemonicOf(name).value.IsShiftImmediate()
    requires rd < 32 && rs1 < 32 && IsToken(t)
    requires ParseImmediate(t) == Ok(shamt) && 0 <= shamt < 32
    ensures var m := MnemonicOf(name).value;
      var r := AssembleInstr(pc, Line(name, [RegisterName(rd), RegisterName(rs1), t]), labels);
      r.Ok? && OpcodeOf(r.value) == Opcode(m) && RdOf(r.value) == rd && Funct3Of(r.value) == Funct3(m)
      && Rs1Of(r.value) == rs1 && Rs2Of(r.value) == shamt && Funct7Of(r.value) == Funct7(m)
  {
    var m := MnemonicOf(name).value;
    var ops := [RegisterName(rd), RegisterName(rs1), t];
    RegisterNameToken(rd);
    RegisterNameToken(rs1);
    NamedText(name, m, ops, pc, labels);
    ShiftOperands(m, ops, pc, labels, rd, rs1, shamt);
    ShiftFields(m, rd, rs1, shamt);
  }

  lemma ShiftOperands(m: Mnemonic, ops: seq<string>, pc: nat, labels: map<string, nat>, rd: nat, rs1: nat, shamt: int)
    requires m.IsShiftImmediate() && |ops| == 3 && 0 <= shamt < 32
    requires ParseRegister(ops[0]) == Ok(rd) && ParseRegister(ops[1]) == Ok(rs1) && ParseImmediate(ops[2]) == Ok(shamt)
    ensures EncodeMnemonic(m, ops, pc, labels) == Ok(EncI(m, rd, rs1, shamt))
  {
    assert ClassOf(m) == ShiftClass;
    ShiftRange(m, ops, rd, rs1, shamt);
  }

  /** Registers in 0..31 and the amount read back from a shift's word, with the mnemonic's funct7. */
  lemma ShiftFields(m: Mnemonic, rd: nat, rs1: nat, shamt: int)
    requires m.IsShiftImmediate() && rd < 32 && rs1 < 32 && 0 <= shamt < 32
    ensures var w := EncI(m, rd, rs1, shamt);
      OpcodeOf(w) == Opcode(m) && RdOf(w) == rd && Funct3Of(w) == Funct3(m)
      && Rs1Of(w) == rs1 && Rs2Of(w) == shamt && Funct7Of(w) == Funct7(m)
  {
    EncIShiftFields(m, rd, rs1, shamt);
    Register(rd);
    Register(rs1);
  }

  /**
   * `op rd, t` for `lui` or `auipc`, where t is a numeral, assembles to the
   * word whose rd field is rd and whose upper 20 bits are the value modulo
   * 2^20.
   */
  lemma UpperText(name: string, pc: nat, labels: map<string, nat>, rd: nat, t: string, imm: int)
    requires MnemonicOf(name).Some? && MnemonicOf(name).value.IsUpper()
    requires rd < 32 && IsToken(t) && ParseImmediate(t) == Ok(imm)
    ensures var m := MnemonicOf(name).value;
      var r := AssembleInstr(pc, Line(name, [RegisterName(rd), t]), labels);
      r.Ok? && OpcodeOf(r.value) == Opcode(m) && RdOf(r.value) == rd && UField(r.value) == imm % 0x10_0000
  {
    var m := MnemonicOf(name).value;
    var ops := [RegisterName(rd), t];
    RegisterNameToken(rd);
    NamedText(name, m, ops, pc, labels);
    EncUFields(m, rd, imm);
    Register(rd);
  }

  /**
   * `op rd, a` for `jalr` or a load of the tables, where the address token
   * a is `offset(base)`, the offset a numeral or a label read as a signed
   * 12-bit immediate and the base a register, assembles to the word whose
   * fields are rd, the base register and that immediate.
   */
  lemma AddressText(name: string, m: Mnemonic, pc: nat, labels: map<string, nat>, rd: nat, a: string, offset: string, base: string, rs1: nat, imm: int)
    requires MnemonicOf(name) == Some(m) && (m == Jalr || (m.IsLoad() && m.InTwoPassTables()))
    requires rd < 32 && IsToken(a) && OffsetBase(a) == Some((offset, base))
    requires ImmOrLabel(offset, pc, labels) == Ok(imm) && -2048 <= imm < 2048 && ParseRegister(base) == Ok(rs1)
    ensures var r := AssembleInstr(pc, Line(name, [RegisterName(rd), a]), labels);
      r.Ok? && OpcodeOf(r.value) == Opcode(m) && RdOf(r.value) == rd && Funct3Of(r.value) == Funct3(m)
      && Rs1Of(r.value) == rs1 && IImmediate(r.value) == imm
  {
    var ops := [RegisterName(rd), a];
    RegisterNameToken(rd);
    NamedText(name, m, ops, pc, labels);
    AddressOperands(name, m, ops, pc, labels, rd, offset, base, rs1, imm);
    ImmediateFields(m, rd, rs1, imm);
  }

  lemma AddressOperands(name: string, m: Mnemonic, ops: seq<string>, pc: nat, labels: map<string, nat>,
                        rd: nat, offset: string, base: string, rs1: nat, imm: int)
    requires MnemonicOf(name) == Some(m) && (m == Jalr || (m.IsLoad() && m.InTwoPassTables())) && |ops| == 2
    requires ParseRegister(ops[0]) == Ok(rd) && OffsetBase(ops[1]) == Some((offset, base))
    requires ImmOrLabel(offset, pc, labels) == Ok(imm) && ParseRegister(base) == Ok(rs1)
    ensures InFunct3Table(m) && !m.IsShiftImmediate()
    ensures EncodeMnemonic(m, ops, pc, labels) == Ok(EncI(m, rd, rs1, imm))
  {
    AddressDispatch(m, ops, pc, labels);
    OffsetSteps(m, ops, pc, labels, rd, offset, base, rs1, imm);
  }

  /** `jalr` and the loads of the tables share the `offset(base)` case of the dispatch. */
  lemma AddressDispatch(m: Mnemonic, ops: seq<string>, pc: nat, labels: map<string, nat>)
    requires m == Jalr || (m.IsLoad() && m.InTwoPassTables())
    ensures InFunct3Table(m) && !m.IsShiftImmediate()
    ensures EncodeMnemonic(m, ops, pc, labels) == OffsetWord(m, ops, pc, labels)
  {
    if m == Jalr {
      assert ClassOf(m) == JalrClass;
    } else {
      assert ClassOf(m) == LoadClass;
    }
  }

  lemma OffsetSteps(m: Mnemonic, ops: seq<string>, pc: nat, labels: map<string, nat>,
                    rd: nat, offset: string, base: string, rs1: nat, imm: int)
    requires InFunct3Table(m) && |ops| == 2 && ParseRegister(ops[0]) == Ok(rd) && OffsetBase(ops[1]) == Some((offset, base))
    requires ImmOrLabel(offset, pc, labels) == Ok(imm) && ParseRegister(base) == Ok(rs1)
    ensures OffsetWord(m, ops, pc, labels) == Ok(EncI(m, rd, rs1, imm))
  {
    assert !ParseRegister(ops[0]).IsFailure() && ParseRegister(ops[0]).Extract() == rd;
    assert !ImmOrLabel(offset, pc, labels).IsFailure() && ImmOrLabel(offset, pc, labels).Extract() == imm;
    assert !ParseRegister(base).IsFailure() && ParseRegister(base).Extract() == rs1;
  }

  /**
   * `op rs2, a` for a store, with the address token a as for the loads,
   * assembles to the word whose fields are the two registers and whose
   * S-type immediate reads back as the offset.
   */
  lemma StoreText(name: string, pc: nat, labels: map<string, nat>, rs2: nat, a: string, offset: string, base: string, rs1: nat, imm: int)
    requires MnemonicOf(name).Some? && MnemonicOf(name).value.IsStore()
    requires rs2 < 32 && IsToken(a) && OffsetBase(a) == Some((offset, base))
    requires ImmOrLabel(offset, pc, labels) == Ok(imm) && -2048 <= imm < 2048 && ParseRegister(base) == Ok(rs1)
    ensures var m := MnemonicOf(name).value;
      var r := AssembleInstr(pc, Line(name, [RegisterName(rs2), a]), labels);
      r.Ok? && OpcodeOf(r.value) == Opcode(m) && Funct3Of(r.value) == Funct3(m)
      && Rs1Of(r.value) == rs1 && Rs2Of(r.value) == rs2 && SImmediate(r.value) == imm
  {
    var m := MnemonicOf(name).value;
    var ops := [RegisterName(rs2), a];
    RegisterNameToken(rs2);
    NamedText(name, m, ops, pc, labels);
    StoreAddress(m, ops, pc, labels, rs2, offset, base, rs1, imm);
    StoreWordFields(m, rs2, rs1, imm);
  }

  lemma StoreAddress(m: Mnemonic, ops: seq<string>, pc: nat, labels: map<string, nat>,
                     rs2: nat, offset: string, base: string, rs1: nat, imm: int)
    requires m.IsStore() && |ops| == 2 && ParseRegister(ops[0]) == Ok(rs2) && OffsetBase(ops[1]) == Some((offset, base))
    requires ImmOrLabel(offset, pc, labels) == Ok(imm) && ParseRegister(base) == Ok(rs1)
    ensures InFunct3Table(m) && EncodeMnemonic(m, ops, pc, labels) == Ok(EncS(m, rs2, rs1, imm))
  {
    assert ClassOf(m) == StoreClass;
    assert EncodeMnemonic(m, ops, pc, labels) == StoreWord(m, ops, pc, labels);
    StoreSteps(m, ops, pc, labels, rs2, offset, base, rs1, imm);
  }

  lemma StoreSteps(m: Mnemonic, ops: seq<string>, pc: nat, labels: map<string, nat>,
                   rs2: nat, offset: string, base: string, rs1: nat, imm: int)
    requires m.IsStore() && |ops| == 2 && ParseRegister(ops[0]) == Ok(rs2) && OffsetBase(ops[1]) == Some((offset, base))
    requires ImmOrLabel(offset, pc, labels) == Ok(imm) && ParseRegister(base) == Ok(rs1)
    ensures StoreWord(m, ops, pc, labels) == Ok(EncS(m, rs2, rs1, imm))
  {
    assert !ParseRegister(ops[0]).IsFailure() && ParseRegister(ops[0]).Extract() == rs2;
    assert !ImmOrLabel(offset, pc, labels).IsFailure() && ImmOrLabel(offset, pc, labels).Extract() == imm;
    assert !ParseRegister(base).IsFailure() && ParseRegister(base).Extract() == rs1;
  }

  /** Registers in 0..31 and a signed 12-bit offset read back from the S-type word. */
  lemma StoreWordFields(m: Mnemonic, rs2: nat, rs1: nat, imm: int)
    requires InFunct3Table(m) && rs2 < 32 && rs1 < 32 && -2048 <= imm < 2048
    ensures var w := EncS(m, rs2, rs1, imm);
      OpcodeOf(w) == Opcode(m) && Funct3Of(w) == Funct3(m) && Rs1Of(w) == rs1 && Rs2Of(w) == rs2 && SImmediate(w) == imm
  {
    EncSFields(m, rs2, rs1, imm);
    Register(rs2);
    Register(rs1);
  }

  /**
   * `jal rd, l` with l a label at a multiple of 4 within 1 MiB of the
   * instruction, itself at a multiple of 4, assembles to the jump that
   * lands on the label: pc plus the word's J-type offset is l's address.
   */
  lemma JumpText(pc: nat, labels: map<string, nat>, rd: nat, l: string)
    requires rd < 32 && IsToken(l) && !IsNumeral(l) && l in labels
    requires pc % 4 == 0 && labels[l] % 4 == 0 && -0x10_0000 <= labels[l] - pc < 0x10_0000
    ensures var r := AssembleInstr(pc, Line("jal", [RegisterName(rd), l]), labels);
      r.Ok? && OpcodeOf(r.value) == 0x6F && RdOf(r.value) == rd && pc + JImmediate(r.value) == labels[l]
  {
    var ops := [RegisterName(rd), l];
    assert MnemonicOf("jal") == Some(Jal) && ClassOf(Jal) == JalClass;
    RegisterNameToken(rd);
    NamedText("jal", Jal, ops, pc, labels);
    JumpToLabel(Jal, ops, pc, labels, rd);
  }

  /**
   * `op rs1, rs2, l` for a branch, with l a label at a multiple of 4 within
   * 4 KiB of the instruction, itself at a multiple of 4, assembles to the
   * branch that lands on the label: pc plus the word's B-type offset is
   * l's address.
   */
  lemma BranchText(name: string, pc: nat, labels: map<string, nat>, rs1: nat, rs2: nat, l: string)
    requires MnemonicOf(name).Some? && MnemonicOf(name).value.IsBranch()
    requires rs1 < 32 && rs2 < 32 && IsToken(l) && !IsNumeral(l) && l in labels
    requires pc % 4 == 0 && labels[l] % 4 == 0 && -0x1000 <= labels[l] - pc < 0x1000
    ensures var m := MnemonicOf(name).value;
      var r := AssembleInstr(pc, Line(name, [RegisterName(rs1), RegisterName(rs2), l]), labels);
      r.Ok? && OpcodeOf(r.value) == 0x63 && Funct3Of(r.value) == Funct3(m)
      && Rs1Of(r.value) == rs1 && Rs2Of(r.value) == rs2 && pc + BImmediate(r.value) == labels[l]
  {
    var m := MnemonicOf(name).value;
    var ops := [RegisterName(rs1), RegisterName(rs2), l];
    RegisterNameToken(rs1);
    RegisterNameToken(rs2);
    NamedText(name, m, ops, pc, labels);
    BranchToLabel(m, ops, pc, labels, rs1, rs2);
  }

  // ---------------------------------------------------------------------
  // Pass two over the program, and the output files

  /** The outcome of assembling each instruction at its address. */
  function Outcomes(entries: seq<Entry>, labels: map<string, nat>): (outs: seq<Result<int>>)
    ensures |outs| == |entries|
  {
    seq(|entries|, i requires 0 <= i < |entries| => AssembleInstr(entries[i].pc, entries[i].text, labels))
  }

  /** The pass-two loop over the outcomes: the words in order, or the first error. */
  function Gather(outs: seq<Result<int>>): Result<seq<int>> {
    if outs == [] then Ok([])
    else
      var words :- Gather(outs[..|outs| - 1]);
      var w :- outs[|outs| - 1];
      Ok(words + [w])
  }

  /** Pass two gives a word exactly when every instruction assembles: one word per instruction, in order. */
  lemma {:induction false} GatherAll(outs: seq<Result<int>>)
    ensures Gather(outs).Ok? <==> forall k :: 0 <= k < |outs| ==> outs[k].Ok?
    ensures Gather(outs).Ok? ==>
      |Gather(outs).value| == |outs| && forall k :: 0 <= k < |outs| ==> Gather(outs).value[k] == outs[k].value
  {
    if outs != [] {
      var init := outs[..|outs| - 1];
      GatherAll(init);
      assert forall k :: 0 <= k < |init| ==> init[k] == outs[k];
    }
  }

  /** When instruction n is the first to fail, pass two fails with its error. */
  lemma {:induction false} GatherFirstError(outs: seq<Result<int>>, n: nat)
    requires n < |outs| && outs[n].Err? && forall k :: 0 <= k < n ==> outs[k].Ok?
    ensures Gather(outs) == Err(outs[n].error)
  {
    var init := outs[..|outs| - 1];
    if n < |init| {
      GatherFirstError(init, n);
    } else {
      GatherAll(init);
    }
  }

  /** Once a prefix of the outcomes fails, pass two fails the same way. */
  lemma {:induction false} GatherStops(outs: seq<Result<int>>, i: nat)
    requires i <= |outs| && Gather(outs[..i]).Err?
    ensures Gather(outs) == Gather(outs[..i])
    decreases |outs| - i
  {
    if i < |outs| {
      assert outs[..i + 1][..i] == outs[..i];
      GatherStops(outs, i + 1);
    } else {
      assert outs[..i] == outs;
    }
  }

  /** Both passes: the machine words of the program, or the first error. */
  function Program(lines: seq<string>): Result<seq<int>> {
    var p :- Scan(lines);
    Gather(Outcomes(p.entries, p.labels))
  }

  /**
   * The words of a program are 32-bit words, one per instruction pass one
   * found, each the word of that instruction at its address.
   */
  lemma ProgramWords(lines: seq<string>)
    requires Program(lines).Ok?
    ensures Scan(lines).Ok?
    ensures var p, words := Scan(lines).value, Program(lines).value;
      |words| == |p.entries| && AllWords(words)
      && forall i :: 0 <= i < |words| ==> Ok(words[i]) == AssembleInstr(p.entries[i].pc, p.entries[i].text, p.labels)
  {
    var p := Scan(lines).value;
    var outs := Outcomes(p.entries, p.labels);
    GatherAll(outs);
  }

  /**
   * `assemble_file` on the lines read from the input: both passes, then the
   * text file (each word as 32 binary digits and a newline) and the COE
   * file (a header, then each word as 8 hex digits, followed by `,` and a
   * newline, the last by `;`). On an error nothing is written.
   */
  method AssembleFile(lines: seq<string>) returns (r: Result<(string, string)>)
    ensures r.Ok? <==> Program(lines).Ok?
    ensures r.Ok? ==> r.value == (TextFile(Program(lines).value), CoeFile(Program(lines).value))
    ensures r.Err? ==> r.error == Program(lines).error
  {
    var pass1 := Preprocess(lines);
    if pass1.Err? {
      return Err(pass1.error);
    }
    var entries, labels := pass1.value.entries, pass1.value.labels;
    ghost var outs := Outcomes(entries, labels);
    var machine: seq<int> := [];
    for i := 0 to |entries|
      invariant Gather(outs[..i]) == Ok(machine)
    {
      assert outs[..i + 1][..i] == outs[..i];
      var code := AssembleInstr(entries[i].pc, entries[i].text, labels);
      assert outs[i] == code;
      if code.Err? {
        GatherStops(outs, i + 1);
        return Err(code.error);
      }
      machine := machine + [code.value];
    }
    assert outs[..|entries|] == outs;
    var txt := WriteText(machine);
    var coe := WriteCoe(machine);
    r := Ok((txt, coe));
  }

  /** The text file: one line of 32 binary digits per word. */
  method WriteText(machine: seq<int>) returns (txt: string)
    ensures txt == TextFile(machine)
  {
    txt := [];
    for k := 0 to |machine|
      invariant txt == Concat(TextLines(machine[..k]))
    {
      TextLinesStep(machine, k);
      txt := txt + (Binary032(machine[k]) + "\n");
    }
    assert machine[..|machine|] == machine;
  }

  /** The COE file: the header, then the words in hex, separated by `,` and a newline and ended by `;`. */
  method WriteCoe(machine: seq<int>) returns (coe: string)
    ensures coe == CoeFile(machine)
  {
    var body: string := [];
    for i := 0 to |machine|
      invariant body == Concat(Terminated(HexWords(machine))[..i])
    {
      var entry := if i == |machine| - 1 then Hex08(machine[i]) + ";" else Hex08(machine[i]) + ",\n";
      CoeStep(machine, i);
      body := body + entry;
    }
    assert Terminated(HexWords(machine))[..|machine|] == Terminated(HexWords(machine));
    coe := CoeHeader + body;
  }

  /** The COE vector of a prefix of the words grows by one entry per word. */
  lemma CoeStep(words: seq<int>, i: nat)
    requires i < |words|
    ensures Concat(Terminated(HexWords(words))[..i + 1])
      == Concat(Terminated(HexWords(words))[..i])
         + (if i == |words| - 1 then Hex08(words[i]) + ";" else Hex08(words[i]) + ",\n")
  {
    var e := Terminated(HexWords(words));
    assert e[..i + 1][..i] == e[..i];
  }
}
