/** CIGAR strings, the run-length alignment description of field 6 of the
    SAM/BAM Format Specification (section 1.4), and the way
    annotation-station/bam_utils.py tokenizes them.

    The source does not scan the string: it splits it twice with regular
    expressions, once at every operation letter (which leaves the counts) and
    once at every run of decimal digits (which leaves the operation letters),
    drops the last piece of the first split and the first piece of the
    second, and zips the two lists. Both splits are modelled exactly, so the
    model also says what happens to strings that are not well formed. */
module Cigar {
  import opened Outcomes
  import opened Strings

  /** An operation identifier: one of the nine letters of the SAM alphabet
      (`Eq` is `=`), or any other text the digit split leaves between two
      counts of a malformed string. */
  datatype Op = M | I | D | N | S | H | P | Eq | X | Other(text: string)

  /** A run as the source converts it: `int()` of the count text, which
      may carry a sign, and the identifier. */
  datatype Run = Run(count: int, op: Op)

  /** The three operation classes, in the order the walk tests them. */
  predicate ConsumesBoth(op: Op) { op == M || op == X || op == Eq }
  predicate ConsumesReferenceOnly(op: Op) { op == N || op == D }
  predicate ConsumesReadOnly(op: Op) { op == I || op == S || op == H || op == P }

  /** The letters the operation-letter split cuts at. */
  predicate IsOpChar(c: char) {
    c == 'M' || c == 'X' || c == '=' || c == 'N' || c == 'D'
    || c == 'I' || c == 'S' || c == 'H' || c == 'P'
  }

  function OpText(op: Op): string {
    match op
    case M => "M" case I => "I" case D => "D" case N => "N" case S => "S"
    case H => "H" case P => "P" case Eq => "=" case X => "X"
    case Other(t) => t
  }

  /** The identifier a piece of the digit split stands for. */
  function OpOf(text: string): (op: Op)
    ensures OpText(op) == text
  {
    if text == "M" then M else if text == "I" then I else if text == "D" then D
    else if text == "N" then N else if text == "S" then S else if text == "H" then H
    else if text == "P" then P else if text == "=" then Eq else if text == "X" then X
    else Other(text)
  }

  /** Runs a SAM record can hold: a non-negative length and one of the nine
      operations. */
  predicate WellFormed(runs: seq<Run>) {
    forall k :: 0 <= k < |runs| ==> runs[k].count >= 0 && !runs[k].op.Other?
  }

  /** The CIGAR text of a sequence of runs: each count in decimal, then its letter. */
  function Render(runs: seq<Run>): string
    decreases |runs|
  {
    if runs == [] then "" else IntToString(runs[0].count) + OpText(runs[0].op) + Render(runs[1..])
  }

  // ---------------------------------------------------------------------------
  // The two regular-expression splits

  predicate NoOpLetter(t: string) {
    forall i :: 0 <= i < |t| ==> !IsOpChar(t[i])
  }

  /** The number of operation letters in `s`. */
  function OpLetters(s: string): nat
    decreases |s|
  {
    if s == [] then 0 else (if IsOpChar(s[0]) then 1 else 0) + OpLetters(s[1..])
  }

  /** `re.split(r'M|X|=|N|D|I|S|H|P', s)`: one more piece than there are
      operation letters, none of them holding one. */
  function SplitAtOps(s: string): (parts: seq<string>)
    ensures |parts| == OpLetters(s) + 1
    ensures forall k :: 0 <= k < |parts| ==> NoOpLetter(parts[k])
    decreases |s|
  {
    if s == [] then [""]
    else
      var rest := SplitAtOps(s[1..]);
      if IsOpChar(s[0]) then
        assert forall k :: 0 < k <= |rest| ==> ([""] + rest)[k] == rest[k - 1];
        [""] + rest
      else
        var first := [s[0]] + rest[0];
        assert NoOpLetter(first) by {
          assert forall i :: 0 < i < |first| ==> first[i] == rest[0][i - 1];
        }
        assert forall k :: 1 <= k < |rest| ==> ([first] + rest[1..])[k] == rest[k];
        [first] + rest[1..]
  }

  predicate NoDigit(t: string) {
    forall i :: 0 <= i < |t| ==> !IsDigit(t[i])
  }

  /** `s` without its leading run of decimal digits. */
  function DropDigits(s: string): (r: string)
    ensures |r| <= |s|
    ensures s != [] && IsDigit(s[0]) ==> |r| < |s|
    decreases |s|
  {
    if s != [] && IsDigit(s[0]) then DropDigits(s[1..]) else s
  }

  /** `re.split(r'[0-9]+', s)`: the pieces between maximal runs of digits,
      none of them holding a digit. */
  function SplitAtDigitRuns(s: string): (parts: seq<string>)
    ensures |parts| >= 1
    ensures forall k :: 0 <= k < |parts| ==> NoDigit(parts[k])
    decreases |s|
  {
    if s == [] then [""]
    else if IsDigit(s[0]) then
      var rest := SplitAtDigitRuns(DropDigits(s));
      assert forall k :: 0 < k <= |rest| ==> ([""] + rest)[k] == rest[k - 1];
      [""] + rest
    else
      var rest := SplitAtDigitRuns(s[1..]);
      var first := [s[0]] + rest[0];
      assert NoDigit(first) by {
        assert forall i :: 0 < i < |first| ==> first[i] == rest[0][i - 1];
      }
      assert forall k :: 1 <= k < |rest| ==> ([first] + rest[1..])[k] == rest[k];
      [first] + rest[1..]
  }

  /** The count texts: the operation-letter split without its last piece. */
  function Counts(cigar: string): seq<string> {
    var parts := SplitAtOps(cigar);
    parts[..|parts| - 1]
  }

  /** The identifier texts: the digit split without its first piece. */
  function Identifiers(cigar: string): seq<string> {
    SplitAtDigitRuns(cigar)[1..]
  }

  /** `zip(counts, identifiers)`: pairs up to the shorter list. */
  function Tokens(cigar: string): (pairs: seq<(string, string)>)
    ensures |pairs| == if |Counts(cigar)| < |Identifiers(cigar)| then |Counts(cigar)| else |Identifiers(cigar)|
    ensures forall k :: 0 <= k < |pairs| ==> pairs[k] == (Counts(cigar)[k], Identifiers(cigar)[k])
  {
    var cs, ids := Counts(cigar), Identifiers(cigar);
    var n := if |cs| < |ids| then |cs| else |ids|;
    seq(n, k requires 0 <= k < n => (cs[k], ids[k]))
  }

  /** `[int(c) for c in counts]`: every count converted, or the ValueError. */
  function ParseCounts(counts: seq<string>): (r: Option<seq<int>>)
    ensures r.Some? <==> forall k :: 0 <= k < |counts| ==> ParseInt(counts[k]).Some?
    ensures r.Some? ==> |r.value| == |counts|
    ensures r.Some? ==> forall k :: 0 <= k < |counts| ==> r.value[k] == ParseInt(counts[k]).value
    decreases |counts|
  {
    if counts == [] then Some([])
    else
      match ParseInt(counts[0])
      case None => None
      case Some(c) =>
        match ParseCounts(counts[1..])
        case None => None
        case Some(cs) => Some([c] + cs)
  }

  /** The runs the walking functions iterate over: all counts are converted
      first, then zipped with the identifiers. */
  function Runs(cigar: string): (r: Result<seq<Run>>)
    ensures r.Ok? <==> ParseCounts(Counts(cigar)).Some?
    ensures r.Err? ==> r.error == ValueError
    ensures r.Ok? ==> |r.value| == |Tokens(cigar)|
    ensures r.Ok? ==> forall k :: 0 <= k < |r.value| ==>
      r.value[k] == Run(ParseInt(Tokens(cigar)[k].0).value, OpOf(Tokens(cigar)[k].1))
  {
    match ParseCounts(Counts(cigar))
    case None => Err(ValueError)
    case Some(cs) =>
      var ids := Identifiers(cigar);
      var n := if |cs| < |ids| then |cs| else |ids|;
      Ok(seq(n, k requires 0 <= k < n => Run(cs[k], OpOf(ids[k]))))
  }

  // ---------------------------------------------------------------------------
  // Tokenizing a well-formed CIGAR

  function CountTexts(runs: seq<Run>): (r: seq<string>)
    ensures |r| == |runs| && forall k :: 0 <= k < |runs| ==> r[k] == IntToString(runs[k].count)
  {
    seq(|runs|, k requires 0 <= k < |runs| => IntToString(runs[k].count))
  }

  function OpTexts(runs: seq<Run>): (r: seq<string>)
    ensures |r| == |runs| && forall k :: 0 <= k < |runs| ==> r[k] == OpText(runs[k].op)
  {
    seq(|runs|, k requires 0 <= k < |runs| => OpText(runs[k].op))
  }

  lemma {:induction false} SplitAtOpsPlainPrefix(a: string, t: string)
    requires forall k :: 0 <= k < |a| ==> !IsOpChar(a[k])
    ensures SplitAtOps(a + t) == [a + SplitAtOps(t)[0]] + SplitAtOps(t)[1..]
    decreases |a|
  {
    var st := SplitAtOps(t);
    if a != [] {
      assert (a + t)[0] == a[0] && (a + t)[1..] == a[1..] + t;
      SplitAtOpsPlainPrefix(a[1..], t);
      assert [a[0]] + (a[1..] + st[0]) == a + st[0];
    } else {
      assert a + t == t;
      assert a + st[0] == st[0];
      assert st == [st[0]] + st[1..];
    }
  }

  lemma {:induction false} SingleLetterOp(op: Op)
    requires !op.Other?
    ensures |OpText(op)| == 1 && IsOpChar(OpText(op)[0]) && !IsDigit(OpText(op)[0])
    ensures OpOf(OpText(op)) == op
  {
  }

  lemma {:induction false} SplitAtOpsRender(runs: seq<Run>)
    requires WellFormed(runs)
    ensures SplitAtOps(Render(runs)) == CountTexts(runs) + [""]
    decreases |runs|
  {
    if runs != [] {
      var d, o, rest := IntToString(runs[0].count), OpText(runs[0].op), Render(runs[1..]);
      SingleLetterOp(runs[0].op);
      SplitAtOpsRender(runs[1..]);
      RenderCons(runs);
      SplitAtOpsStep(d, o, rest);
      CountTextsCons(runs);
      ConsAppend(d, CountTexts(runs[1..]), [""]);
    }
  }

  /** One run of a well-formed CIGAR under the split at operation letters. */
  lemma SplitAtOpsStep(d: string, o: string, rest: string)
    requires forall k :: 0 <= k < |d| ==> !IsOpChar(d[k])
    requires |o| == 1 && IsOpChar(o[0])
    ensures SplitAtOps(d + (o + rest)) == [d] + SplitAtOps(rest)
  {
    assert (o + rest)[0] == o[0] && (o + rest)[1..] == rest;
    assert SplitAtOps(o + rest) == [""] + SplitAtOps(rest);
    SplitAtOpsPlainPrefix(d, o + rest);
    assert d + "" == d;
  }

  lemma RenderCons(runs: seq<Run>)
    requires runs != []
    ensures Render(runs) == IntToString(runs[0].count) + (OpText(runs[0].op) + Render(runs[1..]))
  {
  }

  lemma CountTextsCons(runs: seq<Run>)
    requires runs != []
    ensures CountTexts(runs) == [IntToString(runs[0].count)] + CountTexts(runs[1..])
  {
  }

  lemma OpTextsCons(runs: seq<Run>)
    requires runs != []
    ensures OpTexts(runs) == [OpText(runs[0].op)] + OpTexts(runs[1..])
  {
  }

  lemma {:induction false} DropDigitsPrefix(d: string, t: string)
    requires d != [] && AllDigits(d)
    requires t == [] || !IsDigit(t[0])
    ensures DropDigits(d + t) == t
    decreases |d|
  {
    var s := d + t;
    assert s[0] == d[0] && IsDigit(s[0]);
    assert DropDigits(s) == DropDigits(s[1..]);
    if |d| > 1 {
      assert s[1..] == d[1..] + t;
      DropDigitsPrefix(d[1..], t);
    } else {
      assert s[1..] == t;
      assert DropDigits(t) == t;
    }
  }

  lemma {:induction false} RenderStartsWithDigit(runs: seq<Run>)
    requires WellFormed(runs)
    ensures Render(runs) == [] || IsDigit(Render(runs)[0])
  {
    if runs != [] {
      var d := IntToString(runs[0].count);
      assert Render(runs) == d + (OpText(runs[0].op) + Render(runs[1..]));
      assert Render(runs)[0] == d[0];
    }
  }

  /** One run of a well-formed CIGAR under the digit split. */
  lemma {:induction false} SplitAtDigitRunsStep(d: string, o: string, rest: string)
    requires d != [] && AllDigits(d)
    requires |o| == 1 && !IsDigit(o[0])
    requires rest == [] || IsDigit(rest[0])
    ensures SplitAtDigitRuns(d + (o + rest)) == [""] + [o] + SplitAtDigitRuns(rest)[1..]
  {
    var u := o + rest;
    var r := SplitAtDigitRuns(rest);
    assert SplitAtDigitRuns(d + u) == [""] + SplitAtDigitRuns(u) by {
      assert u[0] == o[0];
      DropDigitsPrefix(d, u);
      assert (d + u)[0] == d[0];
    }
    assert SplitAtDigitRuns(u) == [o] + r[1..] by {
      assert u == [o[0]] + rest;
      AfterLetter(u, o[0], rest);
      assert r[0] == "";
      assert [o[0]] + r[0] == o;
    }
  }

  lemma {:induction false} AfterLetter(u: string, c: char, rest: string)
    requires u == [c] + rest && !IsDigit(c)
    ensures SplitAtDigitRuns(u) == [[c] + SplitAtDigitRuns(rest)[0]] + SplitAtDigitRuns(rest)[1..]
  {
    assert u[1..] == rest;
  }

  lemma {:induction false} SplitAtDigitRunsRender(runs: seq<Run>)
    requires WellFormed(runs)
    ensures SplitAtDigitRuns(Render(runs)) == [""] + OpTexts(runs)
    decreases |runs|
  {
    if runs != [] {
      var d, o, rest := IntToString(runs[0].count), OpText(runs[0].op), Render(runs[1..]);
      SingleLetterOp(runs[0].op);
      SplitAtDigitRunsRender(runs[1..]);
      RenderStartsWithDigit(runs[1..]);
      RenderCons(runs);
      OpTextsCons(runs);
      DigitRunsOfRun(d, o, rest, OpTexts(runs[1..]));
    }
  }

  lemma DigitRunsOfRun(d: string, o: string, rest: string, tail: seq<string>)
    requires d != [] && AllDigits(d)
    requires |o| == 1 && !IsDigit(o[0])
    requires rest == [] || IsDigit(rest[0])
    requires SplitAtDigitRuns(rest) == [""] + tail
    ensures SplitAtDigitRuns(d + (o + rest)) == [""] + ([o] + tail)
  {
    var x := SplitAtDigitRuns(rest);
    assert x[1..] == tail;
    assert SplitAtDigitRuns(d + (o + rest)) == [""] + [o] + x[1..] by {
      SplitAtDigitRunsStep(d, o, rest);
    }
    ConsAppend("", [o], tail);
  }

  /** A well-formed CIGAR tokenizes into count and identifier lists of the
      same length, paired in order, and the walking tokenizer gives back
      exactly the runs it was rendered from. */
  lemma {:induction false} TokenizeRender(runs: seq<Run>)
    requires WellFormed(runs)
    ensures Counts(Render(runs)) == CountTexts(runs)
    ensures Identifiers(Render(runs)) == OpTexts(runs)
    ensures |Tokens(Render(runs))| == |runs|
    ensures Runs(Render(runs)) == Ok(runs)
  {
    var s := Render(runs);
    SplitAtOpsRender(runs);
    SplitAtDigitRunsRender(runs);
    assert Counts(s) == CountTexts(runs);
    assert Identifiers(s) == OpTexts(runs);
    forall k | 0 <= k < |runs| ensures ParseInt(Counts(s)[k]) == Some(runs[k].count) {
      ParseIntToString(runs[k].count);
    }
    forall k | 0 <= k < |runs| ensures OpOf(Identifiers(s)[k]) == runs[k].op {
      SingleLetterOp(runs[k].op);
    }
    var r := Runs(s);
    assert r.Ok? && |r.value| == |runs|;
    assert forall k :: 0 <= k < |runs| ==> r.value[k] == runs[k];
    assert r.value == runs;
  }

  /** Rendering the runs of a well-formed CIGAR gives back the string. */
  lemma {:induction false} RenderRuns(cigar: string, runs: seq<Run>)
    requires WellFormed(runs) && cigar == Render(runs)
    ensures Runs(cigar).Ok? && Render(Runs(cigar).value) == cigar
  {
    TokenizeRender(runs);
  }
}
