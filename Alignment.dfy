/** The two-cursor CIGAR walk of annotation-station/bam_utils.py: the
    reference span of a read, the read base at a reference position, whether
    that base matches the reference, and the number of mismatches.

    Each query is a method with the loops of the source, proved against a
    specification function stated over prefix sums of the runs: the reference
    cursor before run `j` is `ReferenceConsumed(runs[..j])`, the read cursor
    `ReadConsumed(runs[..j])`. */
module Alignment {
  import opened Outcomes
  import opened Strings
  import opened Cigar

  // ---------------------------------------------------------------------------
  // Cursor advances

  /** How far a run moves the reference cursor: the walk tests M/X/= first,
      then N/D, then I/S/H/P; any other identifier moves nothing. A negative
      count moves the cursor back. */
  function ReferenceAdvance(r: Run): int {
    if ConsumesBoth(r.op) then r.count
    else if ConsumesReferenceOnly(r.op) then r.count
    else 0
  }

  /** How far a run moves the read cursor. */
  function ReadAdvance(r: Run): int {
    if ConsumesBoth(r.op) then r.count
    else if ConsumesReferenceOnly(r.op) then 0
    else if ConsumesReadOnly(r.op) then r.count
    else 0
  }

  /** The reference cursor after walking `runs`. */
  function ReferenceConsumed(runs: seq<Run>): int
    decreases |runs|
  {
    if runs == [] then 0
    else ReferenceConsumed(runs[..|runs| - 1]) + ReferenceAdvance(runs[|runs| - 1])
  }

  /** The read cursor after walking `runs`. */
  function ReadConsumed(runs: seq<Run>): int
    decreases |runs|
  {
    if runs == [] then 0
    else ReadConsumed(runs[..|runs| - 1]) + ReadAdvance(runs[|runs| - 1])
  }

  /** The sum of every run length, whatever the operation. */
  function TotalLength(runs: seq<Run>): int
    decreases |runs|
  {
    if runs == [] then 0 else TotalLength(runs[..|runs| - 1]) + runs[|runs| - 1].count
  }

  /** The sum of the positive lengths of the M, X and = runs. */
  function AlignedLength(runs: seq<Run>): nat
    decreases |runs|
  {
    if runs == [] then 0
    else
      var last := runs[|runs| - 1];
      AlignedLength(runs[..|runs| - 1]) + (if ConsumesBoth(last.op) && last.count > 0 then last.count else 0)
  }

  /** The sum of the lengths of the runs that are neither M/X/= nor N/D. */
  function OffReferenceLength(runs: seq<Run>): int
    decreases |runs|
  {
    if runs == [] then 0
    else
      var last := runs[|runs| - 1];
      OffReferenceLength(runs[..|runs| - 1])
        + (if ConsumesBoth(last.op) || ConsumesReferenceOnly(last.op) then 0 else last.count)
  }

  // ---------------------------------------------------------------------------
  // Reference span

  /** The runs the span loop sees: the zipped tokens with each count
      converted as the loop reaches it; `None` is the ValueError. */
  function TokenRuns(tokens: seq<(string, string)>): (r: Option<seq<Run>>)
    ensures r.Some? <==> forall k :: 0 <= k < |tokens| ==> ParseInt(tokens[k].0).Some?
    ensures r.Some? ==> |r.value| == |tokens|
    ensures r.Some? ==> forall k :: 0 <= k < |tokens| ==> r.value[k] == Run(ParseInt(tokens[k].0).value, OpOf(tokens[k].1))
  {
    if forall k :: 0 <= k < |tokens| ==> ParseInt(tokens[k].0).Some? then
      Some(seq(|tokens|, k requires 0 <= k < |tokens| => Run(ParseInt(tokens[k].0).value, OpOf(tokens[k].1))))
    else None
  }

  /** The runs `get_covering_reference_coords` sees in a CIGAR string. */
  function SpanRuns(cigar: string): Option<seq<Run>> {
    TokenRuns(Tokens(cigar))
  }

  /** When every count converts, the span loop sees the walking functions' runs. */
  lemma RunsAgreeWithSpanRuns(cigar: string)
    requires Runs(cigar).Ok?
    ensures SpanRuns(cigar) == Some(Runs(cigar).value)
  {
    var ts := Tokens(cigar);
    assert forall k :: 0 <= k < |ts| ==> ts[k].0 == Counts(cigar)[k];
    assert forall k :: 0 <= k < |ts| ==> ParseInt(ts[k].0).Some?;
    var rs := Runs(cigar).value;
    var sr := SpanRuns(cigar).value;
    assert |sr| == |rs|;
    assert forall k :: 0 <= k < |rs| ==> sr[k] == rs[k];
    assert sr == rs;
  }

  /** The loop of `get_covering_reference_coords` over the zipped tokens. */
  method SpanOfTokens(start: int, tokens: seq<(string, string)>) returns (r: Result<(int, int)>)
    ensures TokenRuns(tokens).None? ==> r == Err(ValueError)
    ensures TokenRuns(tokens).Some? ==> r == Ok((start, start + TotalLength(TokenRuns(tokens).value) - 1))
  {
    var refEnd := start;
    ghost var seen: seq<Run> := [];
    var i := 0;
    assert tokens[..0] == [];
    while i < |tokens|
      invariant 0 <= i <= |tokens|
      invariant TokenRuns(tokens[..i]) == Some(seen)
      invariant refEnd == start + TotalLength(seen)
    {
      var (countText, identifier) := tokens[i];
      match ParseInt(countText) {
        case None =>
          TokenRunsFails(tokens, i);
          return Err(ValueError);
        case Some(count) =>
          TokenRunsSnoc(tokens, i, seen);
          TotalLengthSnoc(seen, Run(count, OpOf(identifier)));
          seen := seen + [Run(count, OpOf(identifier))];
          refEnd := refEnd + count;
      }
      i := i + 1;
    }
    assert tokens[..i] == tokens;
    return Ok((start, refEnd - 1));
  }

  /** A count that does not convert makes the whole loop fail. */
  lemma TokenRunsFails(tokens: seq<(string, string)>, i: int)
    requires 0 <= i < |tokens| && ParseInt(tokens[i].0).None?
    ensures TokenRuns(tokens).None?
  {
    assert !(forall k :: 0 <= k < |tokens| ==> ParseInt(tokens[k].0).Some?) by {
      assert !ParseInt(tokens[i].0).Some?;
    }
  }

  /** One more converted token extends the runs by one. */
  lemma TokenRunsSnoc(tokens: seq<(string, string)>, i: int, seen: seq<Run>)
    requires 0 <= i < |tokens| && ParseInt(tokens[i].0).Some?
    requires TokenRuns(tokens[..i]) == Some(seen)
    ensures TokenRuns(tokens[..i + 1]) == Some(seen + [Run(ParseInt(tokens[i].0).value, OpOf(tokens[i].1))])
  {
    var t := tokens[..i + 1];
    var run := Run(ParseInt(tokens[i].0).value, OpOf(tokens[i].1));
    forall k | 0 <= k < |t| ensures ParseInt(t[k].0).Some? {
      if k < i {
        assert t[k] == tokens[..i][k];
      }
    }
    var r := TokenRuns(t).value;
    forall k | 0 <= k < i ensures r[k] == seen[k] {
      assert t[k] == tokens[..i][k];
    }
    assert r == seen + [run];
  }

  lemma TotalLengthSnoc(runs: seq<Run>, run: Run)
    ensures TotalLength(runs + [run]) == TotalLength(runs) + run.count
  {
    assert (runs + [run])[..|runs|] == runs;
  }

  /** `get_covering_reference_coords`: the first reference position of the
      read and the last, computed as if every run, including I, S, H, P and any
      unknown identifier, consumed the reference. */
  method CoveringReferenceCoords(start: int, cigar: string) returns (r: Result<(int, int)>)
    ensures SpanRuns(cigar).None? ==> r == Err(ValueError)
    ensures SpanRuns(cigar).Some? ==> r == Ok((start, start + TotalLength(SpanRuns(cigar).value) - 1))
  {
    r := SpanOfTokens(start, Tokens(cigar));
  }

  /** The span exceeds the reference length of the SAM specification by the
      lengths of the runs off the reference; when no count is negative, the
      span is at least that length, and equal to it exactly when every run of
      positive length is an M/X/= or an N/D run. */
  lemma {:induction false} SpanVersusReferenceLength(runs: seq<Run>)
    ensures TotalLength(runs) == ReferenceConsumed(runs) + OffReferenceLength(runs)
    ensures (forall k :: 0 <= k < |runs| ==> runs[k].count >= 0) ==>
      TotalLength(runs) >= ReferenceConsumed(runs)
      && (TotalLength(runs) == ReferenceConsumed(runs) <==>
          forall k :: 0 <= k < |runs| && runs[k].count > 0 ==>
            ConsumesBoth(runs[k].op) || ConsumesReferenceOnly(runs[k].op))
    decreases |runs|
  {
    if runs != [] {
      var init := runs[..|runs| - 1];
      SpanVersusReferenceLength(init);
      assert forall k :: 0 <= k < |init| ==> init[k] == runs[k];
    }
  }

  // ---------------------------------------------------------------------------
  // Base at a position

  /** Run `j` is an M/X/= run whose reference window holds `target`; the
      window of a run whose count is not positive is empty, as
      `range(count)` is. */
  predicate Covers(runs: seq<Run>, j: nat, start: int, target: int)
    requires j < |runs|
  {
    var ref := start + ReferenceConsumed(runs[..j]);
    ConsumesBoth(runs[j].op) && ref <= target < ref + runs[j].count
  }

  /** The first run whose window holds `target`, if any. */
  function FirstCovering(runs: seq<Run>, start: int, target: int): (j: Option<nat>)
    ensures j.Some? ==> j.value < |runs| && Covers(runs, j.value, start, target)
    ensures j.Some? ==> forall i :: 0 <= i < j.value ==> !Covers(runs, i, start, target)
    ensures j.None? ==> forall i :: 0 <= i < |runs| ==> !Covers(runs, i, start, target)
    decreases |runs|
  {
    if runs == [] then None
    else
      var init := runs[..|runs| - 1];
      CoversOnPrefix(runs, |runs| - 1, start, target);
      var f := FirstCovering(init, start, target);
      if f.Some? then f
      else if Covers(runs, |runs| - 1, start, target) then Some(|runs| - 1)
      else None
  }

  lemma CoversOnPrefix(runs: seq<Run>, n: nat, start: int, target: int)
    requires n <= |runs|
    ensures forall i :: 0 <= i < n ==> (Covers(runs[..n], i, start, target) <==> Covers(runs, i, start, target))
  {
    forall i | 0 <= i < n
      ensures Covers(runs[..n], i, start, target) <==> Covers(runs, i, start, target)
    {
      assert runs[..n][..i] == runs[..i];
    }
  }

  /** With the cursor known, covering is a window test on that one run. */
  lemma CoversAt(runs: seq<Run>, i: nat, start: int, target: int, refCounter: int)
    requires i < |runs| && refCounter == ReferenceConsumed(runs[..i])
    ensures Covers(runs, i, start, target) <==>
      ConsumesBoth(runs[i].op) && start + refCounter <= target < start + refCounter + runs[i].count
  {
  }

  /** No run before `i` covers `target`. */
  predicate NoneCovers(runs: seq<Run>, i: nat, start: int, target: int)
    requires i <= |runs|
  {
    forall j :: 0 <= j < i ==> !Covers(runs, j, start, target)
  }

  lemma NoneCoversStep(runs: seq<Run>, i: nat, start: int, target: int)
    requires i < |runs| && NoneCovers(runs, i, start, target) && !Covers(runs, i, start, target)
    ensures NoneCovers(runs, i + 1, start, target)
  {
  }

  /** A covering run with none before it is the first covering run. */
  lemma FirstCoveringIs(runs: seq<Run>, i: nat, start: int, target: int)
    requires i < |runs| && Covers(runs, i, start, target)
    requires NoneCovers(runs, i, start, target)
    ensures FirstCovering(runs, start, target) == Some(i)
  {
  }

  /** Offset of `target` inside the window of covering run `j`. */
  function Offset(runs: seq<Run>, j: nat, start: int, target: int): nat
    requires j < |runs| && Covers(runs, j, start, target)
  {
    target - start - ReferenceConsumed(runs[..j])
  }

  lemma FirstCoveringNone(runs: seq<Run>, start: int, target: int)
    requires NoneCovers(runs, |runs|, start, target)
    ensures FirstCovering(runs, start, target) == None
  {
  }

  /** `s[k]` in Python: a negative `k` counts from the end, and an index
      outside `-len(s) <= k < len(s)` is the IndexError. */
  function CharAt(s: string, k: int): (r: Result<char>)
    ensures r.Ok? <==> -|s| <= k < |s|
    ensures 0 <= k < |s| ==> r == Ok(s[k])
    ensures -|s| <= k < 0 ==> r == Ok(s[|s| + k])
    ensures r.Err? ==> r.error == IndexError
  {
    if 0 <= k < |s| then Ok(s[k])
    else if -|s| <= k < 0 then Ok(s[|s| + k])
    else Err(IndexError)
  }

  /** What `get_base_by_position` returns for already tokenized runs: the read
      character at the read cursor plus the offset inside the first covering
      run, and `None` when no M/X/= run covers the target. */
  function BaseAt(runs: seq<Run>, start: int, target: int, read: string): Result<Option<char>> {
    match FirstCovering(runs, start, target)
    case None => Ok(None)
    case Some(j) =>
      match CharAt(read, ReadConsumed(runs[..j]) + Offset(runs, j, start, target))
      case Ok(c) => Ok(Some(c))
      case Err(e) => Err(e)
  }

  lemma PrefixStep(runs: seq<Run>, i: nat)
    requires i < |runs|
    ensures runs[..i + 1][..i] == runs[..i] && runs[..i + 1][i] == runs[i]
    ensures ReferenceConsumed(runs[..i + 1]) == ReferenceConsumed(runs[..i]) + ReferenceAdvance(runs[i])
    ensures ReadConsumed(runs[..i + 1]) == ReadConsumed(runs[..i]) + ReadAdvance(runs[i])
  {
    assert runs[..i + 1][..i] == runs[..i];
  }

  /** The inner loop of the walks over one M/X/= run: the reference
      positions `from`, `from + 1`, ... `from + count - 1` are tried in turn
      against `target`. */
  method ScanWindow(from: int, count: int, target: int) returns (found: bool, k: nat)
    ensures found <==> from <= target < from + count
    ensures found ==> from + k == target
  {
    k := 0;
    while k < count
      invariant count >= 0 ==> k <= count
      invariant count < 0 ==> k == 0
      invariant !(from <= target < from + k)
    {
      if from + k == target {
        return true, k;
      }
      k := k + 1;
    }
    return false, k;
  }

  /** The walk of `get_base_by_position` over the tokenized runs. */
  method WalkToBase(runs: seq<Run>, start: int, target: int, read: string)
    returns (r: Result<Option<char>>)
    ensures r == BaseAt(runs, start, target, read)
  {
    var readCounter, refCounter := 0, 0;
    var i := 0;
    while i < |runs|
      invariant 0 <= i <= |runs|
      invariant refCounter == ReferenceConsumed(runs[..i]) && readCounter == ReadConsumed(runs[..i])
      invariant NoneCovers(runs, i, start, target)
    {
      var count, op := runs[i].count, runs[i].op;
      PrefixStep(runs, i);
      CoversAt(runs, i, start, target, refCounter);
      if ConsumesBoth(op) {
        var found, k := ScanWindow(start + refCounter, count, target);
        if found {
          FirstCoveringIs(runs, i, start, target);
          BaseAtRun(runs, i, start, target, read, readCounter, refCounter);
          var idx := readCounter + k;
          if 0 <= idx < |read| {
            return Ok(Some(read[idx]));
          } else if -|read| <= idx < 0 {
            return Ok(Some(read[|read| + idx]));
          } else {
            return Err(IndexError);
          }
        }
        readCounter := readCounter + count;
        refCounter := refCounter + count;
      } else if ConsumesReferenceOnly(op) {
        refCounter := refCounter + count;
      } else if ConsumesReadOnly(op) {
        readCounter := readCounter + count;
      }
      NoneCoversStep(runs, i, start, target);
      i := i + 1;
    }
    FirstCoveringNone(runs, start, target);
    return Ok(None);
  }

  /** `get_base_by_position(start, target_pos, cigar, read_seq)`. */
  method BaseByPosition(start: int, target: int, cigar: string, read: string)
    returns (r: Result<Option<char>>)
    ensures Runs(cigar).Err? ==> r == Err(ValueError)
    ensures Runs(cigar).Ok? ==> r == BaseAt(Runs(cigar).value, start, target, read)
  {
    var parsed := Runs(cigar);
    if parsed.Err? {
      return Err(ValueError);
    }
    r := WalkToBase(parsed.value, start, target, read);
  }

  /** `BaseAt` once the first covering run and both cursors before it are known. */
  lemma BaseAtRun(runs: seq<Run>, i: nat, start: int, target: int, read: string, readCounter: int, refCounter: int)
    requires i < |runs| && FirstCovering(runs, start, target) == Some(i)
    requires refCounter == ReferenceConsumed(runs[..i]) && readCounter == ReadConsumed(runs[..i])
    ensures target - start - refCounter >= 0
    ensures var k := readCounter + target - start - refCounter;
      BaseAt(runs, start, target, read)
        == if 0 <= k < |read| then Ok(Some(read[k]))
           else if -|read| <= k < 0 then Ok(Some(read[|read| + k]))
           else Err(IndexError)
  {
  }

  // ---------------------------------------------------------------------------
  // Match at a position

  /** What `is_match` returns for already tokenized runs: the case-insensitive
      comparison of the read and reference characters at the covered column. */
  function MatchAt(runs: seq<Run>, start: int, target: int, read: string, reference: string)
    : Result<Option<bool>>
  {
    match FirstCovering(runs, start, target)
    case None => Ok(None)
    case Some(j) =>
      var off := Offset(runs, j, start, target);
      match CharAt(read, ReadConsumed(runs[..j]) + off)
      case Err(e) => Err(e)
      case Ok(c) =>
        match CharAt(reference, ReferenceConsumed(runs[..j]) + off)
        case Err(e) => Err(e)
        case Ok(d) => Ok(Some(LowerChar(c) == LowerChar(d)))
  }

  /** `MatchAt` once the first covering run and both cursors before it are known. */
  lemma MatchAtRun(runs: seq<Run>, i: nat, start: int, target: int, read: string, reference: string,
                   readCounter: int, refCounter: int)
    requires i < |runs| && FirstCovering(runs, start, target) == Some(i)
    requires refCounter == ReferenceConsumed(runs[..i]) && readCounter == ReadConsumed(runs[..i])
    ensures target - start - refCounter >= 0
    ensures var off := target - start - refCounter;
      MatchAt(runs, start, target, read, reference)
        == if !(-|read| <= readCounter + off < |read|) || !(-|reference| <= refCounter + off < |reference|)
           then Err(IndexError)
           else Ok(Some(LowerChar(CharAt(read, readCounter + off).value)
                        == LowerChar(CharAt(reference, refCounter + off).value)))
  {
  }

  /** The walk of `is_match` over the tokenized runs. */
  method WalkToMatch(runs: seq<Run>, start: int, target: int, read: string, reference: string)
    returns (r: Result<Option<bool>>)
    ensures r == MatchAt(runs, start, target, read, reference)
  {
    var readCounter, refCounter := 0, 0;
    var i := 0;
    while i < |runs|
      invariant 0 <= i <= |runs|
      invariant refCounter == ReferenceConsumed(runs[..i]) && readCounter == ReadConsumed(runs[..i])
      invariant NoneCovers(runs, i, start, target)
    {
      var count, op := runs[i].count, runs[i].op;
      PrefixStep(runs, i);
      CoversAt(runs, i, start, target, refCounter);
      if ConsumesBoth(op) {
        var found, k := ScanWindow(start + refCounter, count, target);
        if found {
          FirstCoveringIs(runs, i, start, target);
          MatchAtRun(runs, i, start, target, read, reference, readCounter, refCounter);
          var readBase := CharAt(read, readCounter + k);
          var refBase := CharAt(reference, refCounter + k);
          if readBase.Err? || refBase.Err? {
            return Err(IndexError);
          }
          return Ok(Some(LowerChar(readBase.value) == LowerChar(refBase.value)));
        }
        readCounter := readCounter + count;
        refCounter := refCounter + count;
      } else if ConsumesReferenceOnly(op) {
        refCounter := refCounter + count;
      } else if ConsumesReadOnly(op) {
        readCounter := readCounter + count;
      }
      NoneCoversStep(runs, i, start, target);
      i := i + 1;
    }
    FirstCoveringNone(runs, start, target);
    return Ok(None);
  }

  /** `is_match(start, target_pos, cigar, read_seq, reference_seq)`. */
  method IsMatch(start: int, target: int, cigar: string, read: string, reference: string)
    returns (r: Result<Option<bool>>)
    ensures Runs(cigar).Err? ==> r == Err(ValueError)
    ensures Runs(cigar).Ok? ==> r == MatchAt(Runs(cigar).value, start, target, read, reference)
  {
    var parsed := Runs(cigar);
    if parsed.Err? {
      return Err(ValueError);
    }
    r := WalkToMatch(parsed.value, start, target, read, reference);
  }

  /** `is_match` is absent exactly where `get_base_by_position` is; where the
      base is present and the reference is long enough, it is the
      case-insensitive comparison of that base with the reference. */
  lemma MatchFollowsBase(runs: seq<Run>, start: int, target: int, read: string, reference: string)
    ensures MatchAt(runs, start, target, read, reference) == Ok(None)
       <==> BaseAt(runs, start, target, read) == Ok(None)
    ensures BaseAt(runs, start, target, read).Err? ==> MatchAt(runs, start, target, read, reference).Err?
    ensures forall c :: BaseAt(runs, start, target, read) == Ok(Some(c)) ==>
      var j := FirstCovering(runs, start, target).value;
      var k := ReferenceConsumed(runs[..j]) + Offset(runs, j, start, target);
      MatchAt(runs, start, target, read, reference)
        == if CharAt(reference, k).Ok? then Ok(Some(LowerChar(c) == LowerChar(CharAt(reference, k).value)))
           else Err(IndexError)
  {
  }

  // ---------------------------------------------------------------------------
  // Mismatch count

  /** Where a slice bound `i` lands in a string of length `n`: a negative
      bound counts from the end, and the result is clamped to `[0, n]`. */
  function SliceBound(i: int, n: nat): (j: nat)
    ensures j <= n
    ensures 0 <= i <= n ==> j == i
    ensures i < 0 <= i + n ==> j == i + n
  {
    if i < 0 then (if i + n < 0 then 0 else i + n) else if i > n then n else i
  }

  /** `s[a:b]` in Python: the characters from the landing place of `a` up to
      that of `b`, none when `b` lands before `a`. */
  function Slice(s: string, a: int, b: int): (r: string)
    ensures var lo, hi := SliceBound(a, |s|), SliceBound(b, |s|);
      |r| == (if lo < hi then hi - lo else 0)
      && forall t :: 0 <= t < |r| ==> r[t] == s[lo + t]
  {
    var lo, hi := SliceBound(a, |s|), SliceBound(b, |s|);
    if lo < hi then s[lo..hi] else ""
  }

  /** For natural bounds the slice is the part of `s[a..b]` inside the
      string, and a window of `n` columns is at most `n` long. */
  lemma SliceOfNaturals(s: string, a: nat, b: nat)
    requires a <= b
    ensures Slice(s, a, b) == if a >= |s| then "" else if b >= |s| then s[a..] else s[a..b]
  {
  }

  /** A slice `s[i:i+n]` with `n >= 0` holds at most `n` characters; with a
      negative `n` it may hold more, as `s[0:-1]` does. */
  lemma SliceLength(s: string, i: int, n: int)
    ensures n >= 0 ==> |Slice(s, i, i + n)| <= n
  {
  }

  /** Disagreements ignoring case among the first `t` zipped characters. */
  function ZipDifferences(x: string, y: string, t: nat): (m: nat)
    requires t <= |x| && t <= |y|
    ensures m <= t
  {
    if t == 0 then 0
    else ZipDifferences(x, y, t - 1) + (if LowerChar(x[t - 1]) != LowerChar(y[t - 1]) then 1 else 0)
  }

  /** The disagreements of one M/X/= window: the lower-cased slices
      `read[i:i+n]` and `reference[k:k+n]`, compared column by column up to
      the shorter. */
  function WindowMismatches(read: string, reference: string, i: int, k: int, n: int): (m: nat)
    ensures m <= |read| && m <= |reference|
    ensures n >= 0 ==> m <= n
  {
    var x, y := Slice(read, i, i + n), Slice(reference, k, k + n);
    SliceLength(read, i, n);
    ZipDifferences(x, y, if |x| < |y| then |x| else |y|)
  }

  /** What `count_mismatches` returns for already tokenized runs. */
  function MismatchTotal(runs: seq<Run>, read: string, reference: string): nat
    decreases |runs|
  {
    if runs == [] then 0
    else
      var init, last := runs[..|runs| - 1], runs[|runs| - 1];
      MismatchTotal(init, read, reference)
        + (if ConsumesBoth(last.op)
           then WindowMismatches(read, reference, ReadConsumed(init), ReferenceConsumed(init), last.count)
           else 0)
  }

  /** The inner loop of `count_mismatches`: the lower-cased slices of the
      read and the reference under one M/X/= run, zipped and compared. */
  method CountWindow(read: string, reference: string, i: int, k: int, n: int) returns (m: nat)
    ensures m == WindowMismatches(read, reference, i, k, n)
  {
    var x, y := Slice(read, i, i + n), Slice(reference, k, k + n);
    var readBases := Lower(x);
    var refBases := Lower(y);
    m := 0;
    var t := 0;
    while t < |readBases| && t < |refBases|
      invariant 0 <= t <= |readBases| && t <= |refBases|
      invariant m == ZipDifferences(x, y, t)
    {
      if readBases[t] != refBases[t] {
        m := m + 1;
      }
      t := t + 1;
    }
  }

  /** The walk of `count_mismatches` over the tokenized runs. */
  method WalkMismatches(runs: seq<Run>, read: string, reference: string) returns (r: nat)
    ensures r == MismatchTotal(runs, read, reference)
  {
    var readCounter, refCounter := 0, 0;
    var mismatches := 0;
    var i := 0;
    while i < |runs|
      invariant 0 <= i <= |runs|
      invariant refCounter == ReferenceConsumed(runs[..i]) && readCounter == ReadConsumed(runs[..i])
      invariant mismatches == MismatchTotal(runs[..i], read, reference)
    {
      var count, op := runs[i].count, runs[i].op;
      PrefixStep(runs, i);
      MismatchStep(runs, i, read, reference);
      if ConsumesBoth(op) {
        var window := CountWindow(read, reference, readCounter, refCounter, count);
        mismatches := mismatches + window;
        readCounter := readCounter + count;
        refCounter := refCounter + count;
      } else if ConsumesReferenceOnly(op) {
        refCounter := refCounter + count;
      } else if ConsumesReadOnly(op) {
        readCounter := readCounter + count;
      }
      i := i + 1;
    }
    assert runs[..|runs|] == runs;
    return mismatches;
  }

  /** One run more adds the disagreements of its window, when it is an M/X/= run. */
  lemma MismatchStep(runs: seq<Run>, i: nat, read: string, reference: string)
    requires i < |runs|
    ensures MismatchTotal(runs[..i + 1], read, reference) == MismatchTotal(runs[..i], read, reference)
      + (if ConsumesBoth(runs[i].op)
         then WindowMismatches(read, reference, ReadConsumed(runs[..i]), ReferenceConsumed(runs[..i]), runs[i].count)
         else 0)
  {
    PrefixStep(runs, i);
  }

  /** `count_mismatches(cigar, read_seq, reference_seq)`. */
  method CountMismatches(cigar: string, read: string, reference: string) returns (r: Result<nat>)
    ensures Runs(cigar).Err? ==> r == Err(ValueError)
    ensures Runs(cigar).Ok? ==> r == Ok(MismatchTotal(Runs(cigar).value, read, reference))
  {
    var parsed := Runs(cigar);
    if parsed.Err? {
      return Err(ValueError);
    }
    var m := WalkMismatches(parsed.value, read, reference);
    return Ok(m);
  }

  /** Only M/X/= columns are compared, at most one disagreement per column. */
  lemma {:induction false} MismatchBound(runs: seq<Run>, read: string, reference: string)
    requires forall k :: 0 <= k < |runs| ==> runs[k].count >= 0
    ensures MismatchTotal(runs, read, reference) <= AlignedLength(runs)
    decreases |runs|
  {
    if runs != [] {
      var init := runs[..|runs| - 1];
      assert forall k :: 0 <= k < |init| ==> init[k] == runs[k];
      MismatchBound(init, read, reference);
    }
  }

  /** A read aligned by M/X/= runs only against an identical sequence has
      no mismatch. */
  lemma {:induction false} NoMismatchAgainstItself(runs: seq<Run>, s: string)
    requires forall k :: 0 <= k < |runs| ==> ConsumesBoth(runs[k].op)
    ensures ReadConsumed(runs) == ReferenceConsumed(runs)
    ensures MismatchTotal(runs, s, s) == 0
    decreases |runs|
  {
    if runs != [] {
      var init := runs[..|runs| - 1];
      assert forall k :: 0 <= k < |init| ==> init[k] == runs[k];
      NoMismatchAgainstItself(init, s);
      SameWindow(s, ReadConsumed(init), runs[|runs| - 1].count);
    }
  }

  lemma SameWindow(s: string, i: int, n: int)
    ensures WindowMismatches(s, s, i, i, n) == 0
  {
    var x := Slice(s, i, i + n);
    SameZip(x, |x|);
  }

  lemma {:induction false} SameZip(x: string, t: nat)
    requires t <= |x|
    ensures ZipDifferences(x, x, t) == 0
  {
    if t > 0 {
      SameZip(x, t - 1);
    }
  }

  // ---------------------------------------------------------------------------
  // Worked examples

  /** The runs of the CIGAR string "3M1I3M". */
  function InsertionRuns(): seq<Run> { [Run(3, M), Run(1, I), Run(3, M)] }

  lemma InsertionCigar()
    ensures Runs("3M1I3M") == Ok(InsertionRuns())
    ensures SpanRuns("3M1I3M") == Some(InsertionRuns())
  {
    var runs := InsertionRuns();
    assert Render(runs[2..]) == "3M";
    assert Render(runs[1..]) == "1I3M";
    assert Render(runs) == "3M1I3M";
    TokenizeRender(runs);
    RunsAgreeWithSpanRuns("3M1I3M");
  }

  lemma InsertionCursors()
    ensures ReferenceConsumed(InsertionRuns()[..1]) == 3 && ReadConsumed(InsertionRuns()[..1]) == 3
    ensures ReferenceConsumed(InsertionRuns()[..2]) == 3 && ReadConsumed(InsertionRuns()[..2]) == 4
  {
    var runs := InsertionRuns();
    assert runs[..1][..0] == [];
    assert runs[..2][..1] == runs[..1];
  }

  /** A read with one inserted base, aligned at reference position 10: the
      span reaches 16 because the insertion is counted, yet position 16 is
      not covered by any run. */
  lemma InsertionSpan()
    ensures TotalLength(InsertionRuns()) == 7
    ensures BaseAt(InsertionRuns(), 10, 16, "AAAIBBB") == Ok(None)
  {
    var runs := InsertionRuns();
    InsertionCursors();
    assert runs[..|runs| - 1] == runs[..2];
    assert runs[..2][..1] == runs[..1] && runs[..1][..0] == [];
    assert runs[..0] == [];
    assert !Covers(runs, 0, 10, 16) && !Covers(runs, 1, 10, 16) && !Covers(runs, 2, 10, 16);
    FirstCoveringNone(runs, 10, 16);
  }

  /** In the same alignment the base at 12 is the third read base and the
      base at 13 the fifth: the inserted base is skipped. */
  lemma InsertionBases()
    ensures BaseAt(InsertionRuns(), 10, 12, "AAAIBBB") == Ok(Some('A'))
    ensures BaseAt(InsertionRuns(), 10, 13, "AAAIBBB") == Ok(Some('B'))
  {
    InsertionBaseBefore();
    InsertionBaseAfter();
  }

  lemma InsertionBaseBefore()
    ensures BaseAt(InsertionRuns(), 10, 12, "AAAIBBB") == Ok(Some('A'))
  {
    var runs := InsertionRuns();
    InsertionCursors();
    assert runs[..0] == [];
    assert Covers(runs, 0, 10, 12);
    FirstCoveringIs(runs, 0, 10, 12);
    BaseAtRun(runs, 0, 10, 12, "AAAIBBB", 0, 0);
  }

  lemma InsertionBaseAfter()
    ensures BaseAt(InsertionRuns(), 10, 13, "AAAIBBB") == Ok(Some('B'))
  {
    var runs := InsertionRuns();
    InsertionCursors();
    assert !Covers(runs, 0, 10, 13) && !Covers(runs, 1, 10, 13) && Covers(runs, 2, 10, 13);
    FirstCoveringIs(runs, 2, 10, 13);
    BaseAtRun(runs, 2, 10, 13, "AAAIBBB", 4, 3);
  }

  /** The texts of the CIGAR string "5MM". */
  lemma DoubledLetterTexts()
    ensures Counts("5MM") == ["5", ""]
    ensures Tokens("5MM") == [("5", "MM")]
  {
    assert "M"[1..] == "" && "MM"[1..] == "M" && "5MM"[1..] == "MM";
    assert SplitAtOps("M") == ["", ""];
    assert SplitAtOps("MM") == ["", "", ""];
    assert ['5'] + "" == "5";
    assert SplitAtOps("5MM") == ["5", "", ""];
    assert DropDigits("5MM") == "MM";
    assert SplitAtDigitRuns("") == [""];
    assert ['M'] + "" == "M" && ['M'] + "M" == "MM";
    assert SplitAtDigitRuns("M") == ["M"];
    assert SplitAtDigitRuns("MM") == ["MM"];
    assert Identifiers("5MM") == ["MM"];
  }

  /** "5MM": the walking functions convert every count, and the empty text
      between the two letters raises the ValueError; the span loop only sees
      the zipped pair ("5", "MM") and succeeds with an unknown identifier. */
  lemma DoubledLetterCigar()
    ensures Runs("5MM") == Err(ValueError)
    ensures SpanRuns("5MM") == Some([Run(5, Other("MM"))])
  {
    DoubledLetterTexts();
    assert ParseInt("") == None;
    assert ParseCounts(Counts("5MM")).None?;
    DoubledLetterSpan();
  }

  lemma DoubledLetterSpan()
    requires Tokens("5MM") == [("5", "MM")]
    ensures SpanRuns("5MM") == Some([Run(5, Other("MM"))])
  {
    ParseFive();
    assert OpOf("MM") == Other("MM");
    OneToken(("5", "MM"), 5);
  }

  lemma ParseFive()
    ensures ParseInt("5") == Some(5)
  {
    assert DigitsValue("5") == 10 * DigitsValue("") + DigitValue('5');
  }

  /** A single token whose count converts gives a single run. */
  lemma OneToken(t: (string, string), n: int)
    requires ParseInt(t.0) == Some(n)
    ensures TokenRuns([t]) == Some([Run(n, OpOf(t.1))])
  {
    var tr := TokenRuns([t]);
    assert [t][0] == t;
    assert tr.Some? && |tr.value| == 1 && tr.value[0] == Run(n, OpOf(t.1));
    assert tr.value == [Run(n, OpOf(t.1))];
  }

  /** The texts of the CIGAR strings "-1M" and "5M-1M": the minus sign stays
      with the count, or, after a letter, joins the identifier before it. */
  lemma SignedCountTexts()
    ensures Tokens("-1M") == [("-1", "M")]
    ensures Tokens("5M-1M") == [("5", "M-"), ("-1", "M")]
  {
    SignedCountSplit();
    SignedCountDigitSplit();
  }

  lemma SignedCountSplit()
    ensures Counts("-1M") == ["-1"] && Counts("5M-1M") == ["5", "-1"]
  {
    assert "M"[1..] == "" && "1M"[1..] == "M" && "-1M"[1..] == "1M";
    assert SplitAtOps("M") == ["", ""];
    assert ['1'] + "" == "1" && ['-'] + "1" == "-1" && ['5'] + "" == "5";
    assert SplitAtOps("1M") == ["1", ""];
    assert SplitAtOps("-1M") == ["-1", ""];
    assert "5M-1M"[1..] == "M-1M" && "M-1M"[1..] == "-1M";
    assert SplitAtOps("M-1M") == ["", "-1", ""];
    assert SplitAtOps("5M-1M") == ["5", "-1", ""];
  }

  lemma SignedCountDigitSplit()
    ensures Identifiers("-1M") == ["M"] && Identifiers("5M-1M") == ["M-", "M"]
  {
    assert "M"[1..] == "" && "1M"[1..] == "M" && "-1M"[1..] == "1M";
    assert "5M-1M"[1..] == "M-1M" && "M-1M"[1..] == "-1M";
    assert DropDigits("M") == "M" && DropDigits("1M") == "M";
    assert DropDigits("5M-1M") == "M-1M";
    assert ['M'] + "" == "M" && ['-'] + "" == "-" && ['M'] + "-" == "M-";
    assert SplitAtDigitRuns("") == [""];
    assert SplitAtDigitRuns("M") == ["M"];
    assert SplitAtDigitRuns("1M") == ["", "M"];
    assert SplitAtDigitRuns("-1M") == ["-", "M"];
    assert SplitAtDigitRuns("M-1M") == ["M-", "M"];
    assert SplitAtDigitRuns("5M-1M") == ["", "M-", "M"];
  }

  /** A signed count is converted by `int()` and carried on: the span of
      "-1M" at 10 ends at 8, and the walks see the same run. */
  lemma SignedCountSpan()
    ensures SpanRuns("-1M") == Some([Run(-1, M)]) && Runs("-1M") == Ok([Run(-1, M)])
    ensures 10 + TotalLength([Run(-1, M)]) - 1 == 8
  {
    SignedCountTexts();
    ParseIntNegative();
    var a := TokenRuns(Tokens("-1M"));
    assert a.Some? && |a.value| == 1 && a.value[0] == Run(-1, M);
    assert a.value == [Run(-1, M)];
    assert ParseCounts(Counts("-1M")).Some?;
    RunsAgreeWithSpanRuns("-1M");
    assert [Run(-1, M)][..0] == [];
  }

  /** In "5M-1M" the text "M-" is an unknown identifier and the second run
      has length -1: the span at 10 ends at 13. */
  lemma SignedCountAfterRun()
    ensures SpanRuns("5M-1M") == Some([Run(5, Other("M-")), Run(-1, M)])
    ensures Runs("5M-1M") == Ok([Run(5, Other("M-")), Run(-1, M)])
    ensures 10 + TotalLength([Run(5, Other("M-")), Run(-1, M)]) - 1 == 13
  {
    SignedCountAfterRunRuns();
    RunsAgreeWithSpanRuns("5M-1M");
    var two := [Run(5, Other("M-")), Run(-1, M)];
    assert two[..1] == [Run(5, Other("M-"))] && two[..1][..0] == [];
  }

  lemma SignedCountAfterRunRuns()
    ensures Runs("5M-1M") == Ok([Run(5, Other("M-")), Run(-1, M)])
  {
    SignedCountTexts();
    SignedCountSplit();
    SignedCounts();
    ParseFive();
    ParseIntNegative();
    assert OpOf("M-") == Other("M-") && OpOf("M") == M;
    TwoRuns("5M-1M", ("5", "M-"), ("-1", "M"), 5, -1);
  }

  /** Two tokens whose counts all convert give two runs. */
  lemma TwoRuns(cigar: string, a: (string, string), b: (string, string), m: int, n: int)
    requires Tokens(cigar) == [a, b] && ParseCounts(Counts(cigar)).Some?
    requires ParseInt(a.0) == Some(m) && ParseInt(b.0) == Some(n)
    ensures Runs(cigar) == Ok([Run(m, OpOf(a.1)), Run(n, OpOf(b.1))])
  {
    var r := Runs(cigar).value;
    assert |r| == 2 && r[0] == Run(m, OpOf(a.1)) && r[1] == Run(n, OpOf(b.1));
    assert r == [Run(m, OpOf(a.1)), Run(n, OpOf(b.1))];
  }

  lemma SignedCounts()
    ensures ParseCounts(["5", "-1"]) == Some([5, -1])
  {
    ParseIntNegative();
    ParseFive();
    assert ["5", "-1"][1..] == ["-1"] && ["-1"][1..] == [];
    assert ParseCounts([]) == Some([]) && [-1] + [] == [-1];
    assert ParseCounts(["-1"]) == Some([-1]);
    assert [5] + [-1] == [5, -1];
  }

  /** A negative M run moves both cursors back, so the next run's read index
      can be negative and Python reads from the end of the read: in
      "-1M2M" at 10 the base at 9 is the last base of "AC". */
  lemma NegativeReadIndex()
    ensures BaseAt([Run(-1, M), Run(2, M)], 10, 9, "AC") == Ok(Some('C'))
  {
    var runs := [Run(-1, M), Run(2, M)];
    assert runs[..1] == [Run(-1, M)] && runs[..1][..0] == [] && runs[..0] == [];
    assert ReferenceConsumed(runs[..1]) == -1 && ReadConsumed(runs[..1]) == -1;
    assert !Covers(runs, 0, 10, 9) && Covers(runs, 1, 10, 9);
    FirstCoveringIs(runs, 1, 10, 9);
    BaseAtRun(runs, 1, 10, 9, "AC", -1, -1);
  }

  /** A negative M run slices `read_seq[0:-1]`, which is not empty: "-1M"
      counts one mismatch of "AC" against "GT" although no column of it is
      aligned. */
  lemma NegativeWindowMismatch()
    ensures MismatchTotal([Run(-1, M)], "AC", "GT") == 1
    ensures AlignedLength([Run(-1, M)]) == 0
  {
    var runs := [Run(-1, M)];
    assert runs[..0] == [];
    assert Slice("AC", 0, -1) == "A";
    assert Slice("GT", 0, -1) == "G";
    assert WindowMismatches("AC", "GT", 0, 0, -1) == 1 by {
      assert ZipDifferences("A", "G", 0) == 0;
    }
  }
}
