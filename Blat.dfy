/** annotation-station/blat.py: the blast8 output of blat read into one
    dictionary per line, the per-read verdict of `is_positive_rna_count` and
    the fraction of positive reads per position. */
module Blat {
  import opened Outcomes
  import opened Strings
  import opened RnaEditing

  /** `ANNOTATION_TO_INDICES`, in its dictionary order. */
  const Columns: seq<(string, nat)> := [
    ("qseqid", 0), ("sseqid", 1), ("pident", 2), ("qlen", 3), ("qstart", 6),
    ("qend", 7), ("sstart", 8), ("send", 9), ("evalue", 10), ("bitscore", 11)
  ]

  /** A column is read at an index below 12, and the bit score at 11. */
  lemma ColumnsReach()
    ensures forall k :: 0 <= k < |Columns| ==> Columns[k].1 < 12
    ensures Columns[9] == ("bitscore", 11)
  {
  }

  /** The field a line's dictionary holds under `name`, when `name` is a column. */
  predicate HasColumn(d: Dict, pieces: seq<string>, name: string, index: nat) {
    index < |pieces| && name in d && d[name] == pieces[index]
  }

  /** The dictionary of one line: the ten named columns and nothing else. */
  predicate IsRecord(d: Dict, pieces: seq<string>) {
    (forall k :: 0 <= k < |Columns| ==> HasColumn(d, pieces, Columns[k].0, Columns[k].1))
    && forall name :: name in d ==> exists k :: 0 <= k < |Columns| && Columns[k].0 == name
  }

  /** The inner loop of `parse_blat_output`: `d[field] = pieces[index]` for
      each column, raising IndexError at the first index past the end. */
  method LineRecord(pieces: seq<string>) returns (r: Result<Dict>)
    ensures r.Err? <==> |pieces| < 12
    ensures r.Err? ==> r.error == IndexError
    ensures r.Ok? ==> IsRecord(r.value, pieces)
  {
    ColumnsReach();
    var d: Dict := map[];
    for k := 0 to |Columns|
      invariant forall j :: 0 <= j < k ==> HasColumn(d, pieces, Columns[j].0, Columns[j].1)
      invariant forall name :: name in d ==> exists j :: 0 <= j < k && Columns[j].0 == name
      invariant forall j :: 0 <= j < k ==> Columns[j].1 < |pieces|
    {
      var (field, index) := Columns[k];
      if index >= |pieces| {
        return Err(IndexError);
      }
      d := d[field := pieces[index]];
    }
    assert Columns[9].1 == 11;
    return Ok(d);
  }

  /** `parse_blat_output`, as written: every line of the output must have at
      least twelve tab-separated fields. */
  method ParseBlatOutput(output: string) returns (r: Result<seq<Dict>>)
    ensures r.Err? <==> exists k :: 0 <= k < |Split(output, '\n')| && |Split(Split(output, '\n')[k], '\t')| < 12
    ensures r.Err? ==> r.error == IndexError
    ensures r.Ok? ==> |r.value| == |Split(output, '\n')|
    ensures r.Ok? ==> forall k :: 0 <= k < |Split(output, '\n')| ==> IsRecord(r.value[k], Split(Split(output, '\n')[k], '\t'))
  {
    var lines := Split(output, '\n');
    r := ParseLines(lines);
    if r.Err? {
      var k :| 0 <= k < |lines| && |Split(lines[k], '\t')| < 12;
      assert 0 <= k < |Split(output, '\n')| && |Split(Split(output, '\n')[k], '\t')| < 12;
    }
  }

  /** The loop of `parse_blat_output` over the lines. */
  method ParseLines(lines: seq<string>) returns (r: Result<seq<Dict>>)
    ensures r.Err? <==> exists k :: 0 <= k < |lines| && |Split(lines[k], '\t')| < 12
    ensures r.Err? ==> r.error == IndexError
    ensures r.Ok? ==> |r.value| == |lines| && forall k :: 0 <= k < |lines| ==> IsRecord(r.value[k], Split(lines[k], '\t'))
  {
    var dicts: seq<Dict> := [];
    for i := 0 to |lines|
      invariant |dicts| == i
      invariant forall k :: 0 <= k < i ==> |Split(lines[k], '\t')| >= 12
      invariant forall k :: 0 <= k < i ==> IsRecord(dicts[k], Split(lines[k], '\t'))
    {
      var d := LineRecord(Split(lines[i], '\t'));
      if d.Err? {
        return Err(d.error);
      }
      dicts := dicts + [d.value];
    }
    return Ok(dicts);
  }

  /** Output that ends in a line break, as a blast8 file does, and the empty
      output of a run without hits both have a line with one field: the parse
      of such output raises IndexError. */
  lemma TrailingLineBreakFails(output: string)
    requires output == [] || output[|output| - 1] == '\n'
    ensures var lines := Split(output, '\n');
      exists k :: 0 <= k < |lines| && |Split(lines[k], '\t')| < 12
  {
    var lines := Split(output, '\n');
    if output != [] {
      var body := output[..|output| - 1];
      assert output == body + ['\n'];
      SplitTrailingSeparator(body, '\n');
    } else {
      SplitEmpty('\n');
    }
    var last := |lines| - 1;
    assert lines[last] == [];
    SplitEmpty('\t');
    assert |Split(lines[last], '\t')| < 12;
  }

  /** The parse without that failure: a line with too few fields gives an
      empty dictionary, which `blat_fasta` then drops because it has no
      `qseqid`. */
  method ParseBlatOutputSkippingShort(output: string) returns (dicts: seq<Dict>)
    ensures var lines := Split(output, '\n');
      |dicts| == |lines| && forall k :: 0 <= k < |lines| ==>
        if |Split(lines[k], '\t')| < 12 then dicts[k] == map[] else IsRecord(dicts[k], Split(lines[k], '\t'))
  {
    dicts := ParseLinesSkippingShort(Split(output, '\n'));
  }

  method ParseLinesSkippingShort(lines: seq<string>) returns (dicts: seq<Dict>)
    ensures |dicts| == |lines| && forall k :: 0 <= k < |lines| ==>
      if |Split(lines[k], '\t')| < 12 then dicts[k] == map[] else IsRecord(dicts[k], Split(lines[k], '\t'))
  {
    dicts := [];
    for i := 0 to |lines|
      invariant |dicts| == i
      invariant forall k :: 0 <= k < i ==>
        if |Split(lines[k], '\t')| < 12 then dicts[k] == map[] else IsRecord(dicts[k], Split(lines[k], '\t'))
    {
      var d := LineRecord(Split(lines[i], '\t'));
      dicts := dicts + [if d.Ok? then d.value else map[]];
    }
  }

  /** A blast8 line rendered from twelve tab-free fields parses back to them. */
  lemma RecordOfRenderedLine(fields: seq<string>)
    requires |fields| == 12 && forall k :: 0 <= k < 12 ==> '\t' !in fields[k]
    ensures |Split(Join(fields, '\t'), '\t')| >= 12
    ensures forall d, k :: IsRecord(d, Split(Join(fields, '\t'), '\t')) && 0 <= k < |Columns| ==>
      Columns[k].0 in d && d[Columns[k].0] == fields[Columns[k].1]
  {
    SplitJoin(fields, '\t');
  }

  // ---------------------------------------------------------------------------
  // is_positive_rna_count

  /** `is_positive_rna_count` as written: after the two early answers it reads
      the undefined name `blast_result_dicts`, which raises NameError. */
  function IsPositiveAsWritten(chrom: string, pos: int, hits: seq<Hit>): (r: Result<bool>)
  {
    var sorted := SortByScore(hits);
    if |sorted| == 0 then Ok(false)
    else if !IsInRange(chrom, pos, sorted[0]) then Ok(false)
    else if |sorted| == 1 then Ok(true)
    else Err(NameError)
  }

  /** No hits, or a top hit outside the window, give False; a single hit in
      range gives True; two or more hits with the top one in range raise
      NameError, so the threshold is never consulted. */
  lemma AsWrittenVerdicts(chrom: string, pos: int, hits: seq<Hit>)
    ensures hits == [] ==> IsPositiveAsWritten(chrom, pos, hits) == Ok(false)
    ensures hits != [] ==>
      (IsPositiveAsWritten(chrom, pos, hits) ==
        if !IsInRange(chrom, pos, Best(hits)) then Ok(false)
        else if |hits| == 1 then Ok(true)
        else Err(NameError))
  {
    if hits != [] {
      SortedTopIsBest(hits);
    }
  }

  /** The answer True needs exactly one hit. */
  lemma AsWrittenNeverTrueOnTwo(chrom: string, pos: int, hits: seq<Hit>)
    requires |hits| >= 2
    ensures IsPositiveAsWritten(chrom, pos, hits) != Ok(true)
  {
    AsWrittenVerdicts(chrom, pos, hits);
  }

  /** `is_positive_rna_count` with the list it evidently means, the sorted
      hits: a runner-up scoring above `threshold` times the top score makes
      the read ambiguous. */
  function IsPositive(chrom: string, pos: int, hits: seq<Hit>, threshold: real): bool {
    SortedVerdict(chrom, pos, SortByScore(hits), threshold)
  }

  /** The decisions of `is_positive_rna_count` on the sorted hits. */
  function SortedVerdict(chrom: string, pos: int, sorted: seq<Hit>, threshold: real): bool {
    if |sorted| == 0 then false
    else if !IsInRange(chrom, pos, sorted[0]) then false
    else if |sorted| == 1 then true
    else !(sorted[1].bitscore > Cutoff(threshold, sorted[0]))
  }

  /** `percent_threshold * score` of the top hit. */
  function Cutoff(threshold: real, top: Hit): real {
    threshold * top.bitscore
  }

  /** On sorted hits the verdict is: the top hit is in range and every later
      hit scores at most `threshold` times the top score. */
  lemma SortedVerdictMeans(chrom: string, pos: int, sorted: seq<Hit>, threshold: real)
    requires ScoreDescending(sorted) && sorted != []
    ensures SortedVerdict(chrom, pos, sorted, threshold) <==>
      IsInRange(chrom, pos, sorted[0])
      && forall k :: 1 <= k < |sorted| ==> sorted[k].bitscore <= Cutoff(threshold, sorted[0])
  {
    if |sorted| >= 2 {
      RunnerUp(sorted, Cutoff(threshold, sorted[0]));
    }
  }

  /** A read is positive exactly when its first best hit is in range and no
      later hit in score order scores above `threshold` times the best score. */
  lemma PositiveMeans(chrom: string, pos: int, hits: seq<Hit>, threshold: real)
    requires hits != []
    ensures IsPositive(chrom, pos, hits, threshold) <==>
      IsInRange(chrom, pos, Best(hits))
      && forall k :: 1 <= k < |hits| ==> SortByScore(hits)[k].bitscore <= Cutoff(threshold, Best(hits))
  {
    SortedTopIsBest(hits);
    SortedVerdictMeans(chrom, pos, SortByScore(hits), threshold);
  }

  /** In a list sorted by score, the second hit bounds all the others. */
  lemma RunnerUp(sorted: seq<Hit>, t: real)
    requires ScoreDescending(sorted) && |sorted| >= 2
    ensures sorted[1].bitscore <= t <==> forall k :: 1 <= k < |sorted| ==> sorted[k].bitscore <= t
  {
  }

  /** The corrected verdict agrees with the one as written wherever the latter
      does not raise. */
  lemma CorrectedAgrees(chrom: string, pos: int, hits: seq<Hit>, threshold: real)
    requires IsPositiveAsWritten(chrom, pos, hits).Ok?
    ensures IsPositiveAsWritten(chrom, pos, hits).value == IsPositive(chrom, pos, hits, threshold)
  {
  }

  /** The verdict as written, as a classifier of reads. */
  function AsWrittenClassifier(): Classifier {
    (c, p, hs) => IsPositiveAsWritten(c, p, hs)
  }

  /** The corrected verdict, as a classifier of reads. */
  function CorrectedClassifier(threshold: real): Classifier {
    (c, p, hs) => Ok(IsPositive(c, p, hs, threshold))
  }

  /** `get_rna_editing_annotations` with the verdict as written. */
  method RnaEditingFractionsAsWritten(byPos: map<Position, map<string, seq<Hit>>>)
    returns (r: Result<map<Position, real>>)
    ensures r.Ok? <==> forall pos, q :: pos in byPos && q in byPos[pos] ==>
      IsPositiveAsWritten(pos.0, pos.1, byPos[pos][q]).Ok?
    ensures r.Err? ==> r.error == NameError
    ensures r.Ok? ==> r.value.Keys == byPos.Keys
    ensures r.Ok? ==> forall pos :: pos in r.value ==>
      r.value[pos] == FractionAt(AsWrittenClassifier(), byPos, pos)
  {
    var classify := AsWrittenClassifier();
    r := PassFractions(classify, byPos);
    if r.Err? {
      var pos, q :| pos in byPos && q in byPos[pos] && classify(pos.0, pos.1, byPos[pos][q]) == Err(r.error);
    }
  }

  /** `get_rna_editing_annotations` with the corrected verdict: it never
      fails, and every fraction lies between 0 and 1. */
  method RnaEditingFractions(byPos: map<Position, map<string, seq<Hit>>>, threshold: real)
    returns (fractions: map<Position, real>)
    ensures fractions.Keys == byPos.Keys
    ensures forall pos :: pos in fractions ==>
      fractions[pos] == FractionAt(CorrectedClassifier(threshold), byPos, pos)
    ensures forall pos :: pos in fractions ==> 0.0 <= fractions[pos] <= 1.0
  {
    var classify := CorrectedClassifier(threshold);
    var r := PassFractions(classify, byPos);
    assert AllClassified(classify, byPos);
    fractions := r.value;
    forall pos | pos in fractions
      ensures 0.0 <= fractions[pos] <= 1.0
    {
      PassFractionsBounded(classify, byPos, pos);
    }
  }
}
