/** annotation-station/blast.py: the output fields an annotation needs, the
    tabular blastn output read into one dictionary per line, and the per-read
    verdict of `is_positive_rna_count` with its coverage filter. */
module Blast {
  import opened Outcomes
  import opened Strings
  import opened RnaEditing

  /** `ANNOTATION_TO_OUT_FIELDS`. */
  const AnnotationFields: map<string, seq<string>> := map[
    "rna_editing" := ["qseqid", "sseqid", "sstart", "send", "qstart", "qend", "qlen", "evalue", "bitscore", "pident"],
    "avg_top_hits" := ["qseqid", "sseqid", "evalue", "bitscore", "pident"]
  ]

  /** Some requested annotation needs the field `f`. */
  predicate Needed(annotations: seq<string>, f: string) {
    exists k :: 0 <= k < |annotations| && annotations[k] in AnnotationFields && f in AnnotationFields[annotations[k]]
  }

  /** `get_required_out_fields`: the union of the fields of the requested
      annotations, each once; an unknown annotation raises KeyError. */
  method RequiredOutFields(annotations: seq<string>) returns (r: Result<set<string>>)
    ensures r.Err? <==> exists k :: 0 <= k < |annotations| && annotations[k] !in AnnotationFields
    ensures r.Err? ==> r.error == KeyError
    ensures r.Ok? ==> forall f :: f in r.value <==> Needed(annotations, f)
  {
    var fields: set<string> := {};
    for i := 0 to |annotations|
      invariant forall k :: 0 <= k < i ==> annotations[k] in AnnotationFields
      invariant forall f :: f in fields <==> Needed(annotations[..i], f)
    {
      if annotations[i] !in AnnotationFields {
        return Err(KeyError);
      }
      NeededStep(annotations, i);
      fields := fields + set f | f in AnnotationFields[annotations[i]];
    }
    assert annotations[..|annotations|] == annotations;
    return Ok(fields);
  }

  lemma NeededStep(annotations: seq<string>, i: nat)
    requires i < |annotations| && annotations[i] in AnnotationFields
    ensures forall f :: Needed(annotations[..i + 1], f) <==>
      Needed(annotations[..i], f) || f in AnnotationFields[annotations[i]]
  {
    var pre := annotations[..i + 1];
    assert forall k :: 0 <= k < i ==> pre[k] == annotations[..i][k];
    assert pre[i] == annotations[i];
  }

  /** RNA editing needs the ten fields its verdict reads and nothing else. */
  lemma RnaEditingFields()
    ensures forall f :: Needed(["rna_editing"], f) <==> f in AnnotationFields["rna_editing"]
    ensures forall f :: Needed(["rna_editing", "avg_top_hits"], f) <==> f in AnnotationFields["rna_editing"]
  {
    var both := ["rna_editing", "avg_top_hits"];
    forall f | Needed(both, f)
      ensures f in AnnotationFields["rna_editing"]
    {
      var k :| 0 <= k < |both| && both[k] in AnnotationFields && f in AnnotationFields[both[k]];
    }
    forall f | f in AnnotationFields["rna_editing"]
      ensures Needed(both, f)
    {
      assert both[0] == "rna_editing";
    }
  }

  // ---------------------------------------------------------------------------
  // parse_blast_output

  /** `dict(zip(fields, pieces))` built entry by entry: the fields that have
      a piece, each holding the piece of its last occurrence. */
  ghost predicate IsZip(d: Dict, fields: seq<string>, pieces: seq<string>) {
    (forall f :: f in d <==> exists j :: 0 <= j < |fields| && j < |pieces| && fields[j] == f)
    && forall j :: (0 <= j < |fields| && j < |pieces| && LastOccurrence(fields, |pieces|, j)) ==>
         fields[j] in d && d[fields[j]] == pieces[j]
  }

  /** No later field among the first `n` repeats the `j`-th. */
  predicate LastOccurrence(fields: seq<string>, n: nat, j: nat)
    requires j < |fields|
  {
    forall j' :: j < j' < |fields| && j' < n ==> fields[j'] != fields[j]
  }

  /** The inner loop: `for field, val in zip(out_fields, pieces): d[field] = val`. */
  method ZipRecord(fields: seq<string>, pieces: seq<string>) returns (d: Dict)
    ensures IsZip(d, fields, pieces)
  {
    d := map[];
    var n := if |fields| < |pieces| then |fields| else |pieces|;
    for i := 0 to n
      invariant ZipPrefix(d, fields, pieces, i)
    {
      ZipStep(d, fields, pieces, i);
      d := d[fields[i] := pieces[i]];
    }
    ZipDone(d, fields, pieces, n);
  }

  /** The whole zip: `zip` stops at the shorter list. */
  lemma ZipDone(d: Dict, fields: seq<string>, pieces: seq<string>, n: nat)
    requires n == if |fields| < |pieces| then |fields| else |pieces|
    requires ZipPrefix(d, fields, pieces, n)
    ensures IsZip(d, fields, pieces)
  {
    forall j | 0 <= j < |fields| && j < |pieces| && LastOccurrence(fields, |pieces|, j)
      ensures fields[j] in d && d[fields[j]] == pieces[j]
    {
      assert LastOccurrence(fields, n, j);
    }
  }

  /** The dictionary after the first `i` pairs of the zip. */
  ghost predicate ZipPrefix(d: Dict, fields: seq<string>, pieces: seq<string>, i: nat) {
    i <= |fields| && i <= |pieces|
    && (forall f :: f in d <==> exists j :: 0 <= j < i && fields[j] == f)
    && forall j :: 0 <= j < i && LastOccurrence(fields, i, j) ==> fields[j] in d && d[fields[j]] == pieces[j]
  }

  /** One pair more: the field gets its piece and hides earlier pieces of the same field. */
  lemma ZipStep(d: Dict, fields: seq<string>, pieces: seq<string>, i: nat)
    requires ZipPrefix(d, fields, pieces, i) && i < |fields| && i < |pieces|
    ensures ZipPrefix(d[fields[i] := pieces[i]], fields, pieces, i + 1)
  {
    var d' := d[fields[i] := pieces[i]];
    forall f
      ensures f in d' <==> exists j :: 0 <= j < i + 1 && fields[j] == f
    {
      if f in d' && f !in d {
        assert fields[i] == f;
      }
    }
    forall j | 0 <= j < i + 1 && LastOccurrence(fields, i + 1, j)
      ensures fields[j] in d' && d'[fields[j]] == pieces[j]
    {
      if j < i {
        assert fields[i] != fields[j];
        assert LastOccurrence(fields, i, j);
      }
    }
  }

  /** With distinct fields every field that has a piece holds that piece. */
  lemma DistinctZip(d: Dict, fields: seq<string>, pieces: seq<string>, j: nat)
    requires IsZip(d, fields, pieces)
    requires forall a, b :: 0 <= a < b < |fields| ==> fields[a] != fields[b]
    requires j < |fields| && j < |pieces|
    ensures fields[j] in d && d[fields[j]] == pieces[j]
  {
  }

  /** `parse_blast_output`: one dictionary per line, empty lines included. */
  method ParseBlastOutput(output: string, fields: seq<string>) returns (dicts: seq<Dict>)
    ensures |dicts| == |Split(output, '\n')|
    ensures forall k :: 0 <= k < |dicts| ==> IsZip(dicts[k], fields, Split(Split(output, '\n')[k], '\t'))
  {
    var lines := Split(output, '\n');
    dicts := [];
    for i := 0 to |lines|
      invariant |dicts| == i
      invariant forall k :: 0 <= k < i ==> IsZip(dicts[k], fields, Split(lines[k], '\t'))
    {
      var d := ZipRecord(fields, Split(lines[i], '\t'));
      dicts := dicts + [d];
    }
  }

  /** An empty line gives the first field with an empty value. */
  lemma EmptyLineRecord(d: Dict, fields: seq<string>)
    requires fields != [] && IsZip(d, fields, Split("", '\t'))
    ensures d == map[fields[0] := ""]
  {
    SplitEmpty('\t');
    assert d.Keys == {fields[0]};
  }

  /** When `qseqid` happens to come first in the field list, the empty line
      after the last line of output becomes a query with the empty
      identifier, and regrouping by position then fails: the empty
      identifier has no integer position. */
  lemma EmptyQueryBreaksRegrouping(dicts: seq<Dict>, keys: seq<string>, groups: map<string, seq<Dict>>)
    requires dicts != [] && dicts[|dicts| - 1] == map["qseqid" := ""]
    requires keys == QueryOrder(dicts) && forall q :: q in keys ==> q in groups
    ensures "" in keys
    ensures ByPositionSpec(keys, groups) == Err(ValueError)
  {
    assert HasQuery(dicts[|dicts| - 1], "");
    EmptyIdHasNoPosition();
    var k :| 0 <= k < |keys| && keys[k] == "";
    ByPositionFails(keys, groups);
  }

  /** The fields of a line of output, with empty lines read as no fields,
      which the grouping then ignores. */
  method ParseBlastOutputSkippingEmpty(output: string, fields: seq<string>) returns (dicts: seq<Dict>)
    ensures |dicts| == |Split(output, '\n')|
    ensures forall k :: 0 <= k < |dicts| ==>
      if Split(output, '\n')[k] == "" then dicts[k] == map[]
      else IsZip(dicts[k], fields, Split(Split(output, '\n')[k], '\t'))
  {
    var lines := Split(output, '\n');
    dicts := [];
    for i := 0 to |lines|
      invariant |dicts| == i
      invariant forall k :: 0 <= k < i ==>
        if lines[k] == "" then dicts[k] == map[] else IsZip(dicts[k], fields, Split(lines[k], '\t'))
    {
      if lines[i] == "" {
        dicts := dicts + [map[]];
      } else {
        var d := ZipRecord(fields, Split(lines[i], '\t'));
        dicts := dicts + [d];
      }
    }
  }

  // ---------------------------------------------------------------------------
  // is_positive_rna_count

  /** `(qend - qstart) / qlen`. */
  function Coverage(h: Hit): real
    requires h.qlen != 0
  {
    (h.qend - h.qstart) as real / h.qlen as real
  }

  predicate Covers(h: Hit, coverage: real)
    requires h.qlen != 0
  {
    Coverage(h) >= coverage
  }

  predicate NoEmptyQuery(s: seq<Hit>) {
    forall h :: h in s ==> h.qlen != 0
  }

  /** The comprehension that throws out hits below the coverage threshold. */
  function Covering(s: seq<Hit>, coverage: real): (r: seq<Hit>)
    requires NoEmptyQuery(s)
    ensures forall h :: h in r <==> h in s && h.qlen != 0 && Covers(h, coverage)
    decreases |s|
  {
    if s == [] then []
    else
      assert forall h :: h in s <==> h == s[0] || h in s[1..];
      (if Covers(s[0], coverage) then [s[0]] else []) + Covering(s[1..], coverage)
  }

  /** `float(d['pident']) / 100`. */
  function Identity(h: Hit): real {
    h.pident / 100.0
  }

  /** `is_positive_rna_count`: the coverage filter divides by every hit's
      `qlen`, so one hit with an empty query raises ZeroDivisionError. */
  function IsPositive(chrom: string, pos: int, hits: seq<Hit>, identity: real, coverage: real): (r: Result<bool>)
  {
    var sorted := SortByScore(hits);
    if !NoEmptyQuery(sorted) then Err(ZeroDivisionError)
    else Ok(CoveredVerdict(chrom, pos, Covering(sorted, coverage), identity))
  }

  /** The decisions on the sorted, filtered hits: the top one must be in range
      and identical enough; a second one that is identical enough too makes
      the read ambiguous; only the first two are looked at. */
  function CoveredVerdict(chrom: string, pos: int, covered: seq<Hit>, identity: real): bool {
    if |covered| == 0 then false
    else if !IsInRange(chrom, pos, covered[0]) || Identity(covered[0]) < identity then false
    else if |covered| == 1 then true
    else !(Identity(covered[1]) > identity)
  }

  /** The verdict fails exactly when some hit has an empty query. Otherwise it
      judges the first best covering hit and, when it is good and other hits
      cover too, the best of the remaining covering hits in the same way. */
  lemma Verdicts(chrom: string, pos: int, hits: seq<Hit>, identity: real, coverage: real)
    ensures IsPositive(chrom, pos, hits, identity, coverage).Err? <==> !NoEmptyQuery(hits)
    ensures IsPositive(chrom, pos, hits, identity, coverage).Err? ==>
      IsPositive(chrom, pos, hits, identity, coverage).error == ZeroDivisionError
    ensures NoEmptyQuery(hits) && Covering(hits, coverage) == [] ==>
      IsPositive(chrom, pos, hits, identity, coverage) == Ok(false)
    ensures NoEmptyQuery(hits) && Covering(hits, coverage) != [] ==>
      var top := Best(Covering(hits, coverage));
      (!IsInRange(chrom, pos, top) || Identity(top) < identity ==> IsPositive(chrom, pos, hits, identity, coverage) == Ok(false))
      && (|Covering(hits, coverage)| == 1 && IsInRange(chrom, pos, top) && Identity(top) >= identity ==>
            IsPositive(chrom, pos, hits, identity, coverage) == Ok(true))
      && (|Covering(hits, coverage)| >= 2 && IsInRange(chrom, pos, top) && Identity(top) >= identity ==>
            var runnerUp := Best(RemoveFirst(Covering(hits, coverage), top));
            IsPositive(chrom, pos, hits, identity, coverage) == Ok(!(Identity(runnerUp) > identity)))
  {
    var sorted := SortByScore(hits);
    SameMembers(hits, sorted);
    if NoEmptyQuery(hits) {
      CoveringSameMembers(hits, sorted, coverage);
      if Covering(hits, coverage) != [] {
        CoveringTopIsBest(hits, coverage);
        CoveringLength(hits, sorted, coverage);
        if |Covering(hits, coverage)| >= 2 {
          SecondCoveringIsRunnerUp(hits, coverage);
        }
      }
    }
  }

  /** Sorting keeps the hits. */
  lemma SameMembers(hits: seq<Hit>, sorted: seq<Hit>)
    requires multiset(sorted) == multiset(hits)
    ensures forall h :: h in sorted <==> h in hits
    ensures NoEmptyQuery(sorted) <==> NoEmptyQuery(hits)
  {
    assert forall h :: h in sorted <==> h in multiset(sorted);
    assert forall h :: h in hits <==> h in multiset(hits);
  }

  lemma CoveringSameMembers(hits: seq<Hit>, sorted: seq<Hit>, coverage: real)
    requires NoEmptyQuery(hits) && NoEmptyQuery(sorted)
    requires forall h :: h in sorted <==> h in hits
    ensures Covering(sorted, coverage) == [] <==> Covering(hits, coverage) == []
  {
    var a, b := Covering(sorted, coverage), Covering(hits, coverage);
    if a != [] {
      assert a[0] in b;
    }
    if b != [] {
      assert b[0] in a;
    }
  }

  /** Filtering keeps the number of hits when sorting keeps their multiset. */
  lemma CoveringLength(hits: seq<Hit>, sorted: seq<Hit>, coverage: real)
    requires NoEmptyQuery(hits) && NoEmptyQuery(sorted) && multiset(sorted) == multiset(hits)
    ensures |Covering(sorted, coverage)| == |Covering(hits, coverage)|
  {
    CoveringMultiset(hits, coverage);
    CoveringMultiset(sorted, coverage);
    var a, b := multiset(Covering(sorted, coverage)), multiset(Covering(hits, coverage));
    assert forall h :: a[h] == b[h];
    assert a == b;
    assert |Covering(sorted, coverage)| == |a|;
  }

  /** The multiset of the covering hits is a function of the multiset of hits. */
  lemma {:induction false} CoveringMultiset(s: seq<Hit>, coverage: real)
    requires NoEmptyQuery(s)
    ensures forall h :: multiset(Covering(s, coverage))[h] == if h.qlen != 0 && Covers(h, coverage) then multiset(s)[h] else 0
    decreases |s|
  {
    if s != [] {
      assert s == [s[0]] + s[1..];
      CoveringMultiset(s[1..], coverage);
    }
  }

  /** The first hit after sorting and filtering is the first best covering hit. */
  lemma CoveringTopIsBest(hits: seq<Hit>, coverage: real)
    requires NoEmptyQuery(hits) && Covering(hits, coverage) != []
    ensures NoEmptyQuery(SortByScore(hits))
    ensures Covering(SortByScore(hits), coverage) != []
    ensures Covering(SortByScore(hits), coverage)[0] == Best(Covering(hits, coverage))
  {
    var sorted := SortByScore(hits);
    SameMembers(hits, sorted);
    CoveringSameMembers(hits, sorted, coverage);
    var r, c := Covering(sorted, coverage), Covering(hits, coverage);
    CoveringDescending(sorted, coverage);
    var v := r[0].bitscore;
    forall k | 0 <= k < |c|
      ensures c[k].bitscore <= v
    {
      assert c[k] in c;
      assert c[k] in r;
    }
    CoveringWithScore(sorted, coverage, v);
    CoveringWithScore(hits, coverage, v);
    SortIsStable(hits, v);
    FirstWithTopScore(c, r);
    TopIsUnique(c, r[0], Best(c));
  }

  /** `s` without its first occurrence of `h`. */
  function RemoveFirst(s: seq<Hit>, h: Hit): (r: seq<Hit>)
    ensures h in s ==> |r| == |s| - 1
    ensures h !in s ==> r == s
    decreases |s|
  {
    if s == [] then []
    else
      assert s == [s[0]] + s[1..];
      if s[0] == h then s[1..] else [s[0]] + RemoveFirst(s[1..], h)
  }

  lemma {:induction false} RemoveFirstAt(s: seq<Hit>, i: nat)
    requires i < |s| && forall k :: 0 <= k < i ==> s[k] != s[i]
    ensures RemoveFirst(s, s[i]) == s[..i] + s[i + 1..]
    decreases i
  {
    if i > 0 {
      var t := s[1..];
      assert t[i - 1] == s[i];
      assert forall k :: 0 <= k < i - 1 ==> t[k] == s[k + 1];
      RemoveFirstAt(t, i - 1);
      assert s[0] != s[i];
      assert RemoveFirst(s, s[i]) == [s[0]] + RemoveFirst(t, s[i]);
      assert t[..i - 1] == s[1..i] && t[i..] == s[i + 1..];
      assert s[..i] == [s[0]] + s[1..i];
      Associative([s[0]], s[1..i], s[i + 1..]);
    } else {
      assert RemoveFirst(s, s[0]) == s[1..];
    }
  }

  /** The second hit after sorting and filtering is the first best of the
      covering hits once the first best one is taken out. */
  lemma SecondCoveringIsRunnerUp(hits: seq<Hit>, coverage: real)
    requires NoEmptyQuery(hits) && |Covering(hits, coverage)| >= 2
    ensures NoEmptyQuery(SortByScore(hits)) && |Covering(SortByScore(hits), coverage)| >= 2
    ensures var c := Covering(hits, coverage);
      |RemoveFirst(c, Best(c))| >= 1 && Covering(SortByScore(hits), coverage)[1] == Best(RemoveFirst(c, Best(c)))
  {
    SortedCovering(hits, coverage);
    var r, c := Covering(SortByScore(hits), coverage), Covering(hits, coverage);
    var i :| 0 <= i < |c| && c[i] == r[0] && forall k :: 0 <= k < i ==> c[k].bitscore < r[0].bitscore;
    assert forall k :: 0 <= k < i ==> c[k] != c[i];
    RemoveFirstAt(c, i);
    SortedCoveringWithScore(hits, coverage, r[1].bitscore);
    RunnerUp(r, c, i);
  }

  /** The covering hits after sorting: as many, the same ones, in descending
      order, the first best of them first. */
  lemma SortedCovering(hits: seq<Hit>, coverage: real)
    requires NoEmptyQuery(hits) && |Covering(hits, coverage)| >= 2
    ensures NoEmptyQuery(SortByScore(hits))
    ensures var r, c := Covering(SortByScore(hits), coverage), Covering(hits, coverage);
      |r| == |c| && ScoreDescending(r) && multiset(r) == multiset(c) && r[0] == Best(c)
  {
    var sorted := SortByScore(hits);
    SameMembers(hits, sorted);
    CoveringLength(hits, sorted, coverage);
    CoveringTopIsBest(hits, coverage);
    CoveringDescending(sorted, coverage);
    CoveringSameMultiset(hits, sorted, coverage);
  }

  /** With `r` the score-descending order of `c` that keeps each score's hits
      in step, the second hit of `r` is the best of `c` without its top hit. */
  lemma RunnerUp(r: seq<Hit>, c: seq<Hit>, i: nat)
    requires |r| >= 2 && ScoreDescending(r) && i < |c| && c[i] == r[0]
    requires forall k :: 0 <= k < i ==> c[k].bitscore < r[0].bitscore
    requires multiset(r) == multiset(c)
    requires WithScore(r, r[1].bitscore) == WithScore(c, r[1].bitscore)
    ensures c[..i] + c[i + 1..] != [] && r[1] == Best(c[..i] + c[i + 1..])
  {
    var top, rest, r' := r[0], c[..i] + c[i + 1..], r[1..];
    assert c == c[..i] + [top] + c[i + 1..];
    assert r == [top] + r';
    TakeOutTop(r, c, i);
    var v := r'[0].bitscore;
    WithoutTop(c[..i], top, c[i + 1..], r', v);
    BoundedByHead(r', rest);
    FirstWithTopScore(rest, r');
    TopIsUnique(rest, r'[0], Best(rest));
  }

  /** Taking the top hit out of both orders leaves the same hits. */
  lemma TakeOutTop(r: seq<Hit>, c: seq<Hit>, i: nat)
    requires r != [] && i < |c| && c[i] == r[0] && multiset(r) == multiset(c)
    ensures multiset(c[..i] + c[i + 1..]) == multiset(r[1..])
  {
    var a, b := c[..i], c[i + 1..];
    assert c == a + [c[i]] + b;
    assert r == [r[0]] + r[1..];
    assert multiset(c) == multiset(a) + multiset{c[i]} + multiset(b);
    assert multiset(r) == multiset{r[0]} + multiset(r[1..]);
    assert multiset(a + b) == multiset(a) + multiset(b);
    var t := r[0];
    forall h
      ensures multiset(a + b)[h] == multiset(r[1..])[h]
    {
      assert multiset(c)[h] == multiset(r)[h];
      assert multiset(c)[h] == multiset(a)[h] + multiset{t}[h] + multiset(b)[h];
      assert multiset(r)[h] == multiset{t}[h] + multiset(r[1..])[h];
    }
    assert multiset(a + b) == multiset(r[1..]);
  }

  /** Every hit of `s` scores at most the head of the descending `d` when both
      hold the same hits. */
  lemma BoundedByHead(d: seq<Hit>, s: seq<Hit>)
    requires d != [] && ScoreDescending(d) && multiset(s) == multiset(d)
    ensures s != [] && forall x :: x in s ==> x.bitscore <= d[0].bitscore
    ensures forall k :: 0 <= k < |s| ==> s[k].bitscore <= d[0].bitscore
  {
    assert d[0] in multiset(s);
    forall x | x in s
      ensures x.bitscore <= d[0].bitscore
    {
      assert x in multiset(d);
      var j :| 0 <= j < |d| && d[j] == x;
    }
  }

  /** Sorting before filtering keeps the covering hits with multiplicity. */
  lemma CoveringSameMultiset(hits: seq<Hit>, sorted: seq<Hit>, coverage: real)
    requires NoEmptyQuery(hits) && NoEmptyQuery(sorted) && multiset(sorted) == multiset(hits)
    ensures multiset(Covering(sorted, coverage)) == multiset(Covering(hits, coverage))
  {
    CoveringMultiset(hits, coverage);
    CoveringMultiset(sorted, coverage);
    var a, b := multiset(Covering(sorted, coverage)), multiset(Covering(hits, coverage));
    assert forall h :: a[h] == b[h];
  }

  /** Sorting before filtering keeps, for each score, the order of its covering hits. */
  lemma SortedCoveringWithScore(hits: seq<Hit>, coverage: real, v: real)
    requires NoEmptyQuery(hits)
    ensures NoEmptyQuery(SortByScore(hits))
    ensures WithScore(Covering(SortByScore(hits), coverage), v) == WithScore(Covering(hits, coverage), v)
  {
    SameMembers(hits, SortByScore(hits));
    CoveringWithScore(SortByScore(hits), coverage, v);
    CoveringWithScore(hits, coverage, v);
    SortIsStable(hits, v);
  }

  /** Taking the top hit off the front of one order and out of the other, where
      nothing before it has its score, keeps the hits of each score in step. */
  lemma WithoutTop(a: seq<Hit>, top: Hit, b: seq<Hit>, r': seq<Hit>, v: real)
    requires forall k :: 0 <= k < |a| ==> a[k].bitscore < top.bitscore
    requires WithScore([top] + r', v) == WithScore(a + [top] + b, v)
    ensures WithScore(r', v) == WithScore(a + b, v)
  {
    WithScoreAppend([top], r', v);
    WithScoreAround(a, top, b, v);
    WithScoreAppend(a, b, v);
    assert WithScore([top], v) == if top.bitscore == v then [top] else [] by {
      assert [top][1..] == [];
    }
    var wr, wa, wb := WithScore(r', v), WithScore(a, v), WithScore(b, v);
    if top.bitscore == v {
      WithScoreNone(a, v);
      assert [top] + wr == [top] + wb;
      assert ([top] + wr)[1..] == wr && ([top] + wb)[1..] == wb;
      assert wa + wb == wb;
    } else {
      assert [] + wr == wr && wa + [] + wb == wa + wb;
    }
  }

  lemma {:induction false} CoveringDescending(s: seq<Hit>, coverage: real)
    requires NoEmptyQuery(s) && ScoreDescending(s)
    ensures ScoreDescending(Covering(s, coverage))
    decreases |s|
  {
    if s != [] {
      CoveringDescending(s[1..], coverage);
      var rest := Covering(s[1..], coverage);
      assert forall k :: 0 <= k < |rest| ==> rest[k] in s[1..];
      assert forall h :: h in s[1..] ==> h.bitscore <= s[0].bitscore;
    }
  }

  /** The two filters commute. */
  lemma {:induction false} CoveringWithScore(s: seq<Hit>, coverage: real, v: real)
    requires NoEmptyQuery(s)
    ensures NoEmptyQuery(WithScore(s, v))
    ensures WithScore(Covering(s, coverage), v) == Covering(WithScore(s, v), coverage)
    decreases |s|
  {
    if s != [] {
      CoveringWithScore(s[1..], coverage, v);
      var head := if s[0].bitscore == v then [s[0]] else [];
      var c := if Covers(s[0], coverage) then [s[0]] else [];
      var restW := WithScore(s[1..], v);
      var restC := Covering(s[1..], coverage);
      WithScoreAppend(c, restC, v);
      assert WithScore(c, v) == (if s[0].bitscore == v && Covers(s[0], coverage) then [s[0]] else []) by {
        if c != [] {
          assert c[1..] == [];
        }
      }
      assert forall h :: h in WithScore(s, v) ==> h in s by {
        WithScoreMembers(s, v);
      }
      CoveringAppend(head, restW, coverage);
      assert Covering(head, coverage) == (if s[0].bitscore == v && Covers(s[0], coverage) then [s[0]] else []) by {
        if head != [] {
          assert head[1..] == [];
        }
      }
    }
  }

  lemma {:induction false} WithScoreMembers(s: seq<Hit>, v: real)
    ensures forall h :: h in WithScore(s, v) ==> h in s
    decreases |s|
  {
    if s != [] {
      WithScoreMembers(s[1..], v);
    }
  }

  lemma {:induction false} CoveringAppend(a: seq<Hit>, b: seq<Hit>, coverage: real)
    requires NoEmptyQuery(a) && NoEmptyQuery(b)
    ensures NoEmptyQuery(a + b)
    ensures Covering(a + b, coverage) == Covering(a, coverage) + Covering(b, coverage)
    decreases |a|
  {
    if a == [] {
      assert a + b == b;
    } else {
      assert (a + b)[0] == a[0] && (a + b)[1..] == a[1..] + b;
      CoveringAppend(a[1..], b, coverage);
    }
  }

  /** The verdict as a classifier of reads. */
  function Classifier(identity: real, coverage: real): Classifier {
    (c, p, hs) => IsPositive(c, p, hs, identity, coverage)
  }

  /** `get_rna_editing_annotations`: the fraction of positive reads per
      position; an empty query anywhere raises ZeroDivisionError. */
  method RnaEditingFractions(byPos: map<Position, map<string, seq<Hit>>>, identity: real, coverage: real)
    returns (r: Result<map<Position, real>>)
    ensures r.Ok? <==> forall pos, q :: pos in byPos && q in byPos[pos] ==> NoEmptyQuery(byPos[pos][q])
    ensures r.Err? ==> r.error == ZeroDivisionError
    ensures r.Ok? ==> r.value.Keys == byPos.Keys
    ensures r.Ok? ==> forall pos :: pos in r.value ==>
      r.value[pos] == FractionAt(Classifier(identity, coverage), byPos, pos) && 0.0 <= r.value[pos] <= 1.0
  {
    var classify := Classifier(identity, coverage);
    forall pos, q | pos in byPos && q in byPos[pos]
      ensures classify(pos.0, pos.1, byPos[pos][q]).Ok? <==> NoEmptyQuery(byPos[pos][q])
      ensures classify(pos.0, pos.1, byPos[pos][q]).Err? ==> classify(pos.0, pos.1, byPos[pos][q]).error == ZeroDivisionError
    {
      Verdicts(pos.0, pos.1, byPos[pos][q], identity, coverage);
    }
    r := PassFractions(classify, byPos);
    if r.Err? {
      var pos, q :| pos in byPos && q in byPos[pos] && classify(pos.0, pos.1, byPos[pos][q]) == Err(r.error);
    } else {
      forall pos | pos in r.value
        ensures 0.0 <= r.value[pos] <= 1.0
      {
        PassFractionsBounded(classify, byPos, pos);
      }
    }
  }
}
