/** The pieces annotation-station/blat.py and annotation-station/blast.py share
    when they decide whether a read supports an RNA editing site: alignment
    hits, the range test, the stable sort by bit score, the read identifiers
    written next to each read, the grouping of hits by query and by position,
    the pass fraction and the '.' given to positions without a result. */
module RnaEditing {
  import opened Outcomes
  import opened Strings
  import Repeats

  /** One alignment hit, its numeric fields already converted. */
  datatype Hit = Hit(sseqid: string, sstart: int, send: int, bitscore: real, pident: real,
                     qstart: int, qend: int, qlen: int)

  // ---------------------------------------------------------------------------
  // Range test

  /** A string whose only line break, if any, is its last character. */
  predicate OneLine(t: string) {
    '\n' !in (if t != [] && t[|t| - 1] == '\n' then t[..|t| - 1] else t)
  }

  /** `re.sub(r'^chr(.*)$', r'\1', s)`: "chr" goes when the rest is one line
      (`.` does not match a line break; `$` also matches before a final one). */
  function ChrSub(s: string): (r: string)
    ensures StartsWith(s, "chr") && OneLine(s[3..]) ==> "chr" + r == s
    ensures !(StartsWith(s, "chr") && OneLine(s[3..])) ==> r == s
  {
    if StartsWith(s, "chr") && OneLine(s[3..]) then s[3..] else s
  }

  /** On one-line names it is the chromosome normalization of the repeat index. */
  lemma ChrSubIsNormalize(s: string)
    requires '\n' !in s
    ensures ChrSub(s) == Repeats.NormalizeChrom(s)
  {
    if StartsWith(s, "chr") {
      assert forall k :: 0 <= k < |s[3..]| ==> s[3..][k] == s[k + 3];
      assert '\n' !in s[3..];
    }
  }

  /** `is_in_range(chrom, pos, d)`: the hit lies on the same chromosome, up to
      "chr", and its subject window contains `pos`, both ends included. */
  predicate IsInRange(chrom: string, pos: int, h: Hit) {
    ChrSub(h.sseqid) == ChrSub(chrom) && h.sstart <= pos && h.send >= pos
  }

  /** A hit with its window reversed is never in range, and the "chr" of the
      query does not matter. */
  lemma InRangeProperties(c: string, pos: int, h: Hit)
    requires !StartsWith(c, "chr") && '\n' !in c
    ensures IsInRange("chr" + c, pos, h) <==> IsInRange(c, pos, h)
    ensures h.sstart > h.send ==> !IsInRange(c, pos, h)
  {
    var s := "chr" + c;
    assert s[..3] == "chr" && s[3..] == c;
    assert OneLine(c);
  }

  // ---------------------------------------------------------------------------
  // sorted(hits, key=bitscore, reverse=True)

  predicate ScoreDescending(s: seq<Hit>) {
    forall i, j :: 0 <= i < j < |s| ==> s[i].bitscore >= s[j].bitscore
  }

  /** Where a hit that precedes all of `s` goes: before the first element
      whose score is not larger, so that equal scores keep their order. */
  function InsertionPoint(h: Hit, s: seq<Hit>): (j: nat)
    ensures j <= |s| && (forall k :: 0 <= k < j ==> s[k].bitscore > h.bitscore)
    ensures j < |s| ==> s[j].bitscore <= h.bitscore
    decreases |s|
  {
    if s == [] || s[0].bitscore <= h.bitscore then 0 else 1 + InsertionPoint(h, s[1..])
  }

  lemma InsertAtSorted(h: Hit, s: seq<Hit>, j: nat)
    requires ScoreDescending(s) && j <= |s|
    requires (forall k :: 0 <= k < j ==> s[k].bitscore > h.bitscore) && (j < |s| ==> s[j].bitscore <= h.bitscore)
    ensures ScoreDescending(s[..j] + [h] + s[j..])
  {
    var r := s[..j] + [h] + s[j..];
    forall a, b | 0 <= a < b < |r|
      ensures r[a].bitscore >= r[b].bitscore
    {
      if b < j {
        assert r[a] == s[a] && r[b] == s[b];
      } else if b == j {
        assert r[a] == s[a];
      } else if a < j {
        assert r[a] == s[a] && r[b] == s[b - 1];
      } else if a == j {
        assert r[b] == s[b - 1];
      } else {
        assert r[a] == s[a - 1] && r[b] == s[b - 1];
      }
    }
  }

  lemma InsertAtMultiset(h: Hit, s: seq<Hit>, j: nat)
    requires j <= |s|
    ensures multiset(s[..j] + [h] + s[j..]) == multiset(s) + multiset{h}
  {
    assert s == s[..j] + s[j..];
  }

  /** A hit that came before all of the sorted `s`, put in its place. */
  function InsertHit(h: Hit, s: seq<Hit>): (r: seq<Hit>)
    requires ScoreDescending(s)
    ensures ScoreDescending(r) && multiset(r) == multiset(s) + multiset{h} && |r| == |s| + 1
  {
    var j := InsertionPoint(h, s);
    InsertAtSorted(h, s, j);
    InsertAtMultiset(h, s, j);
    s[..j] + [h] + s[j..]
  }

  /** The hits by bit score, highest first; `sorted` is stable, also with
      `reverse=True`. */
  function SortByScore(s: seq<Hit>): (r: seq<Hit>)
    ensures ScoreDescending(r) && multiset(r) == multiset(s) && |r| == |s|
    decreases |s|
  {
    if s == [] then []
    else
      assert s == [s[0]] + s[1..];
      InsertHit(s[0], SortByScore(s[1..]))
  }

  /** The hits whose score is `v`, in order. */
  function WithScore(s: seq<Hit>, v: real): seq<Hit>
    decreases |s|
  {
    if s == [] then [] else (if s[0].bitscore == v then [s[0]] else []) + WithScore(s[1..], v)
  }

  lemma {:induction false} WithScoreAppend(a: seq<Hit>, b: seq<Hit>, v: real)
    ensures WithScore(a + b, v) == WithScore(a, v) + WithScore(b, v)
    decreases |a|
  {
    if a == [] {
      assert a + b == b;
    } else {
      assert (a + b)[0] == a[0] && (a + b)[1..] == a[1..] + b;
      WithScoreAppend(a[1..], b, v);
    }
  }

  lemma {:induction false} WithScoreNone(s: seq<Hit>, v: real)
    requires forall k :: 0 <= k < |s| ==> s[k].bitscore != v
    ensures WithScore(s, v) == []
    decreases |s|
  {
    if s != [] {
      WithScoreNone(s[1..], v);
    }
  }

  /** Stability: the hits of any one score come out in their input order. */
  lemma {:induction false} SortIsStable(s: seq<Hit>, v: real)
    ensures WithScore(SortByScore(s), v) == WithScore(s, v)
    decreases |s|
  {
    if s != [] {
      SortIsStable(s[1..], v);
      InsertHitStable(s[0], SortByScore(s[1..]), v);
    }
  }

  lemma InsertHitStable(h: Hit, s: seq<Hit>, v: real)
    requires ScoreDescending(s)
    ensures WithScore(InsertHit(h, s), v) == (if h.bitscore == v then [h] else []) + WithScore(s, v)
  {
    var j := InsertionPoint(h, s);
    var a, b := s[..j], s[j..];
    assert WithScore(s, v) == WithScore(a, v) + WithScore(b, v) by {
      assert s == a + b;
      WithScoreAppend(a, b, v);
    }
    assert InsertHit(h, s) == a + [h] + b;
    WithScoreAround(a, h, b, v);
    var wa, wh, wb := WithScore(a, v), (if h.bitscore == v then [h] else []), WithScore(b, v);
    if h.bitscore == v {
      WithScoreNone(a, v);
      assert wa + wh == wh && wa + wb == wb;
    } else {
      assert wa + wh == wa;
    }
  }

  /** Filtering `a + [h] + b` filters the three parts. */
  lemma WithScoreAround(a: seq<Hit>, h: Hit, b: seq<Hit>, v: real)
    ensures WithScore(a + [h] + b, v)
      == WithScore(a, v) + (if h.bitscore == v then [h] else []) + WithScore(b, v)
  {
    WithScoreAppend(a + [h], b, v);
    WithScoreAppend(a, [h], v);
    assert WithScore([h], v) == if h.bitscore == v then [h] else [] by {
      assert [h][1..] == [];
    }
  }

  /** The first occurrence, in `s`, of a hit with score `v` heads `WithScore(s, v)`. */
  lemma {:induction false} WithScoreHead(s: seq<Hit>, v: real)
    requires WithScore(s, v) != []
    ensures exists i :: (0 <= i < |s| && s[i] == WithScore(s, v)[0]
      && s[i].bitscore == v && forall k :: 0 <= k < i ==> s[k].bitscore != v)
    decreases |s|
  {
    if s[0].bitscore != v {
      WithScoreHead(s[1..], v);
      var i :| 0 <= i < |s[1..]| && s[1..][i] == WithScore(s[1..], v)[0]
        && s[1..][i].bitscore == v && forall k :: 0 <= k < i ==> s[1..][k].bitscore != v;
      assert s[i + 1] == s[1..][i];
    } else {
      assert s[0] == WithScore(s, v)[0];
    }
  }

  /** `h` has the highest score in `s` and is the first hit of `s` with it. */
  predicate IsTop(s: seq<Hit>, h: Hit) {
    (forall x :: x in s ==> x.bitscore <= h.bitscore)
    && exists i :: 0 <= i < |s| && s[i] == h && forall k :: 0 <= k < i ==> s[k].bitscore < h.bitscore
  }

  /** The first hit of highest score, found by a scan of its own. */
  function Best(s: seq<Hit>): (b: Hit)
    requires s != []
    ensures IsTop(s, b)
    decreases |s|
  {
    if |s| == 1 then s[0]
    else
      var t := Best(s[1..]);
      assert forall x :: x in s ==> x == s[0] || x in s[1..];
      var i :| 0 <= i < |s[1..]| && s[1..][i] == t && forall k :: 0 <= k < i ==> s[1..][k].bitscore < t.bitscore;
      assert s[i + 1] == t;
      if s[0].bitscore >= t.bitscore then s[0] else t
  }

  /** Only one hit can be the top one. */
  lemma TopIsUnique(s: seq<Hit>, a: Hit, b: Hit)
    requires IsTop(s, a) && IsTop(s, b)
    ensures a == b
  {
    var i :| 0 <= i < |s| && s[i] == a && forall k :: 0 <= k < i ==> s[k].bitscore < a.bitscore;
    var j :| 0 <= j < |s| && s[j] == b && forall k :: 0 <= k < j ==> s[k].bitscore < b.bitscore;
    assert s[i] in s && s[j] in s;
  }

  /** The first hit after sorting is the first hit of highest score. */
  lemma SortedTopIsBest(s: seq<Hit>)
    requires s != []
    ensures SortByScore(s)[0] == Best(s)
  {
    TopHit(s);
    TopIsUnique(s, SortByScore(s)[0], Best(s));
  }

  /** The top hit after sorting has the highest score of all and is the first
      hit in input order with that score. */
  lemma TopHit(s: seq<Hit>)
    requires s != []
    ensures IsTop(s, SortByScore(s)[0])
  {
    TopIsMaximal(s);
    TopIsFirst(s);
  }

  lemma TopIsMaximal(s: seq<Hit>)
    requires s != []
    ensures forall h :: h in s ==> h.bitscore <= SortByScore(s)[0].bitscore
  {
    var r := SortByScore(s);
    forall h | h in s
      ensures h.bitscore <= r[0].bitscore
    {
      assert h in multiset(r);
      var k :| 0 <= k < |r| && r[k] == h;
    }
  }

  lemma TopIsFirst(s: seq<Hit>)
    requires s != []
    requires forall h :: h in s ==> h.bitscore <= SortByScore(s)[0].bitscore
    ensures var top := SortByScore(s)[0];
      exists i :: 0 <= i < |s| && s[i] == top && forall k :: 0 <= k < i ==> s[k].bitscore < top.bitscore
  {
    var r := SortByScore(s);
    SortIsStable(s, r[0].bitscore);
    assert forall k :: 0 <= k < |s| ==> s[k] in s;
    FirstWithTopScore(s, r);
  }

  lemma FirstWithTopScore(s: seq<Hit>, r: seq<Hit>)
    requires r != [] && WithScore(r, r[0].bitscore) == WithScore(s, r[0].bitscore)
    requires forall k :: 0 <= k < |s| ==> s[k].bitscore <= r[0].bitscore
    ensures exists i :: 0 <= i < |s| && s[i] == r[0] && forall k :: 0 <= k < i ==> s[k].bitscore < r[0].bitscore
  {
    var v := r[0].bitscore;
    assert WithScore(r, v)[0] == r[0];
    WithScoreHead(s, v);
    var i :| 0 <= i < |s| && s[i] == WithScore(s, v)[0]
      && s[i].bitscore == v && forall k :: 0 <= k < i ==> s[k].bitscore != v;
  }

  // ---------------------------------------------------------------------------
  // Read identifiers `chrom:pos|i`

  function LastIndexOf(s: string, c: char): (r: Option<nat>)
    ensures r.Some? ==> r.value < |s| && s[r.value] == c && forall j :: r.value < j < |s| ==> s[j] != c
    ensures r.None? <==> c !in s
    decreases |s|
  {
    if s == [] then None
    else if s[|s| - 1] == c then Some(|s| - 1)
    else
      var r := LastIndexOf(s[..|s| - 1], c);
      assert forall j :: 0 <= j < |s| - 1 ==> s[..|s| - 1][j] == s[j];
      assert c in s ==> c in s[..|s| - 1] by {
        if c in s {
          var j :| 0 <= j < |s| && s[j] == c;
          assert s[..|s| - 1][j] == c;
        }
      }
      r
  }

  lemma LastIndexOfIs(s: string, c: char, i: nat)
    requires i < |s| && s[i] == c && forall j :: i < j < |s| ==> s[j] != c
    ensures LastIndexOf(s, c) == Some(i)
  {
  }

  /** The text the three regular expressions of
      `get_rna_editing_blast_annotations` pull out of an identifier:
      `^(.*):.*$` keeps what precedes the last ':', `^.*:(.*)\|.*$` what lies
      between the last '|' and the last ':' before it, `^.*\|(.*)$` what
      follows the last '|'; a pattern that does not match leaves the whole
      identifier. */
  function ChromText(id: string): string {
    match LastIndexOf(id, ':')
    case None => id
    case Some(i) => id[..i]
  }

  function PosText(id: string): string {
    match LastIndexOf(id, '|')
    case None => id
    case Some(j) =>
      match LastIndexOf(id[..j], ':')
      case None => id
      case Some(i) => id[i + 1..j]
  }

  function ReadText(id: string): string {
    match LastIndexOf(id, '|')
    case None => id
    case Some(j) => id[j + 1..]
  }

  /** `(chrom, int(pos), read)` of an identifier; `int` raises ValueError. */
  function ParseReadId(id: string): (r: Result<(string, int, string)>)
    ensures r.Err? <==> ParseInt(PosText(id)).None?
    ensures r.Err? ==> r.error == ValueError
    ensures r.Ok? ==> r.value == (ChromText(id), ParseInt(PosText(id)).value, ReadText(id))
  {
    match ParseInt(PosText(id))
    case None => Err(ValueError)
    case Some(p) => Ok((ChromText(id), p, ReadText(id)))
  }

  /** The empty identifier has no position: `int('')` raises ValueError. */
  lemma EmptyIdHasNoPosition()
    ensures ParseReadId("") == Err(ValueError)
  {
    assert PosText("") == "";
  }

  /** The identifier written for the `i`-th read at `(chrom, pos)`:
      `f'{chrom}:{pos}|{i}'` in annotation-station/bam_utils.py. */
  function ReadId(chrom: string, pos: int, i: nat): string {
    chrom + ":" + IntToString(pos) + "|" + IntToString(i)
  }

  lemma IntToStringPlain(i: int)
    ensures Plain(IntToString(i))
  {
    if i < 0 {
      assert forall k :: 1 <= k < |IntToString(i)| ==> IntToString(i)[k] == NatToString(-i)[k - 1];
    }
  }

  predicate Plain(t: string) {
    forall k :: 0 <= k < |t| ==> t[k] != ':' && t[k] != '|'
  }

  /** Every identifier the writer produces reads back as its chromosome, its
      position and its read number, whatever other characters the chromosome
      holds; the source's patterns agree only when it holds no line break. */
  lemma ReadIdRoundTrip(chrom: string, pos: int, i: nat)
    ensures ParseReadId(ReadId(chrom, pos, i)) == Ok((chrom, pos, IntToString(i)))
  {
    IntToStringPlain(pos);
    IntToStringPlain(i);
    SplitsAtSeparators(chrom, IntToString(pos), IntToString(i));
    ParseIntToString(pos);
  }

  lemma SplitsAtSeparators(chrom: string, p: string, n: string)
    requires Plain(p) && Plain(n)
    ensures var id := chrom + ":" + p + "|" + n;
      ChromText(id) == chrom && PosText(id) == p && ReadText(id) == n
  {
    var head := chrom + ":" + p;
    var id := head + "|" + n;
    LastAfter(head + "|", n, '|');
    LastAfter(chrom + ":", p, ':');
    NoColonAfter(chrom, p, n);
    Pieces(chrom, p, n);
  }

  /** The last `c` of `a + b` is the one ending `a` when `b` has none. */
  lemma LastAfter(a: string, b: string, c: char)
    requires |a| > 0 && a[|a| - 1] == c
    requires forall k :: 0 <= k < |b| ==> b[k] != c
    ensures LastIndexOf(a + b, c) == Some(|a| - 1)
  {
    var s := a + b;
    forall j | |a| - 1 < j < |s|
      ensures s[j] != c
    {
      assert s[j] == b[j - |a|];
    }
    LastIndexOfIs(s, c, |a| - 1);
  }

  lemma NoColonAfter(chrom: string, p: string, n: string)
    requires Plain(p) && Plain(n)
    ensures LastIndexOf(chrom + ":" + p + "|" + n, ':') == Some(|chrom|)
  {
    TailHasNoColon(p, n);
    LastAfter(chrom + ":", p + "|" + n, ':');
    Associative(chrom + ":" + p, "|", n);
    Associative(chrom + ":", p, "|" + n);
    Associative(p, "|", n);
  }

  lemma TailHasNoColon(p: string, n: string)
    requires Plain(p) && Plain(n)
    ensures forall k :: 0 <= k < |p + "|" + n| ==> (p + "|" + n)[k] != ':'
  {
    var tail := p + "|" + n;
    forall k | 0 <= k < |tail|
      ensures tail[k] != ':'
    {
      if k < |p| {
        assert tail[k] == p[k];
      } else if k > |p| {
        assert tail[k] == n[k - |p| - 1];
      }
    }
  }

  lemma Pieces(chrom: string, p: string, n: string)
    ensures var id := chrom + ":" + p + "|" + n;
      var bar := |chrom| + 1 + |p|;
      id[..|chrom|] == chrom && id[..bar] == chrom + ":" + p
      && id[|chrom| + 1..bar] == p && id[bar + 1..] == n
  {
  }

  // ---------------------------------------------------------------------------
  // Grouping by query: `blat_fasta` / `blastn_fasta`

  /** One parsed output line, field name to text. */
  type Dict = map<string, string>

  predicate HasQuery(d: Dict, q: string) {
    "qseqid" in d && d["qseqid"] == q
  }

  /** The lines whose `qseqid` is `q`, in output order. */
  function QueryHits(dicts: seq<Dict>, q: string): seq<Dict>
    decreases |dicts|
  {
    if dicts == [] then []
    else
      var init, last := dicts[..|dicts| - 1], dicts[|dicts| - 1];
      QueryHits(init, q) + (if HasQuery(last, q) then [last] else [])
  }

  /** The queries in order of first appearance: the key order of the
      resulting dictionary. */
  function QueryOrder(dicts: seq<Dict>): (order: seq<string>)
    ensures forall i, j :: 0 <= i < j < |order| ==> order[i] != order[j]
    ensures forall q :: q in order <==> exists k :: 0 <= k < |dicts| && HasQuery(dicts[k], q)
    decreases |dicts|
  {
    if dicts == [] then []
    else
      var init, last := dicts[..|dicts| - 1], dicts[|dicts| - 1];
      var order := QueryOrder(init);
      assert forall k :: 0 <= k < |init| ==> init[k] == dicts[k];
      if "qseqid" in last && last["qseqid"] !in order then order + [last["qseqid"]] else order
  }

  lemma QueryHitsEmpty(dicts: seq<Dict>, q: string)
    requires q !in QueryOrder(dicts)
    ensures QueryHits(dicts, q) == []
    decreases |dicts|
  {
    if dicts != [] {
      var init := dicts[..|dicts| - 1];
      assert forall k :: 0 <= k < |init| ==> init[k] == dicts[k];
      QueryHitsEmpty(init, q);
    }
  }

  /** An empty dictionary, such as a line without fields gives, changes
      neither the queries nor their hits. */
  lemma EmptyRecordIgnored(dicts: seq<Dict>, q: string)
    ensures QueryOrder(dicts + [map[]]) == QueryOrder(dicts)
    ensures QueryHits(dicts + [map[]], q) == QueryHits(dicts, q)
  {
    var ds := dicts + [map[]];
    assert ds[..|ds| - 1] == dicts;
    assert !HasQuery(ds[|ds| - 1], q);
  }

  /** `sequence_to_results`: the keys in dictionary order and the lists. */
  method GroupByQuery(dicts: seq<Dict>) returns (keys: seq<string>, groups: map<string, seq<Dict>>)
    ensures keys == QueryOrder(dicts)
    ensures forall q :: q in groups <==> q in keys
    ensures forall q :: q in groups ==> groups[q] == QueryHits(dicts, q) && groups[q] != []
  {
    keys, groups := [], map[];
    for i := 0 to |dicts|
      invariant keys == QueryOrder(dicts[..i])
      invariant forall q :: q in groups <==> q in keys
      invariant forall q :: q in groups ==> groups[q] == QueryHits(dicts[..i], q) && groups[q] != []
    {
      var d := dicts[i];
      assert dicts[..i + 1][..i] == dicts[..i] && dicts[..i + 1][i] == d;
      if "qseqid" in d {
        var q := d["qseqid"];
        if q !in groups {
          QueryHitsEmpty(dicts[..i], q);
          keys := keys + [q];
          groups := groups[q := [d]];
        } else {
          groups := groups[q := groups[q] + [d]];
        }
      }
      forall q | q in groups
        ensures groups[q] == QueryHits(dicts[..i + 1], q)
      {
      }
    }
    assert dicts[..|dicts|] == dicts;
  }

  // ---------------------------------------------------------------------------
  // Regrouping by position: `get_rna_editing_blast_annotations`

  type Position = (string, int)

  /** How an identifier is split into its chromosome, position and read. */
  type IdParser = string -> Result<(string, int, string)>

  /** `position_to_read_results` after the given identifiers, taken in key
      order and each split by `parse`; a later identifier with the same
      position and read replaces an earlier one. */
  function Regroup<T>(parse: IdParser, keys: seq<string>, groups: map<string, T>): Result<map<Position, map<string, T>>>
    requires forall q :: q in keys ==> q in groups
    decreases |keys|
  {
    if keys == [] then Ok(map[])
    else
      var init, last := keys[..|keys| - 1], keys[|keys| - 1];
      match Regroup(parse, init, groups)
      case Err(e) => Err(e)
      case Ok(m) =>
        match parse(last)
        case Err(e) => Err(e)
        case Ok(t) => Ok(AddEntry(m, t, groups[last]))
  }

  /** `position_to_read_results` after the first entries of the dictionary. */
  function ByPositionSpec<T>(keys: seq<string>, groups: map<string, T>): Result<map<Position, map<string, T>>>
    requires forall q :: q in keys ==> q in groups
  {
    Regroup(ParseReadId, keys, groups)
  }

  /** `position_to_read_results[(chrom, pos)][read] = v`, creating the inner
      dictionary when the position is new. */
  function AddEntry<T>(m: map<Position, map<string, T>>, t: (string, int, string), v: T): map<Position, map<string, T>> {
    var inner := if (t.0, t.1) in m then m[(t.0, t.1)] else map[];
    m[(t.0, t.1) := inner[t.2 := v]]
  }

  lemma RegroupStep<T>(parse: IdParser, keys: seq<string>, i: nat, groups: map<string, T>)
    requires forall q :: q in keys ==> q in groups
    requires i < |keys|
    ensures Regroup(parse, keys[..i + 1], groups)
      == match Regroup(parse, keys[..i], groups)
         case Err(e) => Err(e)
         case Ok(m) =>
           match parse(keys[i])
           case Err(e) => Err(e)
           case Ok(t) => Ok(AddEntry(m, t, groups[keys[i]]))
  {
    assert keys[..i + 1][..i] == keys[..i] && keys[..i + 1][i] == keys[i];
  }

  /** The loop's step when the `i`-th identifier parses. */
  lemma RegroupSnoc<T>(parse: IdParser, keys: seq<string>, i: nat, groups: map<string, T>, m: map<Position, map<string, T>>, t: (string, int, string))
    requires forall q :: q in keys ==> q in groups
    requires i < |keys| && Regroup(parse, keys[..i], groups) == Ok(m) && parse(keys[i]) == Ok(t)
    ensures Regroup(parse, keys[..i + 1], groups) == Ok(AddEntry(m, t, groups[keys[i]]))
  {
    RegroupStep(parse, keys, i, groups);
  }

  /** The loop's exit when the `i`-th identifier does not parse. */
  lemma RegroupStops<T>(parse: IdParser, keys: seq<string>, i: nat, groups: map<string, T>, m: map<Position, map<string, T>>)
    requires forall q :: q in keys ==> q in groups
    requires i < |keys| && Regroup(parse, keys[..i], groups) == Ok(m) && parse(keys[i]).Err?
    ensures Regroup(parse, keys, groups) == Err(parse(keys[i]).error)
  {
    RegroupStep(parse, keys, i, groups);
    RegroupFailureSticks(parse, keys, i + 1, groups);
  }

  method ByPosition<T>(keys: seq<string>, groups: map<string, T>) returns (r: Result<map<Position, map<string, T>>>)
    requires forall q :: q in keys ==> q in groups
    ensures r == ByPositionSpec(keys, groups)
  {
    var byPos: map<Position, map<string, T>> := map[];
    for i := 0 to |keys|
      invariant Regroup(ParseReadId, keys[..i], groups) == Ok(byPos)
    {
      var id := keys[i];
      var chrom := ChromText(id);
      var posText := PosText(id);
      var pos := ParseInt(posText);
      if pos.None? {
        RegroupStops(ParseReadId, keys, i, groups, byPos);
        return Err(ValueError);
      }
      var read := ReadText(id);
      var key := (chrom, pos.value);
      RegroupSnoc(ParseReadId, keys, i, groups, byPos, (chrom, pos.value, read));
      var inner := if key in byPos then byPos[key] else map[];
      byPos := byPos[key := inner[read := groups[id]]];
    }
    assert keys[..|keys|] == keys;
    return Ok(byPos);
  }

  lemma {:induction false} RegroupFailureSticks<T>(parse: IdParser, keys: seq<string>, j: nat, groups: map<string, T>)
    requires forall q :: q in keys ==> q in groups
    requires j <= |keys| && Regroup(parse, keys[..j], groups).Err?
    ensures Regroup(parse, keys, groups) == Regroup(parse, keys[..j], groups)
    decreases |keys| - j
  {
    if j < |keys| {
      assert keys[..j + 1][..j] == keys[..j];
      RegroupFailureSticks(parse, keys, j + 1, groups);
    } else {
      assert keys[..j] == keys;
    }
  }

  /** The regrouping fails, with ValueError, exactly when some identifier has
      no integer position. */
  lemma ByPositionFails<T>(keys: seq<string>, groups: map<string, T>)
    requires forall q :: q in keys ==> q in groups
    ensures ByPositionSpec(keys, groups).Err? <==> exists k :: 0 <= k < |keys| && ParseReadId(keys[k]).Err?
    ensures ByPositionSpec(keys, groups).Err? ==> ByPositionSpec(keys, groups).error == ValueError
  {
    RegroupFails(ParseReadId, keys, groups);
    RegroupError(ParseReadId, keys, groups, ValueError);
  }

  /** Whatever the parser, the regrouping fails exactly when some identifier
      does not parse. */
  lemma RegroupFails<T>(parse: IdParser, keys: seq<string>, groups: map<string, T>)
    requires forall q :: q in keys ==> q in groups
    ensures Regroup(parse, keys, groups).Err? <==> exists k :: 0 <= k < |keys| && parse(keys[k]).Err?
  {
    if exists k :: 0 <= k < |keys| && parse(keys[k]).Err? {
      var k :| 0 <= k < |keys| && parse(keys[k]).Err?;
      RegroupBadIdFails(parse, keys, groups, k);
    } else {
      RegroupAllParse(parse, keys, groups);
    }
  }

  lemma {:induction false} RegroupBadIdFails<T>(parse: IdParser, keys: seq<string>, groups: map<string, T>, k: nat)
    requires forall q :: q in keys ==> q in groups
    requires k < |keys| && parse(keys[k]).Err?
    ensures Regroup(parse, keys, groups).Err?
    decreases |keys|
  {
    var n := |keys| - 1;
    if k < n {
      var init := keys[..n];
      assert init[k] == keys[k];
      RegroupBadIdFails(parse, init, groups, k);
    }
  }

  lemma {:induction false} RegroupAllParse<T>(parse: IdParser, keys: seq<string>, groups: map<string, T>)
    requires forall q :: q in keys ==> q in groups
    requires forall k :: 0 <= k < |keys| ==> parse(keys[k]).Ok?
    ensures Regroup(parse, keys, groups).Ok?
    decreases |keys|
  {
    if keys != [] {
      var init := keys[..|keys| - 1];
      assert forall k :: 0 <= k < |init| ==> init[k] == keys[k];
      RegroupAllParse(parse, init, groups);
    }
  }

  /** A parser that only ever raises `e` makes the regrouping raise only `e`. */
  lemma {:induction false} RegroupError<T>(parse: IdParser, keys: seq<string>, groups: map<string, T>, e: Error)
    requires forall q :: q in keys ==> q in groups
    requires forall x :: parse(x).Err? ==> parse(x).error == e
    ensures Regroup(parse, keys, groups).Err? ==> Regroup(parse, keys, groups).error == e
    decreases |keys|
  {
    if keys != [] {
      RegroupError(parse, keys[..|keys| - 1], groups, e);
    }
  }

  /** `m[(chrom, pos)][read] == v`. */
  ghost predicate Stored<T>(m: map<Position, map<string, T>>, t: (string, int, string), v: T) {
    (t.0, t.1) in m && t.2 in m[(t.0, t.1)] && m[(t.0, t.1)][t.2] == v
  }

  /** No identifier after the `k`-th names the same position and read. */
  predicate LastOfItsKind(parse: IdParser, keys: seq<string>, k: nat) {
    k < |keys| && forall j :: k < j < |keys| ==> parse(keys[j]) != parse(keys[k])
  }

  /** Each identifier's results sit under its position and read unless a
      later identifier names the same position and read. */
  lemma ByPositionFinds<T>(keys: seq<string>, groups: map<string, T>, k: nat)
    requires forall q :: q in keys ==> q in groups
    requires ByPositionSpec(keys, groups).Ok? && LastOfItsKind(ParseReadId, keys, k) && ParseReadId(keys[k]).Ok?
    ensures Stored(ByPositionSpec(keys, groups).value, ParseReadId(keys[k]).value, groups[keys[k]])
  {
    RegroupFinds(ParseReadId, keys, groups, k);
  }

  lemma {:induction false} RegroupFinds<T>(parse: IdParser, keys: seq<string>, groups: map<string, T>, k: nat)
    requires forall q :: q in keys ==> q in groups
    requires Regroup(parse, keys, groups).Ok? && LastOfItsKind(parse, keys, k) && parse(keys[k]).Ok?
    ensures Stored(Regroup(parse, keys, groups).value, parse(keys[k]).value, groups[keys[k]])
    decreases |keys|
  {
    var n := |keys| - 1;
    var init := keys[..n];
    RegroupLast(parse, keys, groups);
    if k < n {
      LastOfItsKindInit(parse, keys, k);
      RegroupFinds(parse, init, groups, k);
      AddEntryKeeps(Regroup(parse, init, groups).value, parse(keys[n]).value, groups[keys[n]], parse(init[k]).value, groups[init[k]]);
    } else {
      AddEntryHas(Regroup(parse, init, groups).value, parse(keys[n]).value, groups[keys[n]]);
    }
  }

  /** A successful regrouping is the regrouping of all but the last
      identifier with the last one's entry added. */
  lemma RegroupLast<T>(parse: IdParser, keys: seq<string>, groups: map<string, T>)
    requires forall q :: q in keys ==> q in groups
    requires keys != [] && Regroup(parse, keys, groups).Ok?
    ensures Regroup(parse, keys[..|keys| - 1], groups).Ok? && parse(keys[|keys| - 1]).Ok?
    ensures Regroup(parse, keys, groups).value
      == AddEntry(Regroup(parse, keys[..|keys| - 1], groups).value, parse(keys[|keys| - 1]).value, groups[keys[|keys| - 1]])
  {
  }

  lemma LastOfItsKindInit(parse: IdParser, keys: seq<string>, k: nat)
    requires LastOfItsKind(parse, keys, k) && k < |keys| - 1
    ensures LastOfItsKind(parse, keys[..|keys| - 1], k) && keys[..|keys| - 1][k] == keys[k]
    ensures parse(keys[|keys| - 1]) != parse(keys[k])
  {
    var init := keys[..|keys| - 1];
    assert forall j :: 0 <= j < |init| ==> init[j] == keys[j];
  }

  lemma AddEntryKeeps<T>(m: map<Position, map<string, T>>, t: (string, int, string), v: T, u: (string, int, string), w: T)
    requires Stored(m, u, w) && t != u
    ensures Stored(AddEntry(m, t, v), u, w)
  {
  }

  lemma AddEntryHas<T>(m: map<Position, map<string, T>>, t: (string, int, string), v: T)
    ensures Stored(AddEntry(m, t, v), t, v)
  {
  }

  // ---------------------------------------------------------------------------
  // Pass fraction: `get_rna_editing_annotations`

  /** A read's verdict: `is_positive_rna_count` on the chromosome, position and
      hit list, or the error it raises. */
  type Classifier = (string, int, seq<Hit>) -> Result<bool>

  /** `count / max(1, len(reads))`. */
  function PassFraction(count: nat, n: nat): (f: real)
    ensures count <= n ==> 0.0 <= f <= 1.0
    ensures n == 0 ==> f == count as real
    ensures 0 < n && count == n ==> f == 1.0
  {
    count as real / (if n < 1 then 1 else n) as real
  }

  /** The reads at one position whose hit list is judged positive. */
  function Accepted(classify: Classifier, c: string, p: int, byRead: map<string, seq<Hit>>): (a: set<string>)
    ensures a <= byRead.Keys
  {
    set r | r in byRead && classify(c, p, byRead[r]) == Ok(true)
  }

  /** Every read at every position gets a verdict without an error. */
  predicate AllClassified(classify: Classifier, byPos: map<Position, map<string, seq<Hit>>>) {
    forall pos, q :: pos in byPos && q in byPos[pos] ==> classify(pos.0, pos.1, byPos[pos][q]).Ok?
  }

  /** Some read at some position makes the classifier raise `e`. */
  predicate Raises(classify: Classifier, byPos: map<Position, map<string, seq<Hit>>>, e: Error) {
    exists pos, q :: pos in byPos && q in byPos[pos] && classify(pos.0, pos.1, byPos[pos][q]) == Err(e)
  }

  /** The loop over the reads of one position that counts the positive ones. */
  method CountPositive(classify: Classifier, c: string, p: int, byRead: map<string, seq<Hit>>)
    returns (r: Result<nat>)
    ensures r.Ok? ==> r.value == |Accepted(classify, c, p, byRead)|
    ensures r.Ok? <==> forall q :: q in byRead ==> classify(c, p, byRead[q]).Ok?
    ensures r.Err? ==> exists q :: q in byRead && classify(c, p, byRead[q]) == Err(r.error)
  {
    var todo := byRead.Keys;
    var count := 0;
    while todo != {}
      invariant todo <= byRead.Keys
      invariant forall q :: q in byRead && q !in todo ==> classify(c, p, byRead[q]).Ok?
      invariant count == |set q | q in byRead && q !in todo && classify(c, p, byRead[q]) == Ok(true)|
      decreases |todo|
    {
      var q :| q in todo;
      ghost var done := set q' | q' in byRead && q' !in todo && classify(c, p, byRead[q']) == Ok(true);
      var verdict := classify(c, p, byRead[q]);
      if verdict.Err? {
        return Err(verdict.error);
      }
      todo := todo - {q};
      if verdict.value {
        assert (set q' | q' in byRead && q' !in todo && classify(c, p, byRead[q']) == Ok(true)) == done + {q};
        count := count + 1;
      } else {
        assert (set q' | q' in byRead && q' !in todo && classify(c, p, byRead[q']) == Ok(true)) == done;
      }
    }
    assert (set q | q in byRead && q !in todo && classify(c, p, byRead[q]) == Ok(true)) == Accepted(classify, c, p, byRead);
    return Ok(count);
  }

  /** The pass fraction of one position. */
  function FractionAt(classify: Classifier, byPos: map<Position, map<string, seq<Hit>>>, pos: Position): real
    requires pos in byPos
  {
    PassFraction(|Accepted(classify, pos.0, pos.1, byPos[pos])|, |byPos[pos]|)
  }

  /** `get_rna_editing_annotations`: every position gets the fraction of its
      reads judged positive; a classifier error at any read is raised. */
  method PassFractions(classify: Classifier, byPos: map<Position, map<string, seq<Hit>>>)
    returns (r: Result<map<Position, real>>)
    ensures r.Ok? <==> AllClassified(classify, byPos)
    ensures r.Err? ==> Raises(classify, byPos, r.error)
    ensures r.Ok? ==> r.value.Keys == byPos.Keys
    ensures r.Ok? ==> forall pos :: pos in r.value ==> r.value[pos] == FractionAt(classify, byPos, pos)
  {
    var todo := byPos.Keys;
    var out: map<Position, real> := map[];
    while todo != {}
      invariant todo <= byPos.Keys
      invariant out.Keys == byPos.Keys - todo
      invariant forall pos, q :: pos in out && q in byPos[pos] ==> classify(pos.0, pos.1, byPos[pos][q]).Ok?
      invariant forall pos :: pos in out ==> out[pos] == FractionAt(classify, byPos, pos)
      decreases |todo|
    {
      var pos :| pos in todo;
      var byRead := byPos[pos];
      var count := CountPositive(classify, pos.0, pos.1, byRead);
      if count.Err? {
        var q :| q in byRead && classify(pos.0, pos.1, byRead[q]) == Err(count.error);
        assert pos in byPos && q in byPos[pos] && classify(pos.0, pos.1, byPos[pos][q]) == Err(count.error);
        return Err(count.error);
      }
      out := out[pos := PassFraction(count.value, |byRead|)];
      assert out[pos] == FractionAt(classify, byPos, pos);
      todo := todo - {pos};
    }
    return Ok(out);
  }

  /** Each fraction lies between 0 and 1. */
  lemma PassFractionsBounded(classify: Classifier, byPos: map<Position, map<string, seq<Hit>>>, pos: Position)
    requires pos in byPos
    ensures 0.0 <= FractionAt(classify, byPos, pos) <= 1.0
  {
    var a := Accepted(classify, pos.0, pos.1, byPos[pos]);
    SubsetCard(a, byPos[pos].Keys);
  }

  lemma SubsetCard(a: set<string>, b: set<string>)
    requires a <= b
    ensures |a| <= |b|
  {
    if a != {} {
      var x :| x in a;
      SubsetCard(a - {x}, b - {x});
    }
  }

  // ---------------------------------------------------------------------------
  // Filling requested positions: the end of `get_blat_annotations_for_bam`

  /** A value of the annotation column: a fraction, or '.'. */
  datatype Cell = Fraction(f: real) | Missing

  /** Some requested `(chrom, pos)` has chromosome `key.0` and a position
      text that `int()` reads as `key.1`. */
  predicate Requested(requested: seq<(string, string)>, key: Position) {
    exists k :: 0 <= k < |requested| && requested[k].0 == key.0 && ParseInt(requested[k].1) == Some(key.1)
  }

  /** The positions with a fraction keep it; every other requested position
      gets '.'; a position text that is not an integer raises ValueError. */
  method FillMissing(fractions: map<Position, real>, requested: seq<(string, string)>)
    returns (r: Result<map<Position, Cell>>)
    ensures r.Err? <==> exists k :: 0 <= k < |requested| && ParseInt(requested[k].1).None?
    ensures r.Err? ==> r.error == ValueError
    ensures r.Ok? ==> forall key :: key in r.value <==> key in fractions || Requested(requested, key)
    ensures r.Ok? ==> forall key :: key in r.value ==>
      r.value[key] == if key in fractions then Fraction(fractions[key]) else Missing
  {
    var out: map<Position, Cell> := map key | key in fractions :: Fraction(fractions[key]);
    assert requested[..0] == [];
    for i := 0 to |requested|
      invariant Filled(out, fractions, requested, i)
    {
      var (chrom, posText) := requested[i];
      var pos := ParseInt(posText);
      if pos.None? {
        return Err(ValueError);
      }
      FillStep(out, fractions, requested, i);
      if (chrom, pos.value) !in out {
        out := out[(chrom, pos.value) := Missing];
      }
    }
    assert requested[..|requested|] == requested;
    return Ok(out);
  }

  /** The table after the first `i` requested positions: every one of them has
      an integer position, and the table holds the fractions and, for the
      positions requested without one, the missing cell. */
  ghost predicate Filled(out: map<Position, Cell>, fractions: map<Position, real>, requested: seq<(string, string)>, i: nat) {
    i <= |requested|
    && (forall k :: 0 <= k < i ==> ParseInt(requested[k].1).Some?)
    && (forall key :: key in out <==> key in fractions || Requested(requested[..i], key))
    && forall key :: key in out ==> out[key] == if key in fractions then Fraction(fractions[key]) else Missing
  }

  lemma FillStep(out: map<Position, Cell>, fractions: map<Position, real>, requested: seq<(string, string)>, i: nat)
    requires Filled(out, fractions, requested, i) && i < |requested| && ParseInt(requested[i].1).Some?
    ensures var key := (requested[i].0, ParseInt(requested[i].1).value);
      Filled(if key in out then out else out[key := Missing], fractions, requested, i + 1)
  {
    RequestedStep(requested, i);
  }

  lemma RequestedStep(requested: seq<(string, string)>, i: nat)
    requires i < |requested| && ParseInt(requested[i].1).Some?
    ensures forall key :: Requested(requested[..i + 1], key) <==>
      Requested(requested[..i], key) || key == (requested[i].0, ParseInt(requested[i].1).value)
  {
    var pre := requested[..i + 1];
    assert forall k :: 0 <= k < i ==> pre[k] == requested[..i][k];
    assert pre[i] == requested[i];
  }

  /** The text key `(chrom, str(pos))` of a position. */
  function RowKey(key: Position): (string, string) {
    (key.0, IntToString(key.1))
  }

  /** `annotations_dict[(chrom, str(pos))].append(value)` over the filled
      positions: the rows of the column, keyed by the position written back as
      text, one value each. */
  method Column(filled: map<Position, Cell>) returns (col: map<(string, string), seq<Cell>>)
    ensures forall key :: key in filled ==> RowKey(key) in col && col[RowKey(key)] == [filled[key]]
    ensures forall row :: row in col ==> exists key :: key in filled && row == RowKey(key)
  {
    var todo := filled.Keys;
    col := map[];
    while todo != {}
      invariant todo <= filled.Keys
      invariant forall key :: key in filled && key !in todo ==> RowKey(key) in col && col[RowKey(key)] == [filled[key]]
      invariant forall row :: row in col ==> exists key :: key in filled && key !in todo && row == RowKey(key)
      decreases |todo|
    {
      var key :| key in todo;
      var row := RowKey(key);
      if row in col {
        var other :| other in filled && other !in todo && row == RowKey(other);
        IntToStringInjective(key.1, other.1);
        assert false;
      }
      col := col[row := [filled[key]]];
      todo := todo - {key};
    }
  }
}
