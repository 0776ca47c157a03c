/** `ReadCollection` of annotation-station/bam_utils.py: the query positions,
    grouped by chromosome and sorted, and for each position the list of reads
    whose span strictly contains it. */
module ReadIndex {
  import opened Outcomes
  import opened Cigar
  import opened Alignment

  /** A stored read: chromosome, first reference position, CIGAR string and
      bases (the keyword arguments are not modelled). */
  datatype Read = Read(chrom: string, start: int, cigar: string, sequence: string)

  /** A query position, `(chrom, pos)`. */
  type Position = (string, int)

  predicate Sorted(s: seq<int>) {
    forall i, j :: 0 <= i < j < |s| ==> s[i] <= s[j]
  }

  /** The index of the first element not smaller than `x`. */
  function InsertionPoint(x: int, s: seq<int>): (j: nat)
    ensures j <= |s| && (forall k :: 0 <= k < j ==> s[k] < x) && (j < |s| ==> x <= s[j])
    decreases |s|
  {
    if s == [] || x <= s[0] then 0 else 1 + InsertionPoint(x, s[1..])
  }

  /** `x` put into its place in a sorted sequence, before the larger elements. */
  function Insert(x: int, s: seq<int>): (r: seq<int>)
    requires Sorted(s)
    ensures Sorted(r) && multiset(r) == multiset(s) + multiset{x}
  {
    var j := InsertionPoint(x, s);
    InsertAt(x, s, j);
    s[..j] + [x] + s[j..]
  }

  lemma InsertAt(x: int, s: seq<int>, j: nat)
    requires Sorted(s) && j <= |s|
    requires (forall k :: 0 <= k < j ==> s[k] < x) && (j < |s| ==> x <= s[j])
    ensures Sorted(s[..j] + [x] + s[j..])
    ensures multiset(s[..j] + [x] + s[j..]) == multiset(s) + multiset{x}
  {
    InsertAtSorted(x, s, j);
    assert s == s[..j] + s[j..];
  }

  lemma InsertAtSorted(x: int, s: seq<int>, j: nat)
    requires Sorted(s) && j <= |s|
    requires (forall k :: 0 <= k < j ==> s[k] < x) && (j < |s| ==> x <= s[j])
    ensures Sorted(s[..j] + [x] + s[j..])
  {
    var r := s[..j] + [x] + s[j..];
    assert forall i :: 0 <= i < j ==> r[i] == s[i];
    assert r[j] == x;
    assert forall i :: j < i < |r| ==> r[i] == s[i - 1];
    forall a, b | 0 <= a < b < |r|
      ensures r[a] <= r[b]
    {
      if b < j {
        assert r[a] == s[a] && r[b] == s[b];
      } else if b == j {
        assert r[a] == s[a];
      } else if a < j {
        assert r[a] == s[a] && r[b] == s[b - 1];
      } else if a == j {
        assert r[b] == s[b - 1];
      } else {
        assert r[a] == s[a - 1] && r[b] == s[b - 1];
      }
    }
  }

  /** `sorted(ps)` of the positions on one chromosome (pairs with the same
      chromosome compare by position). */
  function SortPositions(s: seq<int>): (r: seq<int>)
    ensures Sorted(r) && multiset(r) == multiset(s)
    decreases |s|
  {
    if s == [] then []
    else
      var init := SortPositions(s[..|s| - 1]);
      assert s == s[..|s| - 1] + [s[|s| - 1]];
      Insert(s[|s| - 1], init)
  }

  /** The positions given for chromosome `c`, in input order. */
  function PositionsOn(positions: seq<Position>, c: string): seq<int>
    decreases |positions|
  {
    if positions == [] then []
    else
      var last := positions[|positions| - 1];
      PositionsOn(positions[..|positions| - 1], c) + (if last.0 == c then [last.1] else [])
  }

  /** `n` copies of `x`. */
  function Copies(x: Read, n: nat): (r: seq<Read>)
    ensures |r| == n && forall k :: 0 <= k < n ==> r[k] == x
  {
    seq(n, _ => x)
  }

  /** The last reference position a read covers by the span rule. */
  function ReadEnd(start: int, runs: seq<Run>): int {
    start + TotalLength(runs) - 1
  }

  /** `pos` lies strictly inside the span of the read starting at `start`. */
  predicate StrictlyInside(pos: int, start: int, cigar: string) {
    SpanRuns(cigar).Some? && start < pos < ReadEnd(start, SpanRuns(cigar).value)
  }

  /** The invariant of a collection's two maps: the position lists are sorted,
      every listed position has a read list, and every stored read lies on the
      list's chromosome and strictly covers its position. */
  ghost predicate Consistent(byChrom: map<string, seq<int>>, lists: map<Position, seq<Read>>) {
    (forall c :: c in byChrom ==> Sorted(byChrom[c]))
    && (forall c, p :: c in byChrom && p in byChrom[c] ==> (c, p) in lists)
    && (forall key, k :: key in lists && 0 <= k < |lists[key]| ==>
          lists[key][k].chrom == key.0 && StrictlyInside(key.1, lists[key][k].start, lists[key][k].cigar))
  }

  /** The read lists after `read` has been appended, for each entry `p` of
      `ps` with `first < p < end`, to the list of `(chrom, p)`. */
  function Appended(lists: map<Position, seq<Read>>, chrom: string, ps: seq<int>, first: int, end: int, read: Read)
    : (r: map<Position, seq<Read>>)
    ensures r.Keys == lists.Keys
  {
    map key | key in lists :: lists[key] + Copies(read, if key.0 == chrom && first < key.1 < end then multiset(ps)[key.1] else 0)
  }

  lemma AppendedNothing(lists: map<Position, seq<Read>>, chrom: string, first: int, end: int, read: Read)
    ensures Appended(lists, chrom, [], first, end, read) == lists
  {
    assert forall key :: key in lists ==> lists[key] + Copies(read, 0) == lists[key];
  }

  /** One more entry of the position list appends at most one read. */
  lemma AppendedStep(lists: map<Position, seq<Read>>, chrom: string, ps: seq<int>, p: int, first: int, end: int, read: Read)
    requires (chrom, p) in lists
    ensures var a := Appended(lists, chrom, ps, first, end, read);
      Appended(lists, chrom, ps + [p], first, end, read)
        == if first < p < end then a[(chrom, p) := a[(chrom, p)] + [read]] else a
  {
    var a := Appended(lists, chrom, ps, first, end, read);
    var b := Appended(lists, chrom, ps + [p], first, end, read);
    var t := if first < p < end then a[(chrom, p) := a[(chrom, p)] + [read]] else a;
    forall key | key in b
      ensures b[key] == t[key]
    {
      AppendedStepAt(lists, chrom, ps, p, first, end, read, key);
    }
    assert b.Keys == t.Keys;
  }

  /** The same, one key at a time. */
  lemma AppendedStepAt(lists: map<Position, seq<Read>>, chrom: string, ps: seq<int>, p: int, first: int, end: int,
                       read: Read, key: Position)
    requires key in lists
    ensures Appended(lists, chrom, ps + [p], first, end, read)[key]
      == Appended(lists, chrom, ps, first, end, read)[key] + (if key == (chrom, p) && first < p < end then [read] else [])
  {
    assert multiset(ps + [p]) == multiset(ps) + multiset{p};
    if key.0 == chrom && first < key.1 < end {
      var n := multiset(ps)[key.1];
      if key.1 == p {
        assert Copies(read, n) + [read] == Copies(read, n + 1);
        assert lists[key] + Copies(read, n) + [read] == lists[key] + Copies(read, n + 1);
      } else {
        assert multiset(ps + [p])[key.1] == n;
      }
    }
  }

  /** Appending a read that strictly covers the positions keeps the maps
      consistent. */
  lemma AppendedConsistent(byChrom: map<string, seq<int>>, lists: map<Position, seq<Read>>, ps: seq<int>,
                           start: int, cigar: string, sequence: string, chrom: string)
    requires Consistent(byChrom, lists) && SpanRuns(cigar).Some?
    ensures Consistent(byChrom, Appended(lists, chrom, ps, start, ReadEnd(start, SpanRuns(cigar).value),
                                         Read(chrom, start, cigar, sequence)))
  {
    var read := Read(chrom, start, cigar, sequence);
    var r: map<Position, seq<Read>> := Appended(lists, chrom, ps, start, ReadEnd(start, SpanRuns(cigar).value), read);
    forall key: Position, k: int | key in r && 0 <= k < |r[key]|
      ensures r[key][k].chrom == key.0 && StrictlyInside(key.1, r[key][k].start, r[key][k].cigar)
    {
      if k >= |lists[key]| {
        assert r[key][k] == read;
      } else {
        assert r[key][k] == lists[key][k];
      }
    }
  }

  class ReadCollection {
    /** `chrom_to_positions`, keeping only the positions: every entry of the
        list under `c` is the pair `(c, pos)`. */
    var chromToPositions: map<string, seq<int>>
    /** `position_to_reads`. */
    var positionToReads: map<Position, seq<Read>>

    ghost predicate Valid()
      reads this
    {
      Consistent(chromToPositions, positionToReads)
    }

    /** `ReadCollection(position_tups)`: the positions grouped by chromosome
        and sorted, and an empty read list for every distinct position. */
    constructor(positions: seq<Position>)
      ensures Valid()
      ensures forall c :: c in chromToPositions <==> PositionsOn(positions, c) != []
      ensures forall c :: c in chromToPositions ==>
        multiset(chromToPositions[c]) == multiset(PositionsOn(positions, c))
      ensures forall key :: key in positionToReads <==> key.1 in PositionsOn(positions, key.0)
      ensures forall key :: key in positionToReads ==> positionToReads[key] == []
    {
      var byChrom, lists := Group(positions);
      chromToPositions := map c | c in byChrom :: SortPositions(byChrom[c]);
      positionToReads := lists;
      new;
      SortedGroupsConsistent(positions, byChrom, chromToPositions, lists);
    }

    /** The loop of `put_read` over the sorted positions of one chromosome,
        with its early exit once a position lies past the end of the read. */
    method AppendToPositions(chrom: string, ps: seq<int>, first: int, end: int, read: Read)
      requires Sorted(ps) && forall p :: p in ps ==> (chrom, p) in positionToReads
      modifies this
      ensures chromToPositions == old(chromToPositions)
      ensures positionToReads == Appended(old(positionToReads), chrom, ps, first, end, read)
    {
      ghost var before := positionToReads;
      AppendedNothing(before, chrom, first, end, read);
      assert ps[..0] == [];
      var i := 0;
      while i < |ps|
        invariant 0 <= i <= |ps|
        invariant chromToPositions == old(chromToPositions)
        invariant positionToReads == Appended(before, chrom, ps[..i], first, end, read)
      {
        var p := ps[i];
        assert ps[..i + 1] == ps[..i] + [p];
        AppendedStep(before, chrom, ps[..i], p, first, end, read);
        if first < p < end {
          positionToReads := positionToReads[(chrom, p) := positionToReads[(chrom, p)] + [read]];
        }
        if p > end {
          SortedTail(ps, i + 1, end);
          AppendedSame(before, chrom, ps[..i + 1], ps, first, end, read);
          return;
        }
        i := i + 1;
      }
      assert ps[..|ps|] == ps;
    }

    /** `put_read(chrom, start, cigar, sequence)`: the read is appended to the
        list of every registered position of its chromosome strictly inside its
        span, once per time the position was registered; the conversion of a
        count raises ValueError before an unknown chromosome raises KeyError,
        and an error changes nothing. */
    method PutRead(chrom: string, start: int, cigar: string, sequence: string) returns (e: Option<Error>)
      requires Valid()
      modifies this
      ensures Valid()
      ensures chromToPositions == old(chromToPositions)
      ensures e == if SpanRuns(cigar).None? then Some(ValueError)
                   else if chrom !in chromToPositions then Some(KeyError)
                   else None
      ensures e != None ==> positionToReads == old(positionToReads)
      ensures e == None ==>
        positionToReads == Appended(old(positionToReads), chrom, chromToPositions[chrom], start,
                                    ReadEnd(start, SpanRuns(cigar).value), Read(chrom, start, cigar, sequence))
    {
      var span := CoveringReferenceCoords(start, cigar);
      if span.Err? {
        return Some(ValueError);
      }
      var (first, end) := span.value;
      if chrom !in chromToPositions {
        return Some(KeyError);
      }
      AppendedConsistent(chromToPositions, positionToReads, chromToPositions[chrom], start, cigar, sequence, chrom);
      AppendToPositions(chrom, chromToPositions[chrom], first, end, Read(chrom, first, cigar, sequence));
      return None;
    }

    /** `get_reads(chrom, pos)`: the reads stored for the position, and the
        empty list for a position never registered. */
    function GetReads(chrom: string, pos: int): (r: seq<Read>)
      reads this
      ensures (chrom, pos) !in positionToReads ==> r == []
      ensures (chrom, pos) in positionToReads ==> r == positionToReads[(chrom, pos)]
    {
      if (chrom, pos) in positionToReads then positionToReads[(chrom, pos)] else []
    }

    /** Every read `get_reads` returns is one whose span strictly contains the
        position. */
    lemma GetReadsSound(chrom: string, pos: int)
      requires Valid()
      ensures forall x :: x in GetReads(chrom, pos) ==> x.chrom == chrom && StrictlyInside(pos, x.start, x.cigar)
    {
      forall x | x in GetReads(chrom, pos)
        ensures x.chrom == chrom && StrictlyInside(pos, x.start, x.cigar)
      {
        var k :| 0 <= k < |GetReads(chrom, pos)| && GetReads(chrom, pos)[k] == x;
      }
    }
  }

  /** The grouping loops of `ReadCollection.__init__`: each pair is appended
      to the list of its chromosome and gets an empty read list. */
  method Group(positions: seq<Position>) returns (byChrom: map<string, seq<int>>, lists: map<Position, seq<Read>>)
    ensures forall c :: c in byChrom <==> PositionsOn(positions, c) != []
    ensures forall c :: c in byChrom ==> byChrom[c] == PositionsOn(positions, c)
    ensures forall key :: key in lists <==> key.1 in PositionsOn(positions, key.0)
    ensures forall key :: key in lists ==> lists[key] == []
  {
    byChrom, lists := map[], map[];
    var i := 0;
    while i < |positions|
      invariant 0 <= i <= |positions|
      invariant Grouped(positions[..i], byChrom, lists)
    {
      var (c, p) := positions[i];
      var ps := if c in byChrom then byChrom[c] else [];
      GroupStep(positions[..i], byChrom, lists, c, p, ps);
      PrefixSnoc(positions, i);
      byChrom := byChrom[c := ps + [p]];
      lists := lists[(c, p) := []];
      i := i + 1;
    }
    assert positions[..i] == positions;
  }

  /** The maps `Group` has built from the pairs seen so far. */
  ghost predicate Grouped(seen: seq<Position>, byChrom: map<string, seq<int>>, lists: map<Position, seq<Read>>) {
    (forall c :: c in byChrom <==> PositionsOn(seen, c) != [])
    && (forall c :: c in byChrom ==> byChrom[c] == PositionsOn(seen, c))
    && (forall key :: key in lists <==> key.1 in PositionsOn(seen, key.0))
    && (forall key :: key in lists ==> lists[key] == [])
  }

  /** One turn of the grouping loop. */
  lemma GroupStep(seen: seq<Position>, byChrom: map<string, seq<int>>, lists: map<Position, seq<Read>>,
                  c: string, p: int, ps: seq<int>)
    requires Grouped(seen, byChrom, lists)
    requires ps == if c in byChrom then byChrom[c] else []
    ensures Grouped(seen + [(c, p)], byChrom[c := ps + [p]], lists[(c, p) := []])
  {
    var seen' := seen + [(c, p)];
    assert seen'[..|seen'| - 1] == seen;
    assert forall d :: PositionsOn(seen', d) == PositionsOn(seen, d) + (if c == d then [p] else []);
    GroupChromStep(seen, seen', byChrom, byChrom[c := ps + [p]], c, p, ps);
    GroupListStep(seen, seen', lists, lists[(c, p) := []], c, p);
  }

  lemma GroupChromStep(seen: seq<Position>, seen': seq<Position>, byChrom: map<string, seq<int>>,
                       b: map<string, seq<int>>, c: string, p: int, ps: seq<int>)
    requires forall d :: PositionsOn(seen', d) == PositionsOn(seen, d) + (if c == d then [p] else [])
    requires forall d :: d in byChrom <==> PositionsOn(seen, d) != []
    requires forall d :: d in byChrom ==> byChrom[d] == PositionsOn(seen, d)
    requires ps == (if c in byChrom then byChrom[c] else []) && b == byChrom[c := ps + [p]]
    ensures forall d :: d in b <==> PositionsOn(seen', d) != []
    ensures forall d :: d in b ==> b[d] == PositionsOn(seen', d)
  {
  }

  lemma GroupListStep(seen: seq<Position>, seen': seq<Position>, lists: map<Position, seq<Read>>,
                      l: map<Position, seq<Read>>, c: string, p: int)
    requires forall d :: PositionsOn(seen', d) == PositionsOn(seen, d) + (if c == d then [p] else [])
    requires forall key :: key in lists <==> key.1 in PositionsOn(seen, key.0)
    requires forall key :: key in lists ==> lists[key] == []
    requires l == lists[(c, p) := []]
    ensures forall key :: key in l <==> key.1 in PositionsOn(seen', key.0)
    ensures forall key :: key in l ==> l[key] == []
  {
    forall key: Position
      ensures key in l <==> key.1 in PositionsOn(seen', key.0)
    {
      var extra := if c == key.0 then [p] else [];
      assert PositionsOn(seen', key.0) == PositionsOn(seen, key.0) + extra;
      assert key.1 in PositionsOn(seen', key.0) <==> key.1 in PositionsOn(seen, key.0) || key.1 in extra;
    }
  }

  /** Sorting each group keeps its positions, so the grouped maps are consistent. */
  lemma SortedGroupsConsistent(positions: seq<Position>, byChrom: map<string, seq<int>>,
                               sorted: map<string, seq<int>>, lists: map<Position, seq<Read>>)
    requires forall c :: c in byChrom ==> byChrom[c] == PositionsOn(positions, c)
    requires forall key :: key in lists <==> key.1 in PositionsOn(positions, key.0)
    requires forall key :: key in lists ==> lists[key] == []
    requires sorted == map c | c in byChrom :: SortPositions(byChrom[c])
    ensures Consistent(sorted, lists)
    ensures forall c :: c in sorted ==> multiset(sorted[c]) == multiset(PositionsOn(positions, c))
  {
    forall c, p | c in sorted && p in sorted[c]
      ensures (c, p) in lists
    {
      assert p in multiset(sorted[c]);
      assert p in multiset(byChrom[c]);
      assert p in PositionsOn(positions, c);
    }
  }

  /** Two position lists agreeing on how often each position inside the window
      occurs append the same reads. */
  lemma AppendedSame(lists: map<Position, seq<Read>>, chrom: string, ps: seq<int>, qs: seq<int>,
                     first: int, end: int, read: Read)
    requires forall q :: q <= end ==> multiset(ps)[q] == multiset(qs)[q]
    ensures Appended(lists, chrom, ps, first, end, read) == Appended(lists, chrom, qs, first, end, read)
  {
  }

  lemma PrefixSnoc<T>(s: seq<T>, i: nat)
    requires i < |s|
    ensures s[..i + 1] == s[..i] + [s[i]]
  {
  }

  /** Past an element larger than `bound` a sorted sequence holds nothing at
      most `bound`. */
  lemma SortedTail(ps: seq<int>, j: nat, bound: int)
    requires Sorted(ps) && 0 < j <= |ps| && ps[j - 1] > bound
    ensures forall q :: q <= bound ==> multiset(ps[..j])[q] == multiset(ps)[q]
  {
    assert ps == ps[..j] + ps[j..];
    forall q | q <= bound
      ensures multiset(ps[..j])[q] == multiset(ps)[q]
    {
      assert q !in ps[j..];
    }
  }
}
