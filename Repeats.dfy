/** The repeat index of annotation-station/repeats.py: repeats from a table are
    put into buckets keyed by (chromosome without "chr", position / bin size),
    once under the bin of their start and once more under the bin of their
    stop when that differs; a lookup scans the bucket of the queried position. */
module Repeats {
  import opened Outcomes
  import opened Strings

  /** `normalize_chrom`: `re.sub(r'^chr', '', chrom)`. */
  function NormalizeChrom(chrom: string): (r: string)
    ensures StartsWith(chrom, "chr") ==> "chr" + r == chrom
    ensures !StartsWith(chrom, "chr") ==> r == chrom
  {
    if StartsWith(chrom, "chr") then chrom[3..] else chrom
  }

  /** Exactly one "chr" goes, so normalizing twice can differ from once. */
  lemma NormalizeOnce()
    ensures NormalizeChrom("chrchr1") == "chr1"
    ensures NormalizeChrom(NormalizeChrom("chrchr1")) == "1"
  {
    assert StartsWith("chrchr1", "chr");
    assert "chrchr1"[3..] == "chr1";
    assert StartsWith("chr1", "chr");
    assert "chr1"[3..] == "1";
  }

  /** A name and the same name with "chr" in front normalize alike. */
  lemma NormalizeIgnoresPrefix(c: string)
    requires !StartsWith(c, "chr")
    ensures NormalizeChrom("chr" + c) == NormalizeChrom(c) == c
  {
    var s := "chr" + c;
    assert s[..3] == "chr" && s[3..] == c;
  }

  function Abs(x: int): nat { if x < 0 then -x else x }

  /** `int(a / b)`: the quotient truncated toward zero. */
  function TruncDiv(a: int, b: int): int
    requires b != 0
  {
    var m := Abs(a) / Abs(b);
    if (a >= 0) == (b > 0) then m else -m
  }

  /** Truncation is symmetric around zero, unlike the floor quotient:
      `int(-7 / 2) == -3` while `-7 // 2 == -4`. */
  lemma TruncDivSymmetric(a: int, b: int)
    requires b != 0
    ensures TruncDiv(-a, b) == -TruncDiv(a, b)
    ensures TruncDiv(-7, 2) == -3 && -7 / 2 == -4
  {
  }

  /** On natural positions and a positive bin size it is the floor quotient. */
  lemma TruncDivOfNatural(a: int, b: int)
    requires a >= 0 && b > 0
    ensures TruncDiv(a, b) == a / b
  {
  }

  type BinKey = (string, int)

  /** `get_position_index(chrom, pos, bin_size)`; `int(pos)` raises
      ValueError on a string that is not an integer, the division raises
      ZeroDivisionError on a zero bin size. */
  function PositionIndex(chrom: string, pos: string, binSize: int): (r: Result<BinKey>)
    ensures ParseInt(pos).None? <==> r == Err(ValueError)
    ensures ParseInt(pos).Some? && binSize == 0 <==> r == Err(ZeroDivisionError)
    ensures r.Ok? ==> r.value.0 == NormalizeChrom(chrom)
    ensures r.Ok? ==> r.value.1 == TruncDiv(ParseInt(pos).value, binSize)
  {
    match ParseInt(pos)
    case None => Err(ValueError)
    case Some(p) => if binSize == 0 then Err(ZeroDivisionError) else Ok((NormalizeChrom(chrom), TruncDiv(p, binSize)))
  }

  /** `(chrom, start, stop, name, class, family)`, as read from the table. */
  datatype Repeat = Repeat(chrom: string, start: string, stop: string, name: string, repeatClass: string, family: string)

  function StartBin(rep: Repeat, binSize: int): Result<BinKey> {
    PositionIndex(rep.chrom, rep.start, binSize)
  }

  function StopBin(rep: Repeat, binSize: int): Result<BinKey> {
    PositionIndex(rep.chrom, rep.stop, binSize)
  }

  /** A repeat the collection accepts: both bins can be computed. */
  predicate Registered(rep: Repeat, binSize: int) {
    StartBin(rep, binSize).Ok? && StopBin(rep, binSize).Ok?
  }

  /** A repeat belongs under `key` when its start or its stop bin is `key`. */
  predicate InBucket(rep: Repeat, key: BinKey, binSize: int) {
    (StartBin(rep, binSize) == Ok(key)) || (StopBin(rep, binSize) == Ok(key))
  }

  /** The bucket `key` after the given repeats were put, in insertion order. */
  function Bucket(reps: seq<Repeat>, key: BinKey, binSize: int): (b: seq<Repeat>)
    ensures forall x :: x in b ==> x in reps && InBucket(x, key, binSize)
    decreases |reps|
  {
    if reps == [] then []
    else
      var init, last := reps[..|reps| - 1], reps[|reps| - 1];
      var rest := Bucket(init, key, binSize);
      if InBucket(last, key, binSize) then rest + [last] else rest
  }

  /** Every put repeat is in every bucket it belongs to, and only there. */
  lemma {:induction false} BucketMembership(reps: seq<Repeat>, key: BinKey, binSize: int, x: Repeat)
    requires x in reps
    ensures x in Bucket(reps, key, binSize) <==> InBucket(x, key, binSize)
    decreases |reps|
  {
    var init, last := reps[..|reps| - 1], reps[|reps| - 1];
    assert reps == init + [last];
    if x != last {
      BucketMembership(init, key, binSize, x);
    }
  }

  lemma BucketSnoc(reps: seq<Repeat>, rep: Repeat, key: BinKey, binSize: int)
    ensures Bucket(reps + [rep], key, binSize)
      == if InBucket(rep, key, binSize) then Bucket(reps, key, binSize) + [rep] else Bucket(reps, key, binSize)
  {
    assert (reps + [rep])[..|reps|] == reps;
  }

  /** The repeat covers `pos` on `chrom`: the test of the scan in `get_repeat`. */
  predicate Covers(rep: Repeat, chrom: string, pos: int) {
    ParseInt(rep.start).Some? && ParseInt(rep.stop).Some?
    && ParseInt(rep.start).value <= pos <= ParseInt(rep.stop).value
    && NormalizeChrom(rep.chrom) == NormalizeChrom(chrom)
  }

  /** The first repeat of the bucket, in order, that covers the position. */
  function FirstCovering(bucket: seq<Repeat>, chrom: string, pos: int): (r: Option<Repeat>)
    ensures r.Some? ==> Covers(r.value, chrom, pos)
    ensures r.Some? ==> exists i :: (0 <= i < |bucket| && bucket[i] == r.value
      && forall j :: 0 <= j < i ==> !Covers(bucket[j], chrom, pos))
    ensures r.None? <==> forall i :: 0 <= i < |bucket| ==> !Covers(bucket[i], chrom, pos)
    decreases |bucket|
  {
    if bucket == [] then None
    else if Covers(bucket[0], chrom, pos) then Some(bucket[0])
    else
      var r := FirstCovering(bucket[1..], chrom, pos);
      assert forall i :: 0 < i < |bucket| ==> bucket[i] == bucket[1..][i - 1];
      if r.Some? then
        var i :| 0 <= i < |bucket[1..]| && bucket[1..][i] == r.value
          && forall j :: 0 <= j < i ==> !Covers(bucket[1..][j], chrom, pos);
        assert bucket[i + 1] == r.value;
        r
      else r
  }

  /** What `get_repeat(chrom, pos)` returns after the given repeats were put. */
  function Lookup(reps: seq<Repeat>, binSize: int, chrom: string, pos: string): Result<Option<Repeat>> {
    match PositionIndex(chrom, pos, binSize)
    case Err(e) => Err(e)
    case Ok(key) => Ok(FirstCovering(Bucket(reps, key, binSize), chrom, ParseInt(pos).value))
  }

  function Get(bins: map<BinKey, seq<Repeat>>, key: BinKey): seq<Repeat> {
    if key in bins then bins[key] else []
  }

  /** `self.allias_to_tups[key].append(rep)` on a defaultdict of lists. */
  function Append(bins: map<BinKey, seq<Repeat>>, key: BinKey, rep: Repeat): map<BinKey, seq<Repeat>> {
    bins[key := Get(bins, key) + [rep]]
  }

  /** `RepeatCollection`: the buckets, the bin size, and (as proof state) the
      repeats put so far. */
  class RepeatCollection {
    var bins: map<BinKey, seq<Repeat>>
    const binSize: int
    ghost var repeats: seq<Repeat>

    /** Every put repeat was accepted, every bucket holds exactly the repeats
        that belong to it, and a non-empty bucket is present. */
    ghost predicate Valid()
      reads this
    {
      (forall i :: 0 <= i < |repeats| ==> Registered(repeats[i], binSize))
      && (forall key :: key in bins ==> bins[key] == Bucket(repeats, key, binSize))
      && (forall key :: Bucket(repeats, key, binSize) != [] ==> key in bins)
    }

    constructor(binSize: int)
      ensures Valid()
      ensures this.binSize == binSize && bins == map[] && repeats == []
    {
      this.binSize := binSize;
      bins := map[];
      repeats := [];
    }

    /** `put_repeat(repeat_tup)`: the error of the first index that cannot be
        computed, or the repeat appended to its start bucket and, when
        different, to its stop bucket. */
    method PutRepeat(rep: Repeat) returns (e: Option<Error>)
      requires Valid()
      modifies this
      ensures Valid()
      ensures e == if StartBin(rep, binSize).Err? then Some(StartBin(rep, binSize).error)
                   else if StopBin(rep, binSize).Err? then Some(StopBin(rep, binSize).error)
                   else None
      ensures e.Some? ==> bins == old(bins) && repeats == old(repeats)
      ensures e.None? ==> repeats == old(repeats) + [rep]
      ensures e.None? ==> bins == (var sk, tk := StartBin(rep, binSize).value, StopBin(rep, binSize).value;
                                   if sk == tk then Append(old(bins), sk, rep)
                                   else Append(Append(old(bins), sk, rep), tk, rep))
    {
      var startIndex := PositionIndex(rep.chrom, rep.start, binSize);
      if startIndex.Err? {
        return Some(startIndex.error);
      }
      var stopIndex := PositionIndex(rep.chrom, rep.stop, binSize);
      if stopIndex.Err? {
        return Some(stopIndex.error);
      }
      var sk, tk := startIndex.value, stopIndex.value;
      ghost var before := repeats;
      bins := Append(bins, sk, rep);
      if sk != tk {
        bins := Append(bins, tk, rep);
      }
      repeats := repeats + [rep];
      PutKeepsBuckets(before, rep, binSize, sk, tk, old(bins), bins);
      e := None;
    }

    /** `get_repeat(chrom, pos)`: the first repeat of the position's bucket
        that covers it. Looking up a missing bucket stores an empty one, which
        changes no later answer since the put repeats stay the same. */
    method GetRepeat(chrom: string, pos: string) returns (r: Result<Option<Repeat>>)
      requires Valid()
      modifies this
      ensures Valid() && repeats == old(repeats)
      ensures r == Lookup(repeats, binSize, chrom, pos)
      ensures PositionIndex(chrom, pos, binSize).Err? ==> bins == old(bins)
      ensures PositionIndex(chrom, pos, binSize).Ok? ==>
        bins == old(bins)[PositionIndex(chrom, pos, binSize).value := Get(old(bins), PositionIndex(chrom, pos, binSize).value)]
    {
      var index := PositionIndex(chrom, pos, binSize);
      if index.Err? {
        return Err(index.error);
      }
      var key := index.value;
      bins := bins[key := Get(bins, key)];
      var potentials := bins[key];
      forall x | x in potentials
        ensures ParseInt(x.start).Some? && ParseInt(x.stop).Some?
      {
        var i :| 0 <= i < |repeats| && repeats[i] == x;
      }
      var found := ScanBucket(potentials, chrom, ParseInt(pos).value);
      return Ok(found);
    }
  }

  /** The scan of `get_repeat` over one bucket, with its early return. */
  method ScanBucket(potentials: seq<Repeat>, chrom: string, p: int) returns (r: Option<Repeat>)
    requires forall x :: x in potentials ==> ParseInt(x.start).Some? && ParseInt(x.stop).Some?
    ensures r == FirstCovering(potentials, chrom, p)
  {
    var i := 0;
    while i < |potentials|
      invariant 0 <= i <= |potentials|
      invariant FirstCovering(potentials, chrom, p) == FirstCovering(potentials[i..], chrom, p)
    {
      var repeat := potentials[i];
      assert potentials[i..][1..] == potentials[i + 1..];
      var isInRange := p >= ParseInt(repeat.start).value && p <= ParseInt(repeat.stop).value;
      var isSameChrom := NormalizeChrom(repeat.chrom) == NormalizeChrom(chrom);
      if isInRange && isSameChrom {
        return Some(repeat);
      }
      i := i + 1;
    }
    return None;
  }

  /** The buckets after a put are the buckets of the longer history. */
  lemma PutKeepsBuckets(reps: seq<Repeat>, rep: Repeat, binSize: int, sk: BinKey, tk: BinKey,
                        before: map<BinKey, seq<Repeat>>, after: map<BinKey, seq<Repeat>>)
    requires StartBin(rep, binSize) == Ok(sk) && StopBin(rep, binSize) == Ok(tk)
    requires forall key :: key in before ==> before[key] == Bucket(reps, key, binSize)
    requires forall key :: Bucket(reps, key, binSize) != [] ==> key in before
    requires after == if sk == tk then Append(before, sk, rep) else Append(Append(before, sk, rep), tk, rep)
    ensures forall key :: key in after ==> after[key] == Bucket(reps + [rep], key, binSize)
    ensures forall key :: Bucket(reps + [rep], key, binSize) != [] ==> key in after
  {
    forall key | key in after
      ensures after[key] == Bucket(reps + [rep], key, binSize)
    {
      PutKeepsBucket(reps, rep, binSize, sk, tk, before, after, key);
    }
    forall key | Bucket(reps + [rep], key, binSize) != []
      ensures key in after
    {
      BucketSnoc(reps, rep, key, binSize);
    }
  }

  lemma PutKeepsBucket(reps: seq<Repeat>, rep: Repeat, binSize: int, sk: BinKey, tk: BinKey,
                       before: map<BinKey, seq<Repeat>>, after: map<BinKey, seq<Repeat>>, key: BinKey)
    requires StartBin(rep, binSize) == Ok(sk) && StopBin(rep, binSize) == Ok(tk)
    requires key in before ==> before[key] == Bucket(reps, key, binSize)
    requires Bucket(reps, key, binSize) != [] ==> key in before
    requires after == if sk == tk then Append(before, sk, rep) else Append(Append(before, sk, rep), tk, rep)
    requires key in after
    ensures after[key] == Bucket(reps + [rep], key, binSize)
  {
    BucketSnoc(reps, rep, key, binSize);
    assert InBucket(rep, key, binSize) <==> key == sk || key == tk;
    var old_ := Bucket(reps, key, binSize);
    assert Get(before, key) == old_ by {
      if key !in before {
        assert old_ == [];
      }
    }
    if sk == tk {
      assert after[key] == if key == sk then old_ + [rep] else old_;
    } else {
      var mid := Append(before, sk, rep);
      assert Get(mid, key) == if key == sk then old_ + [rep] else old_;
      assert after[key] == if key == tk then Get(mid, key) + [rep] else Get(mid, key);
    }
  }

  // ---------------------------------------------------------------------------
  // What a lookup finds

  /** A repeat found covers the queried position, was put, and is the first
      covering one, in insertion order, of those filed under the position's bin. */
  lemma LookupSound(reps: seq<Repeat>, binSize: int, chrom: string, pos: string)
    requires Lookup(reps, binSize, chrom, pos).Ok?
    requires Lookup(reps, binSize, chrom, pos).value.Some?
    ensures var rep := Lookup(reps, binSize, chrom, pos).value.value;
      Covers(rep, chrom, ParseInt(pos).value) && rep in reps
      && InBucket(rep, PositionIndex(chrom, pos, binSize).value, binSize)
      && exists i :: 0 <= i < |reps| && reps[i] == rep
  {
    var key := PositionIndex(chrom, pos, binSize).value;
    var rep := Lookup(reps, binSize, chrom, pos).value.value;
    var b := Bucket(reps, key, binSize);
    assert rep in b;
  }

  /** A covering repeat whose start or stop shares the position's bin is found
      (perhaps after an earlier covering one). */
  lemma LookupComplete(reps: seq<Repeat>, binSize: int, chrom: string, pos: string, rep: Repeat)
    requires rep in reps && PositionIndex(chrom, pos, binSize).Ok?
    requires Covers(rep, chrom, ParseInt(pos).value)
    requires InBucket(rep, PositionIndex(chrom, pos, binSize).value, binSize)
    ensures Lookup(reps, binSize, chrom, pos).Ok? && Lookup(reps, binSize, chrom, pos).value.Some?
  {
    var key := PositionIndex(chrom, pos, binSize).value;
    BucketMembership(reps, key, binSize, rep);
    var b := Bucket(reps, key, binSize);
    var i :| 0 <= i < |b| && b[i] == rep;
  }

  /** A repeat filed under neither the position's bin is never returned for
      it, even when it covers the position: a repeat whose start bin is below
      and whose stop bin is above the position's bin. */
  lemma LookupMissesSpanningRepeat(reps: seq<Repeat>, binSize: int, chrom: string, pos: string, rep: Repeat)
    requires PositionIndex(chrom, pos, binSize).Ok?
    requires !InBucket(rep, PositionIndex(chrom, pos, binSize).value, binSize)
    ensures Lookup(reps, binSize, chrom, pos) != Ok(Some(rep))
  {
  }

  /** With bins of 10, a repeat from 5 to 25 on chr1 sits in bins 0 and 2, and
      a lookup at 15 (bin 1) finds nothing although the repeat covers it. */
  lemma SpanningRepeatExample()
    ensures var rep := Repeat("chr1", "5", "25", "AluY", "SINE", "Alu");
      Covers(rep, "chr1", 15) && Lookup([rep], 10, "chr1", "15") == Ok(None)
  {
    var rep := Repeat("chr1", "5", "25", "AluY", "SINE", "Alu");
    ParseIntToString(5);
    ParseIntToString(25);
    ParseIntToString(15);
    assert IntToString(5) == "5" && IntToString(25) == "25" && IntToString(15) == "15";
    assert StartBin(rep, 10) == Ok((NormalizeChrom("chr1"), 0));
    assert StopBin(rep, 10) == Ok((NormalizeChrom("chr1"), 2));
    var key := (NormalizeChrom("chr1"), 1);
    assert PositionIndex("chr1", "15", 10) == Ok(key);
    assert !InBucket(rep, key, 10);
    assert [rep][..0] == [];
    assert Bucket([rep], key, 10) == [];
  }

  /** The scan compares chromosomes only through their normalized names. */
  lemma {:induction false} FirstCoveringNormalized(bucket: seq<Repeat>, chrom: string, chrom': string, pos: int)
    requires NormalizeChrom(chrom) == NormalizeChrom(chrom')
    ensures FirstCovering(bucket, chrom, pos) == FirstCovering(bucket, chrom', pos)
    decreases |bucket|
  {
    if bucket != [] {
      FirstCoveringNormalized(bucket[1..], chrom, chrom', pos);
    }
  }

  /** `get_repeat("chr1", p)` and `get_repeat("1", p)` agree. */
  lemma LookupIgnoresChr(reps: seq<Repeat>, binSize: int, c: string, pos: string)
    requires !StartsWith(c, "chr")
    ensures Lookup(reps, binSize, "chr" + c, pos) == Lookup(reps, binSize, c, pos)
  {
    NormalizeIgnoresPrefix(c);
    if PositionIndex(c, pos, binSize).Ok? {
      var key := PositionIndex(c, pos, binSize).value;
      FirstCoveringNormalized(Bucket(reps, key, binSize), "chr" + c, c, ParseInt(pos).value);
    }
  }

  /** `get_repeat_by_position`: name, class and family of the repeat found. */
  method RepeatByPosition(rc: RepeatCollection, chrom: string, pos: string)
    returns (r: Result<Option<(string, string, string)>>)
    requires rc.Valid()
    modifies rc
    ensures rc.Valid() && rc.repeats == old(rc.repeats)
    ensures var found := Lookup(rc.repeats, rc.binSize, chrom, pos);
      r == match found
           case Err(e) => Err(e)
           case Ok(None) => Ok(None)
           case Ok(Some(rep)) => Ok(Some((rep.name, rep.repeatClass, rep.family)))
  {
    var repeat := rc.GetRepeat(chrom, pos);
    if repeat.Err? {
      return Err(repeat.error);
    }
    if repeat.value.Some? {
      var rep := repeat.value.value;
      return Ok(Some((rep.name, rep.repeatClass, rep.family)));
    }
    return Ok(None);
  }
}
