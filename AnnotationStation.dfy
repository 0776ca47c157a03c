/** annotation-station/annotation_station.py: the pure helpers of the
    command-line driver (the region simplifier and the built-in repeat
    table), the chunking of the positions handed to BLAT, and the row
    written for the repeat annotation. */
module AnnotationStation {
  import opened Outcomes
  import opened Strings

  // ---------------------------------------------------------------------------
  // get_simplified_region

  /** The substrings tested, in the order they are tested, with the value
      each one yields. */
  const RegionTags: seq<(string, string)> := [
    ("cds_in_exon", "CODING_EXONIC"),
    ("5-UTR", "5UTR"),
    ("3-UTR", "3UTR"),
    ("noncoding_exon", "NON_CODING_EXONIC"),
    ("intron", "INTRONIC"),
    ("intergenic", "INTERGENIC")
  ]

  /** The seven values the simplifier returns. */
  const RegionValues: set<string> := {"CODING_EXONIC", "5UTR", "3UTR", "NON_CODING_EXONIC", "INTRONIC", "INTERGENIC", "."}

  /** `get_simplified_region`: one of six region names, or '.'. */
  function SimplifiedRegion(region: string): (r: string)
    ensures r in RegionValues
  {
    if Contains(region, "cds_in_exon") then "CODING_EXONIC"
    else if Contains(region, "5-UTR") then "5UTR"
    else if Contains(region, "3-UTR") then "3UTR"
    else if Contains(region, "noncoding_exon") then "NON_CODING_EXONIC"
    else if Contains(region, "intron") then "INTRONIC"
    else if Contains(region, "intergenic") then "INTERGENIC"
    else "."
  }

  /** The first tag found in the region decides the result. */
  function FirstTag(region: string, j: nat): (r: Option<nat>)
    requires j <= |RegionTags|
    ensures r.Some? ==> (j <= r.value < |RegionTags| && Contains(region, RegionTags[r.value].0)
      && forall i :: j <= i < r.value ==> !Contains(region, RegionTags[i].0))
    ensures r.None? ==> forall i :: j <= i < |RegionTags| ==> !Contains(region, RegionTags[i].0)
    decreases |RegionTags| - j
  {
    if j == |RegionTags| then None
    else if Contains(region, RegionTags[j].0) then Some(j)
    else FirstTag(region, j + 1)
  }

  /** The simplified region is the value of the first tag the region
      contains, and '.' when it contains none. */
  lemma RegionByFirstTag(region: string)
    ensures SimplifiedRegion(region) ==
      match FirstTag(region, 0)
      case Some(j) => RegionTags[j].1
      case None => "."
  {
    assert RegionTags[0].0 == "cds_in_exon" && RegionTags[1].0 == "5-UTR" && RegionTags[2].0 == "3-UTR";
    assert RegionTags[3].0 == "noncoding_exon" && RegionTags[4].0 == "intron" && RegionTags[5].0 == "intergenic";
  }

  /** The seven values are distinct, so a value names its tag. */
  lemma RegionValuesDistinct()
    ensures forall i, j :: 0 <= i < j < |RegionTags| ==> RegionTags[i].1 != RegionTags[j].1
    ensures forall j :: 0 <= j < |RegionTags| ==> RegionTags[j].1 != "."
  {
    var v := seq(|RegionTags|, j requires 0 <= j < |RegionTags| => RegionTags[j].1);
    assert v[0][0] == 'C' && v[1][0] == '5' && v[2][0] == '3' && v[3][0] == 'N' && v[4][0] == 'I' && v[5][0] == 'I';
    assert v[4][2] == 'T' && v[5][2] == 'T' && v[4][3] == 'R' && v[5][3] == 'E';
  }

  /** Both directions of the priority: the result is the value of tag j
      exactly when the region contains tag j and none of the tags before
      it. */
  lemma RegionPriority(region: string, j: nat)
    requires j < |RegionTags|
    ensures SimplifiedRegion(region) == RegionTags[j].1 <==>
      Contains(region, RegionTags[j].0) && forall i :: 0 <= i < j ==> !Contains(region, RegionTags[i].0)
  {
    RegionByFirstTag(region);
    RegionValuesDistinct();
  }

  /** '.' exactly when the region contains none of the tags. */
  lemma NoRegionTag(region: string)
    ensures SimplifiedRegion(region) == "." <==> forall i :: 0 <= i < |RegionTags| ==> !Contains(region, RegionTags[i].0)
  {
    RegionByFirstTag(region);
    RegionValuesDistinct();
  }

  // ---------------------------------------------------------------------------
  // get_default_repeat_table

  /** The two repeat tables shipped with the tool. */
  datatype RepeatTable = Grch38Table | Grch37Table

  /** The reference names, in lower case, that select each table. */
  const Grch38Names: set<string> := {"hg38", "grch38"}
  const Grch37Names: set<string> := {"hg19", "hg37", "grch37"}

  /** `get_default_repeat_table`: the table for a reference version, or
      ValueError for a version without one. */
  function DefaultRepeatTable(referenceVersion: string): (r: Result<RepeatTable>)
    ensures r == Ok(Grch38Table) <==> Lower(referenceVersion) in Grch38Names
    ensures r == Ok(Grch37Table) <==> Lower(referenceVersion) in Grch37Names
    ensures r.Err? <==> Lower(referenceVersion) !in Grch38Names + Grch37Names
    ensures r.Err? ==> r.error == ValueError
  {
    var v := Lower(referenceVersion);
    if v == "hg38" || v == "grch38" then Ok(Grch38Table)
    else if v == "hg19" || v == "hg37" || v == "grch37" then Ok(Grch37Table)
    else Err(ValueError)
  }

  /** The version is compared without regard to case. */
  lemma RepeatTableIgnoresCase(referenceVersion: string)
    ensures DefaultRepeatTable(Lower(referenceVersion)) == DefaultRepeatTable(referenceVersion)
  {
    LowerIdempotent(referenceVersion);
  }

  // ---------------------------------------------------------------------------
  // The chunking loop of annotate_blat_tsv

  /** `chunk_size`. */
  const ChunkSize := 1000

  /** The pieces of at most `size` elements, in order, all full but the
      last. */
  function Chunks<T>(s: seq<T>, size: nat): (c: seq<seq<T>>)
    requires size > 0
    ensures forall k :: 0 <= k < |c| ==> 0 < |c[k]| <= size
    ensures forall k :: 0 <= k < |c| - 1 ==> |c[k]| == size
    decreases |s|
  {
    if s == [] then []
    else if |s| <= size then [s]
    else [s[..size]] + Chunks(s[size..], size)
  }

  /** The elements of the chunks, in order. */
  function Flatten<T>(c: seq<seq<T>>): seq<T>
    decreases |c|
  {
    if c == [] then [] else c[0] + Flatten(c[1..])
  }

  /** The chunks put back together are the input. */
  lemma {:induction false} ChunksFlatten<T>(s: seq<T>, size: nat)
    requires size > 0
    ensures Flatten(Chunks(s, size)) == s
    decreases |s|
  {
    if |s| > size {
      ChunksFlatten(s[size..], size);
      var c := Chunks(s, size);
      assert c[1..] == Chunks(s[size..], size);
      assert s == s[..size] + s[size..];
    } else if s != [] {
      assert Chunks(s, size)[1..] == [];
    }
  }

  /** There are ceil(n / chunk_size) chunks, so none for no input. */
  lemma {:induction false} ChunksCount<T>(s: seq<T>)
    ensures |Chunks(s, ChunkSize)| == (|s| + ChunkSize - 1) / ChunkSize
    decreases |s|
  {
    if |s| > ChunkSize {
      ChunksCount(s[ChunkSize..]);
    }
  }

  /** Adding at most one chunk's worth after full chunks adds one chunk. */
  lemma {:induction false} ChunksAppend<T>(a: seq<T>, b: seq<T>, size: nat, k: nat)
    requires size > 0 && |a| == k * size && 0 < |b| <= size
    ensures Chunks(a + b, size) == Chunks(a, size) + [b]
    decreases k
  {
    if k == 0 {
      assert a + b == b;
    } else {
      assert |a| >= size;
      ChunksAppend(a[size..], b, size, k - 1);
      assert (a + b)[..size] == a[..size];
      assert (a + b)[size..] == a[size..] + b;
      if |a| == size {
        assert a[size..] == [];
        assert Chunks(a, size) == [a];
        assert a[..size] == a;
      }
    }
  }

  /** `s[lo:hi]` for bounds that are not negative: the slice is cut at the
      end of the sequence and is empty when it starts past its end. */
  function Slice<T>(s: seq<T>, lo: nat, hi: nat): (r: seq<T>)
    ensures |r| <= |s|
  {
    var end := if hi < |s| then hi else |s|;
    if lo < end then s[lo..end] else []
  }

  /** `s[:n]`, cut at the end of the sequence. */
  function Prefix<T>(s: seq<T>, n: nat): seq<T> {
    if n < |s| then s[..n] else s
  }

  /** The loop over `range(chunk_size, len(chrom_pos_tups) + chunk_size,
      chunk_size)` that cuts the positions and the reference bases at the
      same bounds. */
  method ChunkPositions<P, B>(positions: seq<P>, bases: seq<B>) returns (pc: seq<seq<P>>, bc: seq<seq<B>>)
    ensures pc == Chunks(positions, ChunkSize)
    ensures |bc| == |pc|
    ensures forall k :: 0 <= k < |pc| ==>
      pc[k] == Slice(positions, k * ChunkSize, (k + 1) * ChunkSize)
      && bc[k] == Slice(bases, k * ChunkSize, (k + 1) * ChunkSize)
    ensures |bases| == |positions| ==> bc == Chunks(bases, ChunkSize)
  {
    pc, bc := [], [];
    var prev := 0;
    var i := ChunkSize;
    while i < |positions| + ChunkSize
      invariant i == prev + ChunkSize && prev == |pc| * ChunkSize
      invariant prev < |positions| + ChunkSize
      invariant pc == Chunks(Prefix(positions, prev), ChunkSize)
      invariant |bc| == |pc|
      invariant CutAtChunks(positions, pc) && CutAtChunks(bases, bc)
      invariant |bases| == |positions| ==> bc == Chunks(Prefix(bases, prev), ChunkSize)
      decreases |positions| + ChunkSize - i
    {
      ChunkStep(positions, prev, |pc|);
      if |bases| == |positions| {
        ChunkStep(bases, prev, |pc|);
      }
      CutSnoc(positions, pc, prev);
      CutSnoc(bases, bc, prev);
      pc := pc + [Slice(positions, prev, i)];
      bc := bc + [Slice(bases, prev, i)];
      prev := i;
      i := i + ChunkSize;
    }
    assert Prefix(positions, prev) == positions;
    assert Prefix(bases, prev) == bases || |bases| != |positions|;
  }

  /** The `k`-th piece is `s[k * chunk_size:(k + 1) * chunk_size]`. */
  ghost predicate CutAtChunks<T>(s: seq<T>, c: seq<seq<T>>) {
    forall k :: 0 <= k < |c| ==> c[k] == Slice(s, k * ChunkSize, (k + 1) * ChunkSize)
  }

  lemma CutSnoc<T>(s: seq<T>, c: seq<seq<T>>, prev: int)
    requires CutAtChunks(s, c) && prev == |c| * ChunkSize
    ensures CutAtChunks(s, c + [Slice(s, prev, prev + ChunkSize)])
  {
    var c' := c + [Slice(s, prev, prev + ChunkSize)];
    assert forall k :: 0 <= k < |c| ==> c'[k] == c[k];
  }

  /** One turn of the loop: the next slice is the next chunk. */
  lemma ChunkStep<T>(s: seq<T>, prev: nat, k: nat)
    requires prev < |s| && prev == k * ChunkSize
    ensures Chunks(Prefix(s, prev + ChunkSize), ChunkSize) == Chunks(Prefix(s, prev), ChunkSize) + [Slice(s, prev, prev + ChunkSize)]
  {
    var a, b := Prefix(s, prev), Slice(s, prev, prev + ChunkSize);
    assert a == s[..prev];
    assert Prefix(s, prev + ChunkSize) == a + b;
    ChunksAppend(a, b, ChunkSize, k);
  }

  // ---------------------------------------------------------------------------
  // The row annotate_repeats_tsv writes

  /** The three fields written for a position: name, class and family of
      the repeat, or dots without one. */
  function RepeatFields(repeat: Option<(string, string, string)>): (f: seq<string>)
    ensures |f| == 3
    ensures repeat.None? ==> f == [".", ".", "."]
    ensures repeat.Some? ==> f == [repeat.value.0, repeat.value.1, repeat.value.2]
  {
    match repeat
    case None => [".", ".", "."]
    case Some(t) => [t.0, t.1, t.2]
  }

  /** `line[:-1]`: the line without its last character, whatever it is. */
  function DropLast(line: string): (r: string)
    ensures line != [] ==> line == r + [line[|line| - 1]]
    ensures line == [] ==> r == []
  {
    if line == [] then [] else line[..|line| - 1]
  }

  /** The row as the source writes it. */
  function RepeatRowAsWritten(line: string, repeat: Option<(string, string, string)>): (r: string)
    ensures var d := DropLast(line); |d| < |r| && r[..|d|] == d && r[|d|] == '\t'
    ensures var family := RepeatFields(repeat)[2];
      |family| < |r| && r[|r| - |family|..] == family && r[|r| - |family| - 1] == '\t'
  {
    var f := RepeatFields(repeat);
    DropLast(line) + "\t" + f[0] + "\t" + f[1] + "\t" + f[2]
  }

  /** The line without the line break that ends it, when it has one. */
  function Chomp(line: string): (r: string)
    ensures line != [] && line[|line| - 1] == '\n' ==> line == r + "\n"
    ensures line == [] || line[|line| - 1] != '\n' ==> r == line
  {
    if line != [] && line[|line| - 1] == '\n' then line[..|line| - 1] else line
  }

  /** The row as evidently intended: the line without its line break. */
  function RepeatRow(line: string, repeat: Option<(string, string, string)>): (r: string)
    ensures var c := Chomp(line); |c| < |r| && r[..|c|] == c && r[|c|] == '\t'
    ensures var family := RepeatFields(repeat)[2];
      |family| < |r| && r[|r| - |family|..] == family && r[|r| - |family| - 1] == '\t'
  {
    var f := RepeatFields(repeat);
    Chomp(line) + "\t" + f[0] + "\t" + f[1] + "\t" + f[2]
  }

  /** The two agree on every line that ends with a line break. */
  lemma AsWrittenOnTerminatedLine(line: string, repeat: Option<(string, string, string)>)
    ensures RepeatRowAsWritten(line + "\n", repeat) == RepeatRow(line + "\n", repeat)
  {
    var l := line + "\n";
    assert l[..|l| - 1] == line;
  }

  /** The last line of a file that does not end with a line break loses its
      last character: "chr1\t100" is written as "chr1\t10" and the fields. */
  lemma UnterminatedLineLosesLastCharacter(line: string, c: char, repeat: Option<(string, string, string)>)
    requires c != '\n'
    ensures RepeatRowAsWritten(line + [c], repeat) != RepeatRow(line + [c], repeat)
    ensures RepeatRowAsWritten(line + [c], repeat) == RepeatRow(line, repeat) || Chomp(line) != line
  {
    var l := line + [c];
    assert l[..|l| - 1] == line;
    assert |RepeatRowAsWritten(l, repeat)| + 1 == |RepeatRow(l, repeat)|;
  }

  /** Splitting the row at tabs gives back the fields of the line and then
      the three repeat fields, when those contain no tab. */
  lemma RepeatRowFields(line: string, repeat: Option<(string, string, string)>)
    requires forall x :: x in RepeatFields(repeat) ==> '\t' !in x
    ensures Split(RepeatRow(line, repeat), '\t') == Split(Chomp(line), '\t') + RepeatFields(repeat)
  {
    var f := RepeatFields(repeat);
    assert f[0] in f && f[1] in f && f[2] in f;
    RowSplit(Chomp(line), f[0], f[1], f[2]);
    assert f == [f[0], f[1], f[2]];
  }

  lemma RowSplit(c: string, x: string, y: string, z: string)
    requires '\t' !in x && '\t' !in y && '\t' !in z
    ensures Split(c + "\t" + x + "\t" + y + "\t" + z, '\t') == Split(c, '\t') + [x, y, z]
  {
    var tail := x + "\t" + y + "\t" + z;
    assert c + "\t" + x + "\t" + y + "\t" + z == c + ['\t'] + tail by {
      Associative(c + "\t" + x, "\t", y + "\t" + z);
      Associative(c + "\t", x, "\t" + (y + "\t" + z));
    }
    SplitAround(c, tail, '\t');
    ThreeFields(x, y, z);
  }

  lemma ThreeFields(a: string, b: string, c: string)
    requires '\t' !in a && '\t' !in b && '\t' !in c
    ensures Split(a + "\t" + b + "\t" + c, '\t') == [a, b, c]
  {
    assert a + "\t" + b + "\t" + c == a + ['\t'] + (b + ['\t'] + c);
    SplitAfterSeparator(a, b + ['\t'] + c, '\t');
    SplitAfterSeparator(b, c, '\t');
    SplitPlain(c, '\t');
  }
}
