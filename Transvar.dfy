/** annotation-station/transvar_wrapper.py: choosing one transcript
    annotation among the lines transvar prints for a genomic position. The
    table from gene to primary transcript is a parameter. */
module Transvar {
  import opened Outcomes
  import opened Strings

  /** (transcript, gene, strand, region, info). */
  datatype Entry = Entry(transcript: string, gene: string, strand: string, region: string, info: string)

  /** `('.', '.', '.', '.', '.')`. */
  const NoEntry := Entry(".", ".", ".", ".", ".")

  /** `line.strip().split('\t')`. */
  function Pieces(line: string): seq<string> {
    Split(Strip(line), '\t')
  }

  /** The fields of every line, in order. */
  function Rows(lines: seq<string>): (rows: seq<seq<string>>)
    ensures |rows| == |lines|
    ensures forall k :: 0 <= k < |lines| ==> rows[k] == Pieces(lines[k])
  {
    seq(|lines|, k requires 0 <= k < |lines| => Pieces(lines[k]))
  }

  /** A line of transvar output with more than six fields. */
  predicate Valid(row: seq<string>) {
    |row| > 6
  }

  /** The annotation of a valid line: fields 1 (up to its first space), 2,
      3, 5 and 6; field 4 is not used. */
  function EntryOf(row: seq<string>): (e: Entry)
    requires Valid(row)
    ensures e.gene == row[2] && e.strand == row[3]
    ensures e.region == row[5] && e.info == row[6]
    ensures ' ' !in e.transcript && StartsWith(row[1], e.transcript)
    ensures |e.transcript| == |row[1]| || row[1][|e.transcript|] == ' '
  {
    SplitFirstIsPrefix(row[1], ' ');
    Entry(Split(row[1], ' ')[0], row[2], row[3], row[5], row[6])
  }

  /** The first piece of a split is a prefix of the string that ends at the
      end of the string or at a separator. */
  lemma {:induction false} SplitFirstIsPrefix(s: string, sep: char)
    ensures StartsWith(s, Split(s, sep)[0])
    ensures |Split(s, sep)[0]| == |s| || s[|Split(s, sep)[0]|] == sep
    decreases |s|
  {
    if s != [] && s[0] != sep {
      SplitFirstIsPrefix(s[1..], sep);
      var t := Split(s[1..], sep)[0];
      assert s == [s[0]] + s[1..];
      assert ([s[0]] + t) == s[..|t| + 1];
      assert Split(s, sep)[0] == [s[0]] + t;
      assert |t| < |s[1..]| ==> s[|t| + 1] == s[1..][|t|];
    }
  }

  // ---------------------------------------------------------------------------
  // get_gene_from_transvar_lines

  /** A valid line whose gene has a primary transcript. */
  predicate KnownGene(row: seq<string>, primaryOf: map<string, string>) {
    Valid(row) && row[2] in primaryOf
  }

  /** `get_gene_from_transvar_lines`: the gene of the first line that names
      a gene with a primary transcript, or ''. */
  function GeneFrom(rows: seq<seq<string>>, primaryOf: map<string, string>): (g: string)
    ensures (forall k :: 0 <= k < |rows| ==> !KnownGene(rows[k], primaryOf)) ==> g == ""
    ensures forall k :: (0 <= k < |rows| && KnownGene(rows[k], primaryOf)
      && forall j :: 0 <= j < k ==> !KnownGene(rows[j], primaryOf)) ==> g == rows[k][2]
    decreases |rows|
  {
    if rows == [] then ""
    else if KnownGene(rows[0], primaryOf) then rows[0][2]
    else
      assert forall k :: 0 < k < |rows| ==> rows[1..][k - 1] == rows[k];
      GeneFrom(rows[1..], primaryOf)
  }

  // ---------------------------------------------------------------------------
  // parse_for_ensembl_transcript

  /** The lines of the output that do not contain 'input', in order. */
  function WithoutInput(lines: seq<string>): (kept: seq<string>)
    ensures forall l :: l in kept <==> l in lines && !Contains(l, "input")
    ensures forall i :: (0 <= i < |lines| && !Contains(lines[i], "input")
      && forall j :: 0 <= j < i ==> Contains(lines[j], "input")) ==> kept != [] && kept[0] == lines[i]
    decreases |lines|
  {
    if lines == [] then []
    else
      var rest := WithoutInput(lines[1..]);
      assert forall l :: l in lines <==> l == lines[0] || l in lines[1..];
      assert forall j :: 0 < j < |lines| ==> lines[1..][j - 1] == lines[j];
      (if Contains(lines[0], "input") then [] else [lines[0]]) + rest
  }

  /** The filter works line by line: it keeps the order of the lines it keeps. */
  lemma {:induction false} WithoutInputAppend(a: seq<string>, b: seq<string>)
    ensures WithoutInput(a + b) == WithoutInput(a) + WithoutInput(b)
    decreases |a|
  {
    if a == [] {
      assert a + b == b;
    } else {
      var t, x := a[1..], [a[0]];
      assert a == x + t;
      Associative(x, t, b);
      WithoutInputAppend(t, b);
      WithoutInputCons(a[0], t);
      WithoutInputCons(a[0], t + b);
      var h := if Contains(a[0], "input") then [] else [a[0]];
      Associative(h, WithoutInput(t), WithoutInput(b));
    }
  }

  lemma WithoutInputCons(l: string, rest: seq<string>)
    ensures WithoutInput([l] + rest) == (if Contains(l, "input") then [] else [l]) + WithoutInput(rest)
  {
    assert ([l] + rest)[0] == l && ([l] + rest)[1..] == rest;
  }

  /** One line is kept exactly when it does not contain 'input'. */
  lemma WithoutInputLine(l: string)
    ensures WithoutInput([l]) == if Contains(l, "input") then [] else [l]
  {
    assert [l][1..] == [];
  }

  /** `transcript.lower().split('.')[0] == primary.lower().split('.')[0]`:
      the names agree up to case and version suffix. */
  predicate IsPrimary(transcript: string, primary: string) {
    Split(Lower(transcript), '.')[0] == Split(Lower(primary), '.')[0]
  }

  /** `'source=Ensembl' in info`. */
  predicate EnsemblInfo(info: string) {
    Contains(info, "source=Ensembl")
  }

  /** The three kinds of lines the fallback order tells apart. */
  datatype Kind = EnsemblPrimary | OtherPrimary | Ensembl

  predicate IsKind(row: seq<string>, primary: string, kind: Kind) {
    Valid(row) &&
    match kind
    case EnsemblPrimary => EnsemblInfo(row[6]) && IsPrimary(EntryOf(row).transcript, primary)
    case OtherPrimary => !EnsemblInfo(row[6]) && IsPrimary(EntryOf(row).transcript, primary)
    case Ensembl => EnsemblInfo(row[6])
  }

  /** Which lines are of a kind. */
  function Marks(rows: seq<seq<string>>, primary: string, kind: Kind): (m: seq<bool>)
    ensures |m| == |rows|
    ensures forall k :: 0 <= k < |rows| ==> m[k] == IsKind(rows[k], primary, kind)
  {
    seq(|rows|, k requires 0 <= k < |rows| => IsKind(rows[k], primary, kind))
  }

  /** The first marked index. */
  function FirstTrue(m: seq<bool>): (r: Option<nat>)
    ensures r.None? <==> forall k :: 0 <= k < |m| ==> !m[k]
    ensures r.Some? ==> (r.value < |m| && m[r.value] && forall j :: 0 <= j < r.value ==> !m[j])
    decreases |m|
  {
    if m == [] then None
    else if m[0] then Some(0)
    else
      match FirstTrue(m[1..])
      case None => None
      case Some(i) => Some(i + 1)
  }

  /** The last marked index. */
  function LastTrue(m: seq<bool>): (r: Option<nat>)
    ensures r.None? <==> forall k :: 0 <= k < |m| ==> !m[k]
    ensures r.Some? ==> (r.value < |m| && m[r.value] && forall j :: r.value < j < |m| ==> !m[j])
    decreases |m|
  {
    if m == [] then None
    else if m[|m| - 1] then Some(|m| - 1)
    else LastTrue(m[..|m| - 1])
  }

  /** The first and the last line of a kind. */
  function FirstOf(rows: seq<seq<string>>, primary: string, kind: Kind): (r: Option<nat>)
    ensures r.Some? ==> r.value < |rows| && IsKind(rows[r.value], primary, kind)
  {
    FirstTrue(Marks(rows, primary, kind))
  }

  function LastOf(rows: seq<seq<string>>, primary: string, kind: Kind): (r: Option<nat>)
    ensures r.Some? ==> r.value < |rows| && IsKind(rows[r.value], primary, kind)
  {
    LastTrue(Marks(rows, primary, kind))
  }

  /** The order in which the function falls back: the first Ensembl line of
      the primary transcript, else the last other line of the primary
      transcript, else the first Ensembl line, else line 0 when it is valid,
      else dots. */
  function Select(rows: seq<seq<string>>, primary: string): Entry {
    match FirstOf(rows, primary, EnsemblPrimary)
    case Some(i) => EntryOf(rows[i])
    case None =>
      match LastOf(rows, primary, OtherPrimary)
      case Some(i) => EntryOf(rows[i])
      case None =>
        match FirstOf(rows, primary, Ensembl)
        case Some(i) => EntryOf(rows[i])
        case None =>
          if rows != [] && Valid(rows[0]) then EntryOf(rows[0]) else NoEntry
  }

  /** `GENE_TO_PRIMARY_TRANSCRIPT.get(main_gene, '')`. */
  function PrimaryFor(rows: seq<seq<string>>, primaryOf: map<string, string>): string {
    var gene := GeneFrom(rows, primaryOf);
    if gene in primaryOf then primaryOf[gene] else ""
  }

  /** `parse_for_ensembl_transcript`: the loop with its three accumulators
      and its early return. */
  method ParseForEnsemblTranscript(output: string, primaryOf: map<string, string>) returns (e: Entry)
    ensures var rows := Rows(WithoutInput(Split(output, '\n')));
      e == Select(rows, PrimaryFor(rows, primaryOf))
  {
    var lines := WithoutInput(Split(output, '\n'));
    var mainGene := GeneFrom(Rows(lines), primaryOf);
    var primary := if mainGene in primaryOf then primaryOf[mainGene] else "";
    e := ScanLines(lines, primary);
  }

  method ScanLines(lines: seq<string>, primary: string) returns (e: Entry)
    ensures e == Select(Rows(lines), primary)
  {
    ghost var rows := Rows(lines);
    var firstTranscript: Option<Entry> := None;
    var firstEnsembl: Option<Entry> := None;
    var primaryTranscript: Option<Entry> := None;
    for i := 0 to |lines|
      invariant Earliest(rows, primary, EnsemblPrimary, i).None?
      invariant firstTranscript == if 0 < i && Valid(rows[0]) then Some(EntryOf(rows[0])) else None
      invariant firstEnsembl == Earliest(rows, primary, Ensembl, i)
      invariant primaryTranscript == Latest(rows, primary, OtherPrimary, i)
    {
      EarliestStep(rows, primary, EnsemblPrimary, i);
      EarliestStep(rows, primary, Ensembl, i);
      LatestStep(rows, primary, OtherPrimary, i);
      var pieces := Pieces(lines[i]);
      assert pieces == rows[i];
      if |pieces| > 6 {
        var entry := EntryOf(pieces);
        if i == 0 {
          firstTranscript := Some(entry);
        }
        var ensembl := EnsemblInfo(entry.info);
        if ensembl && firstEnsembl.None? {
          firstEnsembl := Some(entry);
        }
        var isPrimary := IsPrimary(entry.transcript, primary);
        if ensembl && isPrimary {
          FoundHere(rows, i, primary);
          return entry;
        } else if isPrimary {
          primaryTranscript := Some(entry);
        }
      }
    }
    AfterScan(rows, primary);
    if primaryTranscript.Some? {
      return primaryTranscript.value;
    }
    if firstEnsembl.Some? {
      return firstEnsembl.value;
    }
    if firstTranscript.Some? {
      return firstTranscript.value;
    }
    return NoEntry;
  }

  /** The annotation of the first and of the last line of a kind among the
      first i lines. */
  function Earliest(rows: seq<seq<string>>, primary: string, kind: Kind, i: nat): Option<Entry>
    requires i <= |rows|
  {
    var m := Marks(rows, primary, kind);
    match FirstTrue(m[..i])
    case None => None
    case Some(k) => assert m[..i][k] == m[k]; Some(EntryOf(rows[k]))
  }

  function Latest(rows: seq<seq<string>>, primary: string, kind: Kind, i: nat): Option<Entry>
    requires i <= |rows|
  {
    var m := Marks(rows, primary, kind);
    match LastTrue(m[..i])
    case None => None
    case Some(k) => assert m[..i][k] == m[k]; Some(EntryOf(rows[k]))
  }

  /** How the first and the last line of a kind move when a line is added. */
  lemma EarliestStep(rows: seq<seq<string>>, primary: string, kind: Kind, i: nat)
    requires i < |rows|
    ensures Earliest(rows, primary, kind, i + 1) ==
      if Earliest(rows, primary, kind, i).Some? then Earliest(rows, primary, kind, i)
      else if IsKind(rows[i], primary, kind) then Some(EntryOf(rows[i])) else None
  {
    FirstTrueStep(Marks(rows, primary, kind), i);
  }

  lemma LatestStep(rows: seq<seq<string>>, primary: string, kind: Kind, i: nat)
    requires i < |rows|
    ensures Latest(rows, primary, kind, i + 1) ==
      if IsKind(rows[i], primary, kind) then Some(EntryOf(rows[i])) else Latest(rows, primary, kind, i)
  {
    LastTrueStep(Marks(rows, primary, kind), i);
  }

  /** What is left to choose from once no line was an Ensembl line of the
      primary transcript. */
  lemma AfterScan(rows: seq<seq<string>>, primary: string)
    requires Earliest(rows, primary, EnsemblPrimary, |rows|).None?
    ensures Select(rows, primary) ==
      match Latest(rows, primary, OtherPrimary, |rows|)
      case Some(e) => e
      case None =>
        match Earliest(rows, primary, Ensembl, |rows|)
        case Some(e) => e
        case None => if rows != [] && Valid(rows[0]) then EntryOf(rows[0]) else NoEntry
  {
    var m1, m2, m3 := Marks(rows, primary, EnsemblPrimary), Marks(rows, primary, OtherPrimary), Marks(rows, primary, Ensembl);
    assert m1[..|m1|] == m1 && m2[..|m2|] == m2 && m3[..|m3|] == m3;
  }

  /** How the first and the last mark move when a mark is added. */
  lemma FirstTrueStep(m: seq<bool>, i: nat)
    requires i < |m|
    ensures FirstTrue(m[..i + 1]) == if FirstTrue(m[..i]).Some? then FirstTrue(m[..i]) else if m[i] then Some(i) else None
  {
    assert forall k :: 0 <= k < i ==> m[..i + 1][k] == m[..i][k];
    assert m[..i + 1][i] == m[i];
  }

  lemma LastTrueStep(m: seq<bool>, i: nat)
    requires i < |m|
    ensures LastTrue(m[..i + 1]) == if m[i] then Some(i) else LastTrue(m[..i])
  {
    assert m[..i + 1][..i] == m[..i];
  }

  /** The early return: the line of the kind after a prefix without one. */
  lemma FoundHere(rows: seq<seq<string>>, i: nat, primary: string)
    requires i < |rows| && IsKind(rows[i], primary, EnsemblPrimary)
    requires Earliest(rows, primary, EnsemblPrimary, i).None?
    ensures Select(rows, primary) == EntryOf(rows[i])
  {
    var m := Marks(rows, primary, EnsemblPrimary);
    assert forall k :: 0 <= k < i ==> m[..i][k] == m[k];
    FirstIsHere(rows, i, primary);
  }

  lemma FirstIsHere(rows: seq<seq<string>>, i: nat, primary: string)
    requires i < |rows| && IsKind(rows[i], primary, EnsemblPrimary)
    requires forall k :: 0 <= k < i ==> !IsKind(rows[k], primary, EnsemblPrimary)
    ensures Select(rows, primary) == EntryOf(rows[i])
  {
    var r := FirstOf(rows, primary, EnsemblPrimary);
    assert r.Some?;
    assert r.value == i;
  }

  // ---------------------------------------------------------------------------
  // What the selection promises

  /** The result is dots or the annotation of one of the valid lines. */
  lemma SelectFromLines(rows: seq<seq<string>>, primary: string)
    ensures Select(rows, primary) == NoEntry
      || exists k :: 0 <= k < |rows| && Valid(rows[k]) && Select(rows, primary) == EntryOf(rows[k])
  {
  }

  /** Without a valid line the result is dots. */
  lemma NoValidLine(rows: seq<seq<string>>, primary: string)
    requires forall k :: 0 <= k < |rows| ==> !Valid(rows[k])
    ensures Select(rows, primary) == NoEntry
  {
    assert FirstOf(rows, primary, EnsemblPrimary).None?;
    assert LastOf(rows, primary, OtherPrimary).None?;
    assert FirstOf(rows, primary, Ensembl).None?;
  }

  /** An Ensembl line of the primary transcript is chosen over every other
      line, and the first such line wins. */
  lemma EnsemblPrimaryFirst(rows: seq<seq<string>>, primary: string, k: nat)
    requires k < |rows| && IsKind(rows[k], primary, EnsemblPrimary)
    requires forall j :: 0 <= j < k ==> !IsKind(rows[j], primary, EnsemblPrimary)
    ensures Select(rows, primary) == EntryOf(rows[k])
  {
    FirstIsHere(rows, k, primary);
  }

  /** Without Ensembl lines of the primary transcript, the last other line
      of the primary transcript wins. */
  lemma LastPrimaryWins(rows: seq<seq<string>>, primary: string, k: nat)
    requires forall j :: 0 <= j < |rows| ==> !IsKind(rows[j], primary, EnsemblPrimary)
    requires k < |rows| && IsKind(rows[k], primary, OtherPrimary)
    requires forall j :: k < j < |rows| ==> !IsKind(rows[j], primary, OtherPrimary)
    ensures Select(rows, primary) == EntryOf(rows[k])
  {
    assert FirstOf(rows, primary, EnsemblPrimary).None?;
    var r := LastOf(rows, primary, OtherPrimary);
    assert Marks(rows, primary, OtherPrimary)[k];
    assert r.Some?;
    assert r.value == k;
  }

  /** Line 0 is only the last resort, and only when it is valid. */
  lemma FirstLineLastResort(rows: seq<seq<string>>, primary: string)
    requires forall j :: 0 <= j < |rows| ==> Valid(rows[j]) ==> !EnsemblInfo(rows[j][6]) && !IsPrimary(EntryOf(rows[j]).transcript, primary)
    ensures Select(rows, primary) == if rows != [] && Valid(rows[0]) then EntryOf(rows[0]) else NoEntry
  {
    assert FirstOf(rows, primary, EnsemblPrimary).None?;
    assert LastOf(rows, primary, OtherPrimary).None?;
    assert FirstOf(rows, primary, Ensembl).None?;
  }

  // ---------------------------------------------------------------------------
  // The transcript comparison

  /** Lower-casing works character by character. */
  lemma LowerAround(a: string, c: char, b: string)
    ensures Lower(a + [c] + b) == Lower(a) + [LowerChar(c)] + Lower(b)
  {
    var s, r := a + [c] + b, Lower(a) + [LowerChar(c)] + Lower(b);
    forall k | 0 <= k < |s|
      ensures Lower(s)[k] == r[k]
    {
      if k < |a| {
        assert s[k] == a[k];
      } else if k > |a| {
        assert s[k] == b[k - |a| - 1];
      }
    }
  }

  /** A version suffix does not change the part before the first '.'. */
  lemma VersionIgnored(name: string, version: string)
    requires '.' !in name
    ensures Split(Lower(name + "." + version), '.')[0] == Lower(name)
  {
    assert name + "." + version == name + ['.'] + version;
    LowerAround(name, '.', version);
    NoDotAfterLower(name);
    SplitAfterSeparator(Lower(name), Lower(version), '.');
  }

  lemma NoDotAfterLower(name: string)
    requires '.' !in name
    ensures '.' !in Lower(name)
  {
    forall k | 0 <= k < |name|
      ensures Lower(name)[k] != '.'
    {
    }
  }

  /** Case and a version suffix do not matter: "ENST01.4" names the primary
      transcript "enst01.2". */
  lemma PrimaryIgnoresCaseAndVersion(name: string, version: string, primary: string)
    requires '.' !in name
    ensures IsPrimary(name + "." + version, primary) <==> IsPrimary(name, primary)
    ensures IsPrimary(Lower(name), primary) <==> IsPrimary(name, primary)
  {
    VersionIgnored(name, version);
    NoDotAfterLower(name);
    SplitPlain(Lower(name), '.');
    LowerIdempotent(name);
  }
}
