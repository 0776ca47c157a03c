/** `get_reads_to_sequences_from_fasta_stream` of annotation-station/bam_utils.py:
    the text is split into lines, and each header line `>id` starts a record
    whose sequence is the concatenation of the stripped lines that follow it.
    Records go into a dictionary keyed by id; sequence text before any header
    is stored under `None` only when no header ever follows. */
module Fasta {
  import opened Outcomes
  import opened Strings

  /** The dictionary the parser returns, keyed by record id (`None` for the
      text before any header). */
  type Records = map<Option<string>, string>

  /** The loop state: `active_seq_id`, `active_seq` and the dictionary built
      so far. */
  datatype Parser = Parser(activeId: Option<string>, activeSeq: string, records: Records)

  const Start := Parser(None, "", map[])

  /** A line that, once stripped, starts with '>'. */
  predicate IsHeader(line: string) {
    Strip(line) != [] && Strip(line)[0] == '>'
  }

  /** A non-empty line made only of whitespace. */
  predicate IsBlank(line: string) {
    line != [] && Strip(line) == []
  }

  /** The record the state holds is stored when a new header arrives. */
  function Flush(st: Parser): Records {
    if st.activeId.Some? then st.records[st.activeId := st.activeSeq] else st.records
  }

  /** The state after a header line. */
  function OpenRecord(st: Parser, line: string): Parser
    requires IsHeader(line)
  {
    Parser(Some(Strip(line)[1..]), "", Flush(st))
  }

  // ---------------------------------------------------------------------------
  // As written

  /** One iteration of the loop as the source writes it: empty lines are
      skipped before stripping, so a line of whitespace only reaches
      `line[0]` empty and raises IndexError. */
  function Step(st: Parser, line: string): Result<Parser> {
    if line == [] then Ok(st)
    else if Strip(line) == [] then Err(IndexError)
    else if IsHeader(line) then Ok(OpenRecord(st, line))
    else Ok(Parser(st.activeId, st.activeSeq + Strip(line), st.records))
  }

  function Fold(lines: seq<string>, st: Parser): Result<Parser>
    decreases |lines|
  {
    if lines == [] then Ok(st)
    else
      match Fold(lines[..|lines| - 1], st)
      case Err(e) => Err(e)
      case Ok(s) => Step(s, lines[|lines| - 1])
  }

  /** The dictionary returned for the given lines, the last record included. */
  function ParseLines(lines: seq<string>): Result<Records> {
    match Fold(lines, Start)
    case Err(e) => Err(e)
    case Ok(s) => Ok(s.records[s.activeId := s.activeSeq])
  }

  /** `get_reads_to_sequences_from_fasta_stream(input_fasta_stream)`. */
  method ParseFastaStream(stream: string) returns (r: Result<Records>)
    ensures r == ParseLines(Split(stream, '\n'))
  {
    var lines := Split(stream, '\n');
    var activeId: Option<string> := None;
    var activeSeq := "";
    var records: Records := map[];
    var i := 0;
    while i < |lines|
      invariant 0 <= i <= |lines|
      invariant Fold(lines[..i], Start) == Ok(Parser(activeId, activeSeq, records))
    {
      var line := lines[i];
      assert lines[..i + 1][..i] == lines[..i];
      if line != [] {
        var stripped := Strip(line);
        if stripped == [] {
          FoldFailureSticks(lines, i + 1, Start);
          return Err(IndexError);
        }
        if stripped[0] == '>' {
          if activeId.Some? {
            records := records[activeId := activeSeq];
          }
          activeId := Some(stripped[1..]);
          activeSeq := "";
        } else {
          activeSeq := activeSeq + stripped;
        }
      }
      i := i + 1;
    }
    assert lines[..|lines|] == lines;
    records := records[activeId := activeSeq];
    return Ok(records);
  }

  /** Once a line fails, the whole parse fails with the same error. */
  lemma {:induction false} FoldFailureSticks(lines: seq<string>, j: nat, st: Parser)
    requires j <= |lines| && Fold(lines[..j], st).Err?
    ensures Fold(lines, st) == Fold(lines[..j], st)
    decreases |lines| - j
  {
    if j < |lines| {
      assert lines[..j + 1][..j] == lines[..j];
      FoldFailureSticks(lines, j + 1, st);
    } else {
      assert lines[..j] == lines;
    }
  }

  /** A line holding a single space is blank. */
  lemma SpaceIsBlank()
    ensures IsBlank(" ")
  {
    assert " "[1..] == [];
    assert StripLeft(" ") == [];
  }

  /** The parse as written fails, always with IndexError, exactly when some
      line is whitespace only. */
  lemma BlankLineFails(lines: seq<string>)
    ensures ParseLines(lines).Err? <==> exists k :: 0 <= k < |lines| && IsBlank(lines[k])
    ensures ParseLines(lines).Err? ==> ParseLines(lines).error == IndexError
  {
    FoldFails(lines, Start);
  }

  lemma {:induction false} FoldFails(lines: seq<string>, st: Parser)
    ensures Fold(lines, st).Err? <==> exists k :: 0 <= k < |lines| && IsBlank(lines[k])
    ensures Fold(lines, st).Err? ==> Fold(lines, st).error == IndexError
    decreases |lines|
  {
    if lines != [] {
      var init, last := lines[..|lines| - 1], lines[|lines| - 1];
      FoldFails(init, st);
      SomeBlankSnoc(lines);
      if Fold(init, st).Ok? {
        StepFails(Fold(init, st).value, last);
      }
    }
  }

  predicate SomeBlank(lines: seq<string>) {
    exists k :: 0 <= k < |lines| && IsBlank(lines[k])
  }

  lemma SomeBlankSnoc(lines: seq<string>)
    requires lines != []
    ensures SomeBlank(lines) <==> SomeBlank(lines[..|lines| - 1]) || IsBlank(lines[|lines| - 1])
  {
    var init := lines[..|lines| - 1];
    assert forall k :: 0 <= k < |init| ==> init[k] == lines[k];
  }

  lemma StepFails(st: Parser, line: string)
    ensures Step(st, line).Err? <==> IsBlank(line)
    ensures Step(st, line).Err? ==> Step(st, line).error == IndexError
  {
  }

  // ---------------------------------------------------------------------------
  // Intended: every line that strips to nothing is skipped

  function StepSkippingBlanks(st: Parser, line: string): Parser {
    if Strip(line) == [] then st
    else if IsHeader(line) then OpenRecord(st, line)
    else Parser(st.activeId, st.activeSeq + Strip(line), st.records)
  }

  function FoldSkippingBlanks(lines: seq<string>, st: Parser): Parser
    decreases |lines|
  {
    if lines == [] then st
    else StepSkippingBlanks(FoldSkippingBlanks(lines[..|lines| - 1], st), lines[|lines| - 1])
  }

  /** The dictionary of the parser that skips whitespace-only lines. */
  function FastaRecords(lines: seq<string>): Records {
    var s := FoldSkippingBlanks(lines, Start);
    s.records[s.activeId := s.activeSeq]
  }

  /** The concatenation of the stripped lines. */
  function SequenceText(lines: seq<string>): string
    decreases |lines|
  {
    if lines == [] then "" else SequenceText(lines[..|lines| - 1]) + Strip(lines[|lines| - 1])
  }

  /** Without whitespace-only lines the parser as written succeeds and agrees
      with the parser that skips them. */
  lemma {:induction false} AgreesWithoutBlankLines(lines: seq<string>, st: Parser)
    requires forall k :: 0 <= k < |lines| ==> !IsBlank(lines[k])
    ensures Fold(lines, st) == Ok(FoldSkippingBlanks(lines, st))
    decreases |lines|
  {
    if lines != [] {
      var init := lines[..|lines| - 1];
      assert forall k :: 0 <= k < |init| ==> init[k] == lines[k];
      AgreesWithoutBlankLines(init, st);
      StepAgrees(FoldSkippingBlanks(init, st), lines[|lines| - 1]);
    }
  }

  lemma StepAgrees(st: Parser, line: string)
    requires !IsBlank(line)
    ensures Step(st, line) == Ok(StepSkippingBlanks(st, line))
  {
    if line == [] {
      assert Strip(line) == [];
    }
  }

  lemma AgreesOnStreams(lines: seq<string>)
    requires forall k :: 0 <= k < |lines| ==> !IsBlank(lines[k])
    ensures ParseLines(lines) == Ok(FastaRecords(lines))
  {
    AgreesWithoutBlankLines(lines, Start);
  }

  /** Folding a concatenation folds the second part from where the first left off. */
  lemma {:induction false} FoldAppend(a: seq<string>, b: seq<string>, st: Parser)
    ensures FoldSkippingBlanks(a + b, st) == FoldSkippingBlanks(b, FoldSkippingBlanks(a, st))
    decreases |b|
  {
    if b == [] {
      assert a + b == a;
    } else {
      assert (a + b)[..|a + b| - 1] == a + b[..|b| - 1];
      FoldAppend(a, b[..|b| - 1], st);
    }
  }

  /** In the corrected parser a whitespace-only line changes nothing. */
  lemma BlankLineSkipped(before: seq<string>, blank: string, after: seq<string>)
    requires IsBlank(blank)
    ensures FastaRecords(before + [blank] + after) == FastaRecords(before + after)
  {
    FoldAppend(before + [blank], after, Start);
    FoldAppend(before, [blank], Start);
    FoldAppend(before, after, Start);
    assert [blank][..0] == [];
  }

  /** Lines without a header extend the active sequence by their stripped text. */
  lemma {:induction false} BodyLines(body: seq<string>, st: Parser)
    requires forall k :: 0 <= k < |body| ==> !IsHeader(body[k])
    ensures FoldSkippingBlanks(body, st) == Parser(st.activeId, st.activeSeq + SequenceText(body), st.records)
    decreases |body|
  {
    if body == [] {
      assert st.activeSeq + "" == st.activeSeq;
    } else {
      var init := body[..|body| - 1];
      assert forall k :: 0 <= k < |init| ==> init[k] == body[k];
      BodyLines(init, st);
      BodyLinesLast(body, st);
    }
  }

  lemma BodyLinesLast(body: seq<string>, st: Parser)
    requires body != [] && !IsHeader(body[|body| - 1])
    requires FoldSkippingBlanks(body[..|body| - 1], st)
      == Parser(st.activeId, st.activeSeq + SequenceText(body[..|body| - 1]), st.records)
    ensures FoldSkippingBlanks(body, st) == Parser(st.activeId, st.activeSeq + SequenceText(body), st.records)
  {
    var init, last := body[..|body| - 1], body[|body| - 1];
    BodyStep(FoldSkippingBlanks(init, st), last);
    Associative(st.activeSeq, SequenceText(init), Strip(last));
  }

  lemma Associative(a: string, t: string, l: string)
    ensures (a + t) + l == a + (t + l)
  {
  }

  lemma BodyStep(st: Parser, line: string)
    requires !IsHeader(line)
    ensures StepSkippingBlanks(st, line) == Parser(st.activeId, st.activeSeq + Strip(line), st.records)
  {
    if Strip(line) == [] {
      assert st.activeSeq + Strip(line) == st.activeSeq;
    }
  }

  /** The last header's id maps to the text of the lines after it, whatever
      came before: the final record is stored and a repeated id keeps its last
      value. */
  lemma LastRecord(before: seq<string>, header: string, body: seq<string>)
    requires IsHeader(header)
    requires forall k :: 0 <= k < |body| ==> !IsHeader(body[k])
    ensures Some(Strip(header)[1..]) in FastaRecords(before + [header] + body)
    ensures FastaRecords(before + [header] + body)[Some(Strip(header)[1..])] == SequenceText(body)
  {
    FoldAppend(before + [header], body, Start);
    FoldAppend(before, [header], Start);
    assert [header][..0] == [];
    BodyLines(body, OpenRecord(FoldSkippingBlanks(before, Start), header));
    assert "" + SequenceText(body) == SequenceText(body);
  }

  /** A header stores the record before it: the id of one header maps to the
      text between it and the next header, until a later record with the same
      id replaces it. */
  lemma RecordClosedByNextHeader(before: seq<string>, header: string, body: seq<string>, next: string)
    requires IsHeader(header) && IsHeader(next)
    requires forall k :: 0 <= k < |body| ==> !IsHeader(body[k])
    ensures FoldSkippingBlanks(before + [header] + body + [next], Start).records
      == Flush(FoldSkippingBlanks(before, Start))[Some(Strip(header)[1..]) := SequenceText(body)]
  {
    FoldAppend(before + [header] + body, [next], Start);
    FoldAppend(before + [header], body, Start);
    FoldAppend(before, [header], Start);
    assert [header][..0] == [] && [next][..0] == [];
    BodyLines(body, OpenRecord(FoldSkippingBlanks(before, Start), header));
    assert "" + SequenceText(body) == SequenceText(body);
  }

  /** Without any header the whole text is stored under `None`. */
  lemma NoHeader(lines: seq<string>)
    requires forall k :: 0 <= k < |lines| ==> !IsHeader(lines[k])
    ensures FastaRecords(lines) == map[None := SequenceText(lines)]
  {
    BodyLines(lines, Start);
    assert "" + SequenceText(lines) == SequenceText(lines);
  }
}
