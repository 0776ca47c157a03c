# annotation-station, modelled in Dafny

annotation-station annotates genomic positions (chromosome, position) of a
TSV file with what the reads of a BAM file, a repeat table, blat/blastn
alignments and transvar say about them. This project models its
deterministic core and proves properties of that model:

- the CIGAR machinery of `bam_utils.py`: the regular-expression tokenizer of
  a CIGAR string (field 6 of a SAM record, section 1.4 of the SAM/BAM Format
  Specification), and the two-cursor walk behind the reference span, the base
  at a position, the match at a position and the mismatch count
  (modules `Cigar`, `Alignment`);
- `ReadCollection`, the index from query positions to the reads whose span
  strictly contains them, as a class whose `PutRead` updates its maps in place
  (module `ReadIndex`);
- the FASTA parser over a string (module `Fasta`);
- `RepeatCollection`, the repeat index bucketed by (normalized chromosome,
  position / bin size), as a class (module `Repeats`);
- the pieces blat and blastn share: the range test, the stable sort by
  bit score, the read identifiers `chrom:pos|i`, grouping by query and by
  position, the per-position pass fraction and the '.'-fill of missing
  positions (module `RnaEditing`); the blat and blastn parsers and per-read
  verdicts (modules `Blat`, `Blast`);
- the transcript choice among transvar output lines (module `Transvar`);
- the region simplifier, the default repeat table, the chunking loop and
  the repeat row rewrite of `annotation_station.py` (module
  `AnnotationStation`).

Python exceptions are values (`Outcomes.Result`, `Outcomes.Error`):
ValueError, IndexError, KeyError, NameError, ZeroDivisionError. Strings are
`seq<char>`; `str.split`, `strip`, `lower`, `int` and `str` are modelled in
`Strings`. Loops of the source are methods with loop invariants, proved
against functions that state what they compute; dictionaries the source
iterates are given with their key order as a sequence where the order
matters, and as a map or set where it does not.

Where the tool's own description and its code differ, the model follows the
code:

- the reference span adds every run length, I, S, H and P included, where
  the SAM reference length counts only M, X, =, N and D
  (`Alignment.SpanVersusReferenceLength` states when the two agree);
- in the alignment "3M1I3M" at 10 the base at reference position 13 is the
  read base after the insertion (`read_seq[4]`), not absent
  (`Alignment.InsertionBases`).

## Model

| member | source | states |
|---|---|---|
| Strings.Split | annotation-station/blast.py:25-28 | `s.split(sep)`: at least one piece, no piece holds the separator |
| Strings.JoinSplit | annotation-station/blast.py:25-28 | joining the pieces of a split with the separator gives back the string |
| Strings.SplitJoin | annotation-station/blat.py:27 | splitting the join of separator-free pieces gives back those pieces |
| Strings.SplitCount | annotation-station/blat.py:27 | there is one more piece than there are separators |
| Strings.SplitTrailingSeparator | annotation-station/blat.py:24 | a trailing separator adds one empty last piece |
| Strings.SplitAround | annotation-station/annotation_station.py:184 | splitting at a separator splits the two sides independently |
| Strings.Strip | annotation-station/bam_utils.py:207 | `strip()` keeps the part of the string between its leading and its trailing whitespace: every character removed is whitespace (the `str.isspace` set), the part kept neither starts nor ends with whitespace, and an all-whitespace line becomes empty |
| Strings.StripPlain | annotation-station/bam_utils.py:207 | a line without whitespace strips to itself |
| Strings.LowerIdempotent | annotation-station/transvar_wrapper.py:57 | lower-casing twice is lower-casing once |
| Strings.ParseNatToString | annotation-station/bam_utils.py:42 | `int(str(n)) == n` for natural numbers |
| Strings.ParseIntToString | annotation-station/blat.py:151 | `int(str(i)) == i` for every integer |
| Strings.ParseIntStrips | annotation-station/bam_utils.py:50 | `int()` reads the stripped text as an optional '+' or '-' followed by decimal digits, with single '_' allowed between digits |
| Strings.ParseIntExamples | annotation-station/bam_utils.py:50 | `int()` gives -1 for "-1", 5 for " +5\n" and 10 for "1_0", and raises ValueError for "1__0" and the empty text |
| Strings.IntToStringInjective | annotation-station/blat.py:190 | different integers print differently, so `(chrom, str(pos))` keys do not collide |
| Cigar.OpOf | annotation-station/bam_utils.py:8-10 | the operation an identifier text stands for renders back as that text |
| Cigar.SingleLetterOp | annotation-station/bam_utils.py:8-11 | each SAM operation is one non-digit letter the operation split cuts at, and reads back as itself |
| Cigar.SplitAtOps | annotation-station/bam_utils.py:38 | `re.split(IDENTIFIER_SPLIT_REGEX, cigar)`: one more piece than the string has operation letters, and no piece holds one |
| Cigar.SplitAtDigitRuns | annotation-station/bam_utils.py:39 | `re.split(COUNT_SPLIT_REGEX, cigar)`: at least one piece, and no piece holds a digit |
| Cigar.Tokens | annotation-station/bam_utils.py:38-41 | the zipped tokens pair the k-th count text with the k-th identifier text, up to the shorter list |
| Cigar.ParseCounts | annotation-station/bam_utils.py:50 | every count text converts with `int()`, a signed one included, in order; ValueError exactly when one does not |
| Cigar.Runs | annotation-station/bam_utils.py:131-134 | the runs the walks see: every count converted by `int()`, a negative one included, then zipped with the identifiers; ValueError exactly when a count does not convert |
| Cigar.SplitAtOpsPlainPrefix | annotation-station/bam_utils.py:11 | a prefix without operation letters only extends the first piece of the operation split |
| Cigar.SplitAtOpsRender | annotation-station/bam_utils.py:38 | for a well-formed CIGAR the operation split is the decimal counts followed by one empty piece |
| Cigar.SplitAtDigitRunsRender | annotation-station/bam_utils.py:39 | for a well-formed CIGAR the digit split is one empty piece followed by the operation letters |
| Cigar.TokenizeRender | annotation-station/bam_utils.py:38-41 | a well-formed CIGAR tokenizes into count and identifier lists of equal length, paired in order, giving back its runs |
| Cigar.RenderRuns | annotation-station/bam_utils.py:131-134 | rendering the runs of a well-formed CIGAR gives back the string |
| Alignment.TokenRuns | annotation-station/bam_utils.py:41-42 | one run per zipped token, its count converted by `int()` with its sign; none exactly when some count does not convert |
| Alignment.RunsAgreeWithSpanRuns | annotation-station/bam_utils.py:38-42 | where every count converts, the span loop sees the same runs as the walks |
| Alignment.SpanOfTokens | annotation-station/bam_utils.py:41-44 | the loop returns `(start, start + sum of all run lengths - 1)`, negative lengths included, or ValueError when a count does not convert |
| Alignment.CoveringReferenceCoords | annotation-station/bam_utils.py:36-44 | `get_covering_reference_coords`: the first position, and start plus the sum of every run length, negative ones included, minus one; ValueError when a count does not convert |
| Alignment.SpanVersusReferenceLength | annotation-station/bam_utils.py:41-42 | the span is the SAM reference length plus the lengths of the runs that are neither M/X/= nor N/D; with no negative count it is at least that length, and equal exactly when every run of positive length is M, X, =, N or D |
| Alignment.FirstCovering | annotation-station/bam_utils.py:134-138 | the first M/X/= run whose reference window holds the target; none before it does; none when no run does |
| Alignment.CoversAt | annotation-station/bam_utils.py:135-137 | with the reference cursor known, covering is the window test `[start+ref, start+ref+count)` of that run |
| Alignment.FirstCoveringIs | annotation-station/bam_utils.py:134-138 | a covering run with no covering run before it is the first one |
| Alignment.ScanWindow | annotation-station/bam_utils.py:136-137 | the inner loop finds the target exactly when it lies in the window, at offset `target - from` |
| Alignment.CharAt | annotation-station/bam_utils.py:138 | `read_seq[k]`: a negative index counts from the end, and IndexError exactly outside `-len <= k < len` |
| Alignment.BaseAtRun | annotation-station/bam_utils.py:137-138 | at the first covering run the base is `read_seq[read + target - start - ref]`, IndexError past the read |
| Alignment.BaseAt | annotation-station/bam_utils.py:134-148 | the base of the first covering run, at Python index `read + target - start - ref`, or None when no M/X/= window holds the target; stated by `BaseAtRun`, `WalkToBase` and `MatchFollowsBase` |
| Alignment.WalkToBase | annotation-station/bam_utils.py:134-148 | the walk over the runs returns what `BaseAt` specifies |
| Alignment.BaseByPosition | annotation-station/bam_utils.py:127-148 | `get_base_by_position`: ValueError when a count does not convert, else what `BaseAt` specifies for the runs, signed ones walked like any other |
| Alignment.MatchAtRun | annotation-station/bam_utils.py:111-115 | at the first covering run the answer is the case-insensitive equality of the read and reference characters at the cursors |
| Alignment.MatchAt | annotation-station/bam_utils.py:108-125 | the case-insensitive comparison of the read and reference characters at the first covering run, or None; stated by `MatchAtRun`, `WalkToMatch` and `MatchFollowsBase` |
| Alignment.WalkToMatch | annotation-station/bam_utils.py:108-125 | the walk over the runs returns what `MatchAt` specifies |
| Alignment.IsMatch | annotation-station/bam_utils.py:100-125 | `is_match`: ValueError when a count does not convert, else what `MatchAt` specifies for the runs, signed ones walked like any other |
| Alignment.MatchFollowsBase | annotation-station/bam_utils.py:100-148 | `is_match` is None exactly when `get_base_by_position` is None; where the base exists it is compared, ignoring case, with the reference at the reference cursor |
| Alignment.Slice | annotation-station/bam_utils.py:56-57 | `s[a:b]` with Python's bounds: a negative bound counts from the end, bounds are clamped to the string, and a slice whose end lands before its start is empty; its length and its characters |
| Alignment.SliceOfNaturals | annotation-station/bam_utils.py:56-57 | for bounds at least 0 the slice is `s[a..b]` cut at the end of the string |
| Alignment.SliceLength | annotation-station/bam_utils.py:56-57 | a slice `s[i:i+n]` with `n >= 0` holds at most `n` characters |
| Alignment.WindowMismatches | annotation-station/bam_utils.py:56-60 | a window never has more disagreements than either string has characters, and a window of `n >= 0` columns has at most `n` |
| Alignment.CountWindow | annotation-station/bam_utils.py:56-60 | the inner loop counts the case-insensitive disagreements of the zipped slices |
| Alignment.WalkMismatches | annotation-station/bam_utils.py:54-68 | the walk returns the specified total of all M/X/= windows |
| Alignment.CountMismatches | annotation-station/bam_utils.py:46-70 | `count_mismatches`: ValueError when a count does not convert, else that total, signed counts included |
| Alignment.MismatchBound | annotation-station/bam_utils.py:54-63 | with no negative count, the total lies between 0 and the sum of the M/X/= run lengths |
| Alignment.NoMismatchAgainstItself | annotation-station/bam_utils.py:54-63 | with M/X/= runs only, a read compared with itself has no mismatch |
| Alignment.SameWindow | annotation-station/bam_utils.py:58-60 | a window of a string against itself has no disagreement |
| Alignment.InsertionCigar | annotation-station/bam_utils.py:38-42 | "3M1I3M" tokenizes into runs 3M, 1I, 3M for both tokenizers |
| Alignment.InsertionCursors | annotation-station/bam_utils.py:134-146 | after 3M both cursors are 3; the insertion moves only the read cursor to 4 |
| Alignment.InsertionSpan | annotation-station/bam_utils.py:36-44 | "3M1I3M" at 10 spans 7 positions, to 16, where no base is found |
| Alignment.InsertionBases | annotation-station/bam_utils.py:134-138 | in that alignment the base at 12 is the third read base and the base at 13 the fifth |
| Alignment.DoubledLetterTexts | annotation-station/bam_utils.py:38-39 | "5MM" has count texts "5" and "" and the single token ("5", "MM") |
| Alignment.DoubledLetterCigar | annotation-station/bam_utils.py:36-50 | on "5MM" the walks raise ValueError while the span accepts one run of 5 |
| Alignment.SignedCountTexts | annotation-station/bam_utils.py:38-39 | the '-' of a signed count stays in its count text: "-1M" gives the token ("-1", "M"), and "5M-1M" the tokens ("5", "M-") and ("-1", "M") |
| Alignment.SignedCounts | annotation-station/bam_utils.py:50 | `int()` converts the count texts "5" and "-1" to 5 and -1 |
| Alignment.SignedCountSpan | annotation-station/bam_utils.py:36-44 | "-1M" is the single run -1M for both tokenizers, and its span at 10 is (10, 8) |
| Alignment.SignedCountAfterRun | annotation-station/bam_utils.py:36-44 | "5M-1M" is a run of 5 of the unknown identifier "M-" and the run -1M for both tokenizers, and its span at 10 ends at 13 |
| Alignment.NegativeReadIndex | annotation-station/bam_utils.py:134-146 | a negative M run moves both cursors back: in "-1M2M" at 10 the base at 9 is `read_seq[-1]`, the last base |
| Alignment.NegativeWindowMismatch | annotation-station/bam_utils.py:54-63 | "-1M" compares the slices `read_seq[0:-1]` and `reference_seq[0:-1]`, so it counts a mismatch although it aligns no column |
| ReadIndex.InsertionPoint | annotation-station/bam_utils.py:162 | the index before which every element is smaller and from which the next is not |
| ReadIndex.Insert | annotation-station/bam_utils.py:162 | inserting into a sorted sequence keeps it sorted and adds exactly the element |
| ReadIndex.SortPositions | annotation-station/bam_utils.py:161-162 | `sorted(ps)`: sorted and a permutation of the positions |
| ReadIndex.AppendedStep | annotation-station/bam_utils.py:170-172 | one more entry of the position list appends the read to its list only if the position lies strictly inside the span |
| ReadIndex.AppendedConsistent | annotation-station/bam_utils.py:170-172 | appending keeps every stored read on its position's chromosome with the position strictly inside its span |
| ReadIndex.AppendedSame | annotation-station/bam_utils.py:174-175 | position lists agreeing below the end of the span append alike, so the early `break` changes nothing |
| ReadIndex.SortedTail | annotation-station/bam_utils.py:174-175 | past an element above the bound, a sorted list holds no element at or below it |
| ReadIndex.Group | annotation-station/bam_utils.py:158-164 | the grouping loops: each chromosome's positions in input order, and an empty list for each registered position |
| ReadIndex.GroupStep | annotation-station/bam_utils.py:159-160 | one turn of the grouping loop keeps the grouping invariant |
| ReadIndex.SortedGroupsConsistent | annotation-station/bam_utils.py:161-164 | sorting each group keeps its positions, so the maps start consistent |
| ReadIndex.ReadCollection.constructor | annotation-station/bam_utils.py:151-164 | a chromosome is present iff it has positions, holding exactly a sorted permutation of them; every registered position starts with no reads |
| ReadIndex.ReadCollection.AppendToPositions | annotation-station/bam_utils.py:170-175 | the loop of `put_read` over the sorted positions, with its `break`, appends exactly as `Appended` says |
| ReadIndex.ReadCollection.PutRead | annotation-station/bam_utils.py:166-175 | ValueError first when a count does not convert (signed counts convert), then KeyError for an unknown chromosome, changing nothing; else the read is appended once per registration to every position with `start < p < end`, all other lists unchanged |
| ReadIndex.ReadCollection.GetReads | annotation-station/bam_utils.py:177-178 | the stored list of the position, or [] for an unknown one |
| ReadIndex.ReadCollection.GetReadsSound | annotation-station/bam_utils.py:166-178 | every read returned is on the position's chromosome and its span strictly contains the position |
| Fasta.ParseFastaStream | annotation-station/bam_utils.py:199-218 | the loop over the lines computes `ParseLines` of the split stream |
| Fasta.Step | annotation-station/bam_utils.py:206-214 | one line as written: skipped when empty, IndexError when whitespace only, a header opening a record, any other line extending the active sequence; stated by `StepFails` and `StepAgrees` |
| Fasta.Fold | annotation-station/bam_utils.py:205-214 | the loop over the lines, stopping at the first error; stated by `FoldFails`, `FoldFailureSticks` and `FoldAppend` |
| Fasta.ParseLines | annotation-station/bam_utils.py:199-218 | the dictionary of the lines with the last record stored; stated by `BlankLineFails`, `AgreesOnStreams` and the record lemmas |
| Fasta.FoldFailureSticks | annotation-station/bam_utils.py:205-214 | once a line fails the whole parse fails with the same error |
| Fasta.SpaceIsBlank | annotation-station/bam_utils.py:206-208 | a line holding one space is blank |
| Fasta.StepFails | annotation-station/bam_utils.py:206-208 | one line fails exactly when it is non-empty whitespace, with IndexError |
| Fasta.FoldFails | annotation-station/bam_utils.py:205-214 | the loop fails exactly when some line is whitespace-only, with IndexError |
| Fasta.BlankLineFails | annotation-station/bam_utils.py:199-218 | the parse as written fails, always with IndexError, exactly when some line is whitespace-only |
| Fasta.StepAgrees | annotation-station/bam_utils.py:206-214 | on a non-blank line the step as written agrees with the corrected one |
| Fasta.AgreesWithoutBlankLines | annotation-station/bam_utils.py:205-214 | without blank lines the loop as written succeeds with the corrected result |
| Fasta.AgreesOnStreams | annotation-station/bam_utils.py:199-218 | without blank lines the parse as written returns the corrected records |
| Fasta.FoldAppend | annotation-station/bam_utils.py:205-214 | the loop over a concatenation continues from where the first part left off |
| Fasta.BlankLineSkipped | annotation-station/bam_utils.py:206-208 | in the corrected parser a whitespace-only line changes nothing |
| Fasta.BodyLines | annotation-station/bam_utils.py:213-214 | lines without a header extend the active sequence by their stripped text |
| Fasta.LastRecord | annotation-station/bam_utils.py:215-216 | the last header's id maps to the text after it, whatever came before, a repeated id included |
| Fasta.RecordClosedByNextHeader | annotation-station/bam_utils.py:208-212 | a header stores the record before it: that id maps to the text up to the next header |
| Fasta.NoHeader | annotation-station/bam_utils.py:202-216 | with no header the whole text is stored under None |
| Repeats.NormalizeChrom | annotation-station/repeats.py:13-14 | exactly one leading "chr" is removed; other strings are unchanged |
| Repeats.NormalizeOnce | annotation-station/repeats.py:13-14 | normalizing is not idempotent: "chrchr1" becomes "chr1", then "1" |
| Repeats.NormalizeIgnoresPrefix | annotation-station/repeats.py:13-14 | a name and the name with "chr" in front normalize alike |
| Repeats.TruncDiv | annotation-station/repeats.py:21 | `int(a / b)`, the quotient truncated toward zero; stated by `TruncDivSymmetric` and `TruncDivOfNatural` |
| Repeats.TruncDivSymmetric | annotation-station/repeats.py:21 | `int(a / b)` truncates toward zero: symmetric, and -7 by 2 gives -3 where the floor gives -4 |
| Repeats.TruncDivOfNatural | annotation-station/repeats.py:21 | on positions at least 0 and a positive bin size it is the floor quotient |
| Repeats.PositionIndex | annotation-station/repeats.py:16-23 | `(normalized chrom, int(pos) / bin_size)` truncated, ValueError for a non-integer position, ZeroDivisionError for bin size 0 |
| Repeats.Bucket | annotation-station/repeats.py:39-41 | a bucket holds only put repeats filed under its key |
| Repeats.BucketMembership | annotation-station/repeats.py:39-41 | a put repeat is in a bucket exactly when its start bin or its stop bin is the bucket's key |
| Repeats.FirstCovering | annotation-station/repeats.py:50-56 | the first repeat of the bucket, in order, covering the position inclusively on the same normalized chromosome, or none when none does |
| Repeats.Lookup | annotation-station/repeats.py:43-56 | what `get_repeat` returns after the given repeats were put: the position's error, else the first covering repeat of its bucket; stated by `LookupSound`, `LookupComplete` and `LookupMissesSpanningRepeat` |
| Repeats.PutKeepsBuckets | annotation-station/repeats.py:39-41 | the buckets after a put are the buckets of the longer history |
| Repeats.RepeatCollection.constructor | annotation-station/repeats.py:26-28 | an empty collection with the given bin size |
| Repeats.RepeatCollection.PutRepeat | annotation-station/repeats.py:30-41 | the error of the first bin that cannot be computed, changing nothing; else the repeat appended to its start bucket and, when different, to its stop bucket, nothing else changed |
| Repeats.ScanBucket | annotation-station/repeats.py:50-56 | the scan with its early return finds the first covering repeat |
| Repeats.RepeatCollection.GetRepeat | annotation-station/repeats.py:43-56 | the lookup over the put repeats; the only change is the empty bucket the defaultdict adds, which no lookup sees |
| Repeats.LookupSound | annotation-station/repeats.py:43-56 | a repeat found covers the position, was put, and is filed under the position's bin |
| Repeats.LookupComplete | annotation-station/repeats.py:45-54 | a covering repeat whose start or stop bin is the position's bin makes the lookup find a repeat |
| Repeats.LookupMissesSpanningRepeat | annotation-station/repeats.py:39-48 | a repeat filed under neither bin of the position is never returned, even when it covers it |
| Repeats.SpanningRepeatExample | annotation-station/repeats.py:34-56 | with bins of 10 a repeat from 5 to 25 covers 15, yet the lookup at 15 finds nothing |
| Repeats.FirstCoveringNormalized | annotation-station/repeats.py:52 | the scan compares chromosomes only through their normalized names |
| Repeats.LookupIgnoresChr | annotation-station/repeats.py:43-56 | `get_repeat("chr1", p)` and `get_repeat("1", p)` give the same answer |
| Repeats.RepeatByPosition | annotation-station/repeats.py:85-94 | name, class and family of the repeat found, None when none is, the lookup's error otherwise |
| RnaEditing.ChrSub | annotation-station/blat.py:52-53 | `re.sub(r'^chr(.*)$', ...)` removes "chr" exactly when the rest is one line |
| RnaEditing.ChrSubIsNormalize | annotation-station/blat.py:52-53 | on names without a line break it is the repeat index's normalization |
| RnaEditing.IsInRange | annotation-station/blat.py:51-58 | `is_in_range`: the same chromosome up to a leading "chr", and a subject window holding the position, both ends included; stated by `InRangeProperties`; likewise blast.py:52-59 |
| RnaEditing.InRangeProperties | annotation-station/blat.py:51-58 | the range test ignores a "chr" prefix and is false for a reversed window; likewise blast.py:52-59 |
| RnaEditing.InsertHit | annotation-station/blast.py:66 | a hit put into a list in descending score order keeps the order and adds exactly the hit |
| RnaEditing.SortByScore | annotation-station/blast.py:66 | the hits in descending bit-score order, a permutation of the input; likewise blat.py:64 |
| RnaEditing.SortIsStable | annotation-station/blast.py:66 | the hits of any one score keep their input order |
| RnaEditing.InsertHitStable | annotation-station/blast.py:66 | insertion keeps the hit before every later hit of its score |
| RnaEditing.Best | annotation-station/blat.py:71 | the first hit of highest score, by an independent scan |
| RnaEditing.TopIsUnique | annotation-station/blat.py:71 | only one hit can be the first of highest score |
| RnaEditing.SortedTopIsBest | annotation-station/blat.py:64-71 | the first hit after the stable sort is the first hit of highest score |
| RnaEditing.TopHit | annotation-station/blat.py:64-71 | the top hit has the highest score and no earlier hit has it |
| RnaEditing.LastIndexOf | annotation-station/blat.py:150-152 | the last index of a character, what the greedy `.*` of the identifier patterns stops at |
| RnaEditing.ParseReadId | annotation-station/blat.py:150-152 | chromosome, `int` of the position text and read of an identifier; ValueError exactly when the position text is no integer |
| RnaEditing.EmptyIdHasNoPosition | annotation-station/blat.py:151 | the empty identifier raises ValueError |
| RnaEditing.SplitsAtSeparators | annotation-station/blat.py:150-152 | `chrom:p|n` with p and n free of ':' and '|' splits back into chrom, p and n; the source's patterns agree with this only for identifiers without a line break |
| RnaEditing.ReadIdRoundTrip | annotation-station/bam_utils.py:278 | an identifier `f'{chrom}:{pos}|{i}'` reads back as chrom, pos and `str(i)`, in the source for a chromosome name without a line break |
| RnaEditing.QueryOrder | annotation-station/blast.py:130-133 | the queries without repetition, each one that some line names |
| RnaEditing.QueryHitsEmpty | annotation-station/blast.py:130-133 | a query no line names has no hits |
| RnaEditing.EmptyRecordIgnored | annotation-station/blast.py:132 | a line without `qseqid` changes neither the queries nor their hits |
| RnaEditing.GroupByQuery | annotation-station/blast.py:130-135 | the lines with `qseqid` grouped under it, in output order, keys in order of first appearance; likewise blat.py:118-123 |
| RnaEditing.RegroupStep | annotation-station/blat.py:149-158 | one more identifier either stops the regrouping with its error or adds its entry |
| RnaEditing.RegroupSnoc | annotation-station/blat.py:154-158 | the loop step for an identifier that parses |
| RnaEditing.RegroupStops | annotation-station/blat.py:151 | the loop exit at an identifier that does not parse |
| RnaEditing.ByPosition | annotation-station/blat.py:148-158 | the regrouping loop computes `ByPositionSpec`; likewise blast.py:161-171 |
| RnaEditing.RegroupFailureSticks | annotation-station/blat.py:149-151 | once an identifier fails, the regrouping fails with that error |
| RnaEditing.RegroupBadIdFails | annotation-station/blat.py:151 | one identifier that does not parse makes the regrouping fail |
| RnaEditing.RegroupAllParse | annotation-station/blat.py:149-158 | when every identifier parses the regrouping succeeds |
| RnaEditing.RegroupFails | annotation-station/blat.py:149-158 | the regrouping fails exactly when some identifier does not parse |
| RnaEditing.RegroupError | annotation-station/blat.py:151 | a parser that only raises one error makes the regrouping raise only it |
| RnaEditing.ByPositionFails | annotation-station/blat.py:149-158 | the regrouping fails, with ValueError, exactly when some identifier has no integer position |
| RnaEditing.RegroupFinds | annotation-station/blat.py:156-158 | each identifier's hits sit under its position and read unless a later one names the same pair |
| RnaEditing.RegroupLast | annotation-station/blat.py:149-158 | a successful regrouping adds the last identifier's entry to the regrouping of the others |
| RnaEditing.ByPositionFinds | annotation-station/blat.py:156-158 | the same for the identifier patterns of the source |
| RnaEditing.PassFraction | annotation-station/blat.py:135 | `count / max(1, n)` lies in [0, 1] when the count is at most n, is 1 when all pass, and is the count when there are no reads |
| RnaEditing.Accepted | annotation-station/blat.py:130-133 | the positive reads are among the position's reads |
| RnaEditing.CountPositive | annotation-station/blat.py:129-133 | the loop counts the reads judged positive, or returns an error a read's verdict raises, exactly when one raises |
| RnaEditing.PassFractions | annotation-station/blat.py:125-137 | every position gets its pass fraction, or the error of some read's verdict exactly when a verdict raises; likewise blast.py:137-150 |
| RnaEditing.PassFractionsBounded | annotation-station/blat.py:135 | each fraction lies in [0, 1] |
| RnaEditing.RequestedStep | annotation-station/blat.py:184-186 | one more requested position adds its parsed key |
| RnaEditing.FillMissing | annotation-station/blat.py:184-186 | positions with a fraction keep it, every other requested position gets '.', ValueError exactly when a position text is no integer; likewise blast.py:196-199 |
| RnaEditing.Column | annotation-station/blat.py:188-190 | each filled position becomes the one-value list under `(chrom, str(pos))`, and nothing else is keyed; likewise blast.py:201-203 |
| Blat.ColumnsReach | annotation-station/blat.py:8-19 | the columns read lie below 12, the bit score at 11 |
| Blat.LineRecord | annotation-station/blat.py:26-29 | a line's dictionary holds the ten named columns, IndexError exactly when it has fewer than 12 fields |
| Blat.ParseLines | annotation-station/blat.py:25-31 | one record per line, IndexError exactly when some line has fewer than 12 fields |
| Blat.ParseBlatOutput | annotation-station/blat.py:21-33 | the same over the output split at line breaks |
| Blat.TrailingLineBreakFails | annotation-station/blat.py:24-29 | output ending in a line break, and empty output, hold a line with too few fields |
| Blat.ParseLinesSkippingShort | annotation-station/blat.py:25-31 | the corrected loop: a short line gives an empty dictionary, every other line its record |
| Blat.ParseBlatOutputSkippingShort | annotation-station/blat.py:21-33 | the same over the output |
| Blat.RecordOfRenderedLine | annotation-station/blat.py:27-29 | a line of twelve tab-free fields parses back to those fields in the named columns |
| Blat.IsPositiveAsWritten | annotation-station/blat.py:60-85 | `is_positive_rna_count` as written, where the second hit is read from an undefined name; stated by `AsWrittenVerdicts` and `AsWrittenNeverTrueOnTwo` |
| Blat.AsWrittenVerdicts | annotation-station/blat.py:60-85 | no hits or a top hit out of range give False, one hit in range True, two or more with the top in range NameError |
| Blat.AsWrittenNeverTrueOnTwo | annotation-station/blat.py:77-83 | as written the answer True needs exactly one hit |
| Blat.RunnerUp | annotation-station/blat.py:81-82 | in a list sorted by score the second hit bounds all later ones |
| Blat.SortedVerdict | annotation-station/blat.py:66-85 | the decisions on the sorted hits: top hit in range, then the second hit against the threshold times the top score; stated by `SortedVerdictMeans` |
| Blat.IsPositive | annotation-station/blat.py:60-85 | the verdict with the sorted list the code evidently means; stated by `PositiveMeans` and `CorrectedAgrees` |
| Blat.SortedVerdictMeans | annotation-station/blat.py:64-85 | on sorted hits the corrected verdict is: the top hit is in range and every later hit scores at most the threshold times the top score |
| Blat.PositiveMeans | annotation-station/blat.py:60-85 | the corrected verdict holds exactly when the first best hit is in range and no later hit scores above the threshold times its score |
| Blat.CorrectedAgrees | annotation-station/blat.py:60-85 | the corrected verdict agrees with the one as written wherever that one does not raise |
| Blat.RnaEditingFractionsAsWritten | annotation-station/blat.py:125-137 | the fractions with the verdict as written: NameError exactly when some read has two hits with the top one in range |
| Blat.RnaEditingFractions | annotation-station/blat.py:125-137 | with the corrected verdict every position gets its fraction, in [0, 1] |
| Blast.RequiredOutFields | annotation-station/blast.py:14-20 | the fields of the requested annotations, each once; KeyError exactly when an annotation is unknown |
| Blast.NeededStep | annotation-station/blast.py:17-18 | one more annotation adds exactly its fields |
| Blast.RnaEditingFields | annotation-station/blast.py:8-12 | RNA editing, alone or with `avg_top_hits`, needs exactly its ten fields |
| Blast.ZipRecord | annotation-station/blast.py:29-30 | the dictionary holds the fields that have a piece, each with the piece of its last occurrence |
| Blast.DistinctZip | annotation-station/blast.py:29-30 | with distinct fields every field that has a piece holds it |
| Blast.ParseBlastOutput | annotation-station/blast.py:22-34 | one dictionary per line, empty lines included, each the zip of the fields with the line's pieces |
| Blast.EmptyLineRecord | annotation-station/blast.py:27-30 | an empty line gives the first field with the empty value |
| Blast.EmptyQueryBreaksRegrouping | annotation-station/blast.py:161-164 | a last empty line read as query "" makes the regrouping raise ValueError |
| Blast.ParseBlastOutputSkippingEmpty | annotation-station/blast.py:22-34 | the corrected parse: an empty line gives no fields, every other line its zip |
| Blast.Covering | annotation-station/blast.py:69-70 | the hits kept are exactly those with coverage at least the threshold |
| Blast.Verdicts | annotation-station/blast.py:61-90 | ZeroDivisionError exactly when a hit has `qlen` 0; else False without covering hits or with a first best covering hit out of range or below the identity threshold; True for a single good one; with a good top and other covering hits, True exactly when the best of those others (the top taken out once) is not above the identity threshold |
| Blast.IsPositive | annotation-station/blast.py:61-90 | `is_positive_rna_count`: ZeroDivisionError when a hit has `qlen` 0, else the decisions on the sorted, filtered hits; stated by `Verdicts` |
| Blast.CoveredVerdict | annotation-station/blast.py:72-90 | the decisions on the sorted, filtered hits: the top one in range and identical enough, and a second one, when there is one, not above the identity threshold; stated by `Verdicts` |
| Blast.SecondCoveringIsRunnerUp | annotation-station/blast.py:66-86 | the second hit after sorting and filtering is the first best covering hit once the top one is taken out |
| Blast.SortedCovering | annotation-station/blast.py:66-77 | sorting then filtering gives the covering hits, with multiplicity, in descending score order, the first best one first |
| Blast.RunnerUp | annotation-station/blast.py:66-86 | a descending list with the input's elements that keeps the input order among the hits of its second score has as second element the first best hit of the input without the top |
| Blast.RemoveFirst | annotation-station/blast.py:86 | taking out the first occurrence of a hit shortens the list by one, and changes nothing when the hit is absent |
| Blast.RemoveFirstAt | annotation-station/blast.py:86 | taking out the first occurrence of the element at `i` removes exactly that position |
| Blast.CoveringSameMultiset | annotation-station/blast.py:66-70 | sorting before filtering keeps the kept hits with multiplicity |
| Blast.SortedCoveringWithScore | annotation-station/blast.py:66-70 | after sorting and filtering, the hits of any one score keep their input order |
| Blast.SameMembers | annotation-station/blast.py:66 | sorting keeps the hits |
| Blast.CoveringSameMembers | annotation-station/blast.py:66-73 | whether any hit covers enough does not depend on the order |
| Blast.CoveringLength | annotation-station/blast.py:66-70 | sorting before filtering keeps the number of kept hits |
| Blast.CoveringMultiset | annotation-station/blast.py:69-70 | the kept hits are, with multiplicity, the covering ones |
| Blast.CoveringDescending | annotation-station/blast.py:66-70 | filtering a sorted list keeps it sorted |
| Blast.CoveringWithScore | annotation-station/blast.py:69-70 | the coverage filter commutes with selecting one score |
| Blast.CoveringAppend | annotation-station/blast.py:69-70 | the filter works line by line over a concatenation |
| Blast.CoveringTopIsBest | annotation-station/blast.py:66-77 | the first hit after sorting and filtering is the first best covering hit |
| Blast.RnaEditingFractions | annotation-station/blast.py:137-150 | every position's fraction, in [0, 1], ZeroDivisionError exactly when some hit has `qlen` 0 |
| Transvar.Rows | annotation-station/transvar_wrapper.py:41 | the stripped, tab-split fields of every line, in order |
| Transvar.EntryOf | annotation-station/transvar_wrapper.py:44-48 | fields 1 up to its first space (the whole field when it has none), 2, 3, 5 and 6; field 4 is not used |
| Transvar.GeneFrom | annotation-station/transvar_wrapper.py:9-18 | the gene of the first valid line whose gene has a primary transcript, or '' |
| Transvar.WithoutInput | annotation-station/transvar_wrapper.py:31-32 | exactly the lines that do not contain 'input', the first one first |
| Transvar.WithoutInputAppend | annotation-station/transvar_wrapper.py:31-32 | the filter works line by line over a concatenation, so it keeps the kept lines in order |
| Transvar.WithoutInputLine | annotation-station/transvar_wrapper.py:31-32 | one line is kept exactly when it does not contain 'input' |
| Transvar.ScanLines | annotation-station/transvar_wrapper.py:40-69 | the loop with its three accumulators and early return computes the fallback order `Select` |
| Transvar.Select | annotation-station/transvar_wrapper.py:50-69 | the fallback order: first Ensembl line of the primary transcript, else the last other primary line, else the first Ensembl line, else line 0 when valid, else dots; stated by `ScanLines` and the fallback lemmas |
| Transvar.PrimaryFor | annotation-station/transvar_wrapper.py:34-35 | `GENE_TO_PRIMARY_TRANSCRIPT.get(main_gene, '')` for the gene `GeneFrom` picks |
| Transvar.ParseForEnsemblTranscript | annotation-station/transvar_wrapper.py:20-69 | the primary transcript of the main gene from the map, the `ensembl_transcript` argument ignored, then that fallback order on the lines without 'input' |
| Transvar.SelectFromLines | annotation-station/transvar_wrapper.py:50-69 | the result is dots or the annotation of a valid line |
| Transvar.NoValidLine | annotation-station/transvar_wrapper.py:43-69 | without a valid line the result is dots |
| Transvar.EnsemblPrimaryFirst | annotation-station/transvar_wrapper.py:57-59 | the first Ensembl line of the primary transcript wins over every other line |
| Transvar.LastPrimaryWins | annotation-station/transvar_wrapper.py:60-64 | without one, the last other line of the primary transcript wins |
| Transvar.FirstLineLastResort | annotation-station/transvar_wrapper.py:51-69 | with no Ensembl and no primary line, line 0 when it is valid, else dots |
| Transvar.VersionIgnored | annotation-station/transvar_wrapper.py:57 | a version suffix does not change the part before the first '.' |
| Transvar.IsPrimary | annotation-station/transvar_wrapper.py:57 | the transcript names agree, lower-cased, before their first '.'; stated by `VersionIgnored` and `PrimaryIgnoresCaseAndVersion` |
| Transvar.PrimaryIgnoresCaseAndVersion | annotation-station/transvar_wrapper.py:57 | transcript names match regardless of case and version suffix |
| AnnotationStation.SimplifiedRegion | annotation-station/annotation_station.py:109-126 | the result is one of the seven values |
| AnnotationStation.FirstTag | annotation-station/annotation_station.py:114-125 | the first tag, in the order tested, the region contains |
| AnnotationStation.RegionByFirstTag | annotation-station/annotation_station.py:109-126 | the value of the first tag the region contains, '.' when it contains none |
| AnnotationStation.RegionValuesDistinct | annotation-station/annotation_station.py:112 | the seven values are distinct |
| AnnotationStation.RegionPriority | annotation-station/annotation_station.py:114-125 | the result is a tag's value exactly when the region contains that tag and none tested before it |
| AnnotationStation.NoRegionTag | annotation-station/annotation_station.py:126 | '.' exactly when the region contains none of the tags |
| AnnotationStation.DefaultRepeatTable | annotation-station/annotation_station.py:82-88 | hg38 and grch38 give the GRCh38 table, hg19, hg37 and grch37 the GRCh37 table, ignoring case; anything else raises ValueError |
| AnnotationStation.RepeatTableIgnoresCase | annotation-station/annotation_station.py:84-86 | the version is compared without regard to case |
| AnnotationStation.Chunks | annotation-station/annotation_station.py:213-215 | every chunk is non-empty and at most the chunk size, every one but the last full |
| AnnotationStation.ChunksFlatten | annotation-station/annotation_station.py:213-216 | the chunks concatenate to the input |
| AnnotationStation.ChunksCount | annotation-station/annotation_station.py:207-213 | there are ceil(n / 1000) chunks, none for no positions |
| AnnotationStation.ChunksAppend | annotation-station/annotation_station.py:213-216 | after full chunks, at most one chunk's worth adds one chunk |
| AnnotationStation.ChunkPositions | annotation-station/annotation_station.py:206-216 | the loop cuts the positions into their chunks and the bases at the same bounds |
| AnnotationStation.RepeatFields | annotation-station/annotation_station.py:177-182 | three fields: the name, class and family of the repeat found, in that order, or '.', '.', '.' without one |
| AnnotationStation.DropLast | annotation-station/annotation_station.py:184 | `line[:-1]` drops the last character whatever it is |
| AnnotationStation.Chomp | annotation-station/annotation_station.py:184 | the line without the line break that ends it, unchanged when there is none |
| AnnotationStation.RepeatRowAsWritten | annotation-station/annotation_station.py:184 | the row as written starts with `line[:-1]` and a tab, and ends with a tab and the repeat family |
| AnnotationStation.RepeatRow | annotation-station/annotation_station.py:184 | the intended row starts with the line without its line break and a tab, and ends with a tab and the repeat family |
| AnnotationStation.AsWrittenOnTerminatedLine | annotation-station/annotation_station.py:184 | on a line ending in a line break the row as written is the intended row |
| AnnotationStation.UnterminatedLineLosesLastCharacter | annotation-station/annotation_station.py:184 | on a last line without a line break the row as written loses a real character |
| AnnotationStation.RepeatRowFields | annotation-station/annotation_station.py:177-184 | the row splits at tabs into the fields of the line followed by the three repeat fields |

## Left out

- Running samtools, blat, blastn and transvar, the file reading and writing
  around them, and every function that only does that (`index_reference`,
  `index_bam`, `filter_bam_by_positions`, `get_chrom_start_cigar_seq_read_tups`,
  `write_position_fasta`, `execute_blat`, `execute_blastn`,
  `prepare_input_files`, `get_transcript_gene_strand_region_info_tup`,
  `check_transvar_setup`, the `annotate_*` functions): external programs and
  file I/O. Their outputs are the parameters of the modelled functions.
- The depth cap of `write_position_fasta` (annotation-station/bam_utils.py:288):
  it is woven into the file writes; only the identifier it writes is modelled.
- `get_reads_to_sequences_from_fasta` (the file variant) and
  `get_repeat_collection`: they read files; the stream parser and
  `RepeatCollection.PutRepeat` model their logic.
- The module-level tables `RP` and `GENE_TO_PRIMARY_TRANSCRIPT`: they are
  loaded from files at import; the collection and the map are parameters.
- `is_valid_rna_editing_site`: it reads the undefined
  `VALID_RNA_EDITING_CHANGES`, so it has no behaviour to model beyond the walk.
- The `float` conversions of `bitscore` and `pident`, and the `int`
  conversions of `qlen`, `qstart` and `qend` (annotation-station/blast.py:70)
  and of `sstart` and `send`: hits arrive already converted
  (`RnaEditing.Hit`), with scores as exact reals, so the ValueError of a
  column that does not convert (such as "12.0" for `qlen`) is not modelled.
- Floating point: Python's `int(int(pos) / bin_size)` divides in floating
  point, which loses precision for huge values; the model truncates the exact
  quotient. `count / max(1, n)` and the coverage and identity ratios are exact
  reals.
- Unicode: `lower` is modelled on the ASCII letters only. `strip` and the
  whitespace `int()` skips are the characters of `str.isspace`; `int()` reads
  an optional '+' or '-', ASCII digits and single '_' separators, without the
  non-ASCII decimal digits Python also accepts.
- ReadIndex.ReadCollection.constructor: positions arrive as (chromosome, int)
  pairs; the `int(p)` of annotation-station/bam_utils.py:155, and the
  ValueError it raises for a position that does not convert, are not modelled.
- ReadIndex.ReadCollection.PutRead: `start` arrives as an int; the
  `int(start)` of annotation-station/bam_utils.py:167, and its ValueError, are
  not modelled.
- RnaEditing.ChromText, RnaEditing.PosText, RnaEditing.ReadText: the
  identifier patterns are modelled as if `.` matched a line break, which it
  does not in Python; model and source agree on identifiers without a line
  break, as FASTA header lines are.
- The order of `list(set)` in `get_required_out_fields`: the result is
  modelled as a set.
- The `ensembl_transcript` and `use_primary` arguments of
  `parse_for_ensembl_transcript`: the code overwrites or ignores them.
- The keyword arguments of `put_read`: they are stored with each read but
  never read; the model stores chromosome, start, CIGAR and sequence.
- The key order of Python dictionaries where only the order of iteration
  changes: the grouping keys are a sequence in first-appearance order, other
  dictionaries are maps.
- AnnotationStation.ChunksCount: stated for the chunk size 1000 the source
  uses, not for an arbitrary chunk size.
- The command line, logging and `main` of annotation_station.py, and its
  calls to `RepeatAnnotator`, `TransvarAnnotator` and `reference_bases`,
  which the modules the core consists of do not define.
- tests/test.py: end-to-end runs of the external tools on data files.

## Findings

| source | as written | input that shows it | evidently intended | confidence | as-written member | corrected member |
|---|---|---|---|---|---|---|
| annotation-station/bam_utils.py:206-208 | empty lines are skipped before stripping, so a whitespace-only line reaches `line[0]` empty | a stream with a line " " raises IndexError | whitespace-only lines are skipped like empty ones | not executed | Fasta.BlankLineFails | Fasta.BlankLineSkipped |
| annotation-station/blat.py:81 | the second hit is read from the undefined `blast_result_dicts` | two hits with the top one in range raise NameError | the second sorted hit `blat_result_dicts[1]` is compared with the threshold | not executed | Blat.AsWrittenVerdicts | Blat.PositiveMeans |
| annotation-station/blat.py:24-29 | every line of the output must have 12 fields | output ending in a line break, or empty output, raises IndexError | short lines give no record | not executed | Blat.TrailingLineBreakFails | Blat.ParseBlatOutputSkippingShort |
| annotation-station/blast.py:27-30 | an empty line is zipped like any other | a trailing line break with `qseqid` first gives query "", whose regrouping raises ValueError | empty lines give no fields | not executed | Blast.EmptyQueryBreaksRegrouping | Blast.ParseBlastOutputSkippingEmpty |
| annotation-station/annotation_station.py:184 | `line[:-1]` drops the last character | a last line without a line break loses its last character | only the line break is dropped | not executed | AnnotationStation.UnterminatedLineLosesLastCharacter | AnnotationStation.RepeatRowFields |
