# bioinf_tools_LM in Dafny

A verified model of the core of the `bioinf_tools_LM` toolkit: the sequence
tools of `modules/run_dna_rna_tools.py`, the FASTQ filter of `modules/fastq.py`,
and the line-processing parts of `bio_files_processor.py`. That last file has
two line processors: the multi-line-to-one-line FASTA reformatter, with its
default output path, and the BLAST text-report hit extractor.

The project has five modules:

- `Results` (`results.dfy`): the `Option` and `Result` wrappers.
- `PyStr` (`pystr.dfy`): the Python string built-ins the core relies on.
  - `str.strip()`, with Python's full whitespace set.
  - `split()[0]`, `startswith`, `endswith` and substring `in`.
  - `str.replace` and ASCII `upper()`.
  - Code-point string ordering, and `sorted(set(xs))`.
- `Fastq` (`fastq.dfy`): `normalize_bounds`, `gc_percent`,
  `average_quality_phred33` and `filter_fastq`.
  - The two loops are methods, proved against the specification functions
    `GcContent` and `MeanQuality`.
  - The filter is a method, proved against `FilterSpec`.
  - The reads dictionary is an insertion-ordered sequence of `Entry(id, read)`
    whose ids are distinct.
- `DnaRnaTools` (`run_dna_rna_tools.dfy`): every function of the tools module.
  - All of them are pure functions.
  - The dispatcher returns `Result<Output, ToolError>` in place of raising
    `ValueError`.
- `BioFilesProcessor` (`bio_files_processor.dfy`): the two line processors.
  - Each takes the input file's lines and returns the output file's lines.
  - Each is a method with the source's loop and its variables: the current
    header and pending sequence lines, or the `inside_hits` flag and the
    `hits` list.
  - Each is proved equal to a reference definition:
    - for FASTA, a partition of the non-blank stripped lines into records
      (`Group`), followed by `Merge`;
    - for BLAST, the per-line flag `InHits` and the hit list `HitsBefore`.

The reference definitions are characterised by lemmas:

- the shape of the FASTA output;
- that blank lines are irrelevant;
- that records are delimited by headers;
- that headerless input gives empty output;
- the BLAST section characterisation;
- exact membership and strict order of the BLAST report.

## Model

| member | source | states |
|---|---|---|
| `Fastq.NormalizeBounds` | modules/fastq.py:2-17 | The result is ordered (low <= high) and is a rearrangement of (default_low, bounds) for a scalar, or of the pair otherwise. An already ordered input is returned unchanged. |
| `Fastq.GcPercent` | modules/fastq.py:19-31 | The loop computes `GcContent`: 0 for the empty string, otherwise 100 * (number of G/C after upper-casing) / length. |
| `Fastq.CountGCUpper` | modules/fastq.py:26-30 | Counting G/C after `upper()` equals counting G, C, g and c in the original. |
| `Fastq.GcContentRange` | modules/fastq.py:19-31 | The GC percentage always lies in [0, 100]. |
| `Fastq.GcContentCaseInsensitive` | modules/fastq.py:24-31 | The GC percentage is the case-insensitive G/C count over the length (0 for the empty string). |
| `Fastq.GcContentAllGC` | modules/fastq.py:19-31 | A non-empty read made only of G/C letters, in any case, has 100 percent. |
| `Fastq.GcContentNoGC` | modules/fastq.py:19-31 | A read without G/C letters has 0 percent. |
| `Fastq.PercentRange` | modules/fastq.py:31 | `100 * part / whole` lies in [0, 100] when part <= whole. It is 100 at part == whole and 0 at part == 0. |
| `Fastq.AverageQualityPhred33` | modules/fastq.py:34-45 | The loop computes `MeanQuality`: 0 for the empty string, otherwise the mean of ord(ch) - 33. |
| `Fastq.QualitySumBounds` | modules/fastq.py:42-44 | If every score lies in [lo, hi], the running total lies in [lo * n, hi * n]. |
| `Fastq.MeanQualityBounds` | modules/fastq.py:34-45 | If every score lies in [lo, hi], the mean of a non-empty quality string lies in [lo, hi]. |
| `Fastq.MeanQualityConstant` | modules/fastq.py:34-45 | A quality string of one repeated character has that character's Phred+33 score as its mean. |
| `Fastq.Put` | modules/fastq.py:98 | Dict assignment. A new id is appended at the end. An existing id has its first entry replaced in place, with every other entry kept where it was. The stored entry is present afterwards, and nothing else is added. |
| `Fastq.FilterFastq` | modules/fastq.py:48-100 | The loop computes `FilterSpec`, the input entries in input order that pass the length, GC and quality tests against the normalised bounds. An entry is in the result iff it is in the input and passes. |
| `Fastq.SelectMembership` | modules/fastq.py:74-98 | An entry survives the selection iff it is an input entry that passes all three tests. |
| `Fastq.SelectPreservesOrder` | modules/fastq.py:74-98 | The result is a subsequence of the input: the dict keeps insertion order. |
| `Fastq.SelectIdempotent` | modules/fastq.py:74-98 | Selecting again with the same bounds changes nothing. |
| `Fastq.FilterIdempotent` | modules/fastq.py:48-100 | Filtering a filtered dict again with the same arguments returns it unchanged. |
| `Fastq.FilterKeepsIdsDistinct` | modules/fastq.py:71-98 | The result is again a dict: its read ids are distinct. |
| `Fastq.DefaultsKeepWellFormedReads` | modules/fastq.py:48-53 | Under the default arguments, every read is kept if no quality character is below '!' and no read is longer than 2**32. |
| `Fastq.FilterExample` | modules/fastq.py:82-85 | With length bounds (3, 10), the 2-base read is dropped and the 4-base read is kept. |
| `DnaRnaTools.AllAllowed` | modules/run_dna_rna_tools.py:1-14 | True iff every character is one of A, T, U, G, C in either case. |
| `DnaRnaTools.IsNucleicAcid` | modules/run_dna_rna_tools.py:4-21 | True iff the string is non-empty, uses only allowed letters, and does not contain both T/t and U/u. |
| `DnaRnaTools.Transcribe` | modules/run_dna_rna_tools.py:24-28 | Same length. Each T becomes U and each t becomes u, all else is unchanged, and the result has no T/t. |
| `DnaRnaTools.ReplaceCharIsReplaceAll` | modules/run_dna_rna_tools.py:24-28 | The one-character replacement used by `transcribe` is `str.replace` with one-character pattern and replacement. |
| `DnaRnaTools.TranscribeKeepsNucleicAcid` | modules/run_dna_rna_tools.py:24-28 | Transcribing a nucleic acid gives a nucleic acid. |
| `DnaRnaTools.Reverse` | modules/run_dna_rna_tools.py:31-33 | Same length, and position i holds the input's character at position n-1-i. |
| `DnaRnaTools.ReverseInvolutive` | modules/run_dna_rna_tools.py:31-33 | Reversing twice gives the input back. |
| `DnaRnaTools.ReverseKeepsLetters` | modules/run_dna_rna_tools.py:36-40 | Reversal changes neither the presence of T/t nor of U/u, so it keeps the pairing choice. |
| `DnaRnaTools.TablesAreInvolutions` | modules/run_dna_rna_tools.py:51-64 | Looking up either pairing table twice (with the identity for unknown characters) gives the character back. |
| `DnaRnaTools.IsRnaPairs` | modules/run_dna_rna_tools.py:36-40 | True iff no character is T or t and some character is U or u. |
| `DnaRnaTools.Complement` | modules/run_dna_rna_tools.py:43-64 | Same length. Each character is mapped through the RNA table when the input has U/u but no T/t, otherwise through the DNA table, and is unchanged when it is not in the table. |
| `DnaRnaTools.ComplementKeepsAlphabet` | modules/run_dna_rna_tools.py:36-64 | An RNA complement has no T/t. A DNA complement has U/u exactly when the input does. |
| `DnaRnaTools.ComplementInvolutive` | modules/run_dna_rna_tools.py:43-64 | Complementing twice gives the input back whenever the complement selects the same table as the input. |
| `DnaRnaTools.ComplementNotAlwaysInvolutive` | modules/run_dna_rna_tools.py:43-64 | Without that condition it fails: "U" complements to "A", which complements to "T". |
| `DnaRnaTools.ReverseComplement` | modules/run_dna_rna_tools.py:67-68 | Same length, and position i holds the complement, under the input's table, of the input's character at position n-1-i. |
| `DnaRnaTools.ReverseComplementCommutes` | modules/run_dna_rna_tools.py:67-68 | Reverse-complement equals complement of the reverse. |
| `DnaRnaTools.ProcedureNamed` | modules/run_dna_rna_tools.py:91-99 | The lookup finds a procedure exactly when its name matches, and finds every procedure with that name. |
| `DnaRnaTools.RunDnaRnaTools` | modules/run_dna_rna_tools.py:71-103 | Fewer than two arguments is an error. An unknown last argument is an error naming it. Otherwise the procedure is applied to each earlier argument in order, giving one value for one sequence and a list for several. |
| `DnaRnaTools.RunDnaRnaToolsExamples` | modules/run_dna_rna_tools.py:78-81 | The three documented calls give False, "GTA" and ["GTA", "Ta"]. |
| `BioFilesProcessor.DefaultOutputPath` | bio_files_processor.py:33-37 | A given output path is kept. Otherwise the result ends in `_oneline.fasta`. It is input + `_oneline.fasta` when the input does not end in `.fasta`, and the input with its final `.fasta` replaced when that is the only occurrence. |
| `BioFilesProcessor.FastaSuffixNotSelfOverlapping` | bio_files_processor.py:35 | `.fasta` cannot overlap itself, so a trailing `.fasta` is always one of the occurrences `replace` rewrites. |
| `BioFilesProcessor.ConvertMultilineFastaToOneline` | bio_files_processor.py:33-65 | Returns the output path and the written lines. The lines equal `OneLineFasta`: the records of the stripped non-blank lines, each as a header line and a joined sequence line. Orphan lines before the first header go to the first record. |
| `BioFilesProcessor.ContentLinesSnoc` | bio_files_processor.py:45-47 | A line that strips to empty adds nothing to the content lines. Any other line adds its stripped form. |
| `BioFilesProcessor.HeaderStep` | bio_files_processor.py:48-55 | The loop state after a header line: if a header was already current, its record is written and the pending sequence lines are cleared; otherwise the pending lines are kept. The new header becomes current. |
| `BioFilesProcessor.FragmentStep` | bio_files_processor.py:56-58 | The loop state after a sequence line: it is appended to the pending sequence lines. |
| `BioFilesProcessor.FinalFlush` | bio_files_processor.py:60-63 | Writing the last pending record completes exactly the reference output. |
| `BioFilesProcessor.GroupPartition` | bio_files_processor.py:44-58 | The grouping partitions the content lines. Read back in order the parts give the input, each record starts with a header, and no other part holds a header. |
| `BioFilesProcessor.GroupHeaders` | bio_files_processor.py:48-55 | The records' headers are exactly the header lines, in order. |
| `BioFilesProcessor.EmitShape` | bio_files_processor.py:51-52 | Writing records gives two lines per record: its header, then its sequence lines joined. |
| `BioFilesProcessor.OneLineFastaShape` | bio_files_processor.py:44-63 | The output has two lines per header line of the input, in input order. Line 2k is the k-th header and line 2k+1 is that record's joined sequence. |
| `BioFilesProcessor.HeaderLinesEmpty` | bio_files_processor.py:48 | No header lines are found iff no line starts with `>`. |
| `BioFilesProcessor.NoHeaderNoOutput` | bio_files_processor.py:60-63 | Input without a header line produces an empty output file. |
| `BioFilesProcessor.ContentLinesAppend` | bio_files_processor.py:44-47 | Stripping and dropping blanks works line by line: it distributes over concatenation. |
| `BioFilesProcessor.BlankLinesIgnored` | bio_files_processor.py:45-47 | Inserting a whitespace-only line anywhere leaves the output unchanged. |
| `BioFilesProcessor.GroupNoHeaders` | bio_files_processor.py:56-58 | Sequence lines in front of the rest only extend the leading orphan part. |
| `BioFilesProcessor.GroupAtHeader` | bio_files_processor.py:48-55 | A header line closes everything before it: the grouping of `a + s` with `s` starting at a header is that of `a` followed by the records of `s`. |
| `BioFilesProcessor.RecordStart` | bio_files_processor.py:48-58 | A header followed by sequence lines up to the next header (or the end) is one record holding exactly those lines. |
| `BioFilesProcessor.RecordBetweenHeaders` | bio_files_processor.py:44-63 | A header and the sequence lines after it form an output record. The orphan lines before it are prepended exactly when no header precedes it. |
| `BioFilesProcessor.ContentLinesClean` | bio_files_processor.py:45-47 | Lines without surrounding whitespace that are not empty pass through unchanged. |
| `BioFilesProcessor.TwoRecords` | bio_files_processor.py:44-63 | Clean input `h1, x, y, h2, z` with two headers becomes `h1, x+y, h2, z`. |
| `BioFilesProcessor.LineKinds` | bio_files_processor.py:99-114 | Every stripped line is at least one, and no two, of: query line, section opener, section closer, or hit line. The section stays open across a line iff it opens it or is a hit line. |
| `BioFilesProcessor.InHitsSince` | bio_files_processor.py:99-114 | The flag is set before line i iff some earlier line opens a hits section (contains the section marker and is not a `Query=` line) and every line since then keeps the section open. |
| `BioFilesProcessor.HitId` | bio_files_processor.py:118 | `split()[0]` of a stripped non-empty line is a non-empty whitespace-free prefix of it, followed by whitespace or the line's end. |
| `BioFilesProcessor.BlastStep` | bio_files_processor.py:95-119 | One stripped line moves the flag by the source's tests in their order, and appends its first word iff the flag was set and the line is a hit line. |
| `BioFilesProcessor.BlastLine` | bio_files_processor.py:96-119 | The loop body computes the next flag and the hit list extended as `BlastStep` describes. |
| `BioFilesProcessor.ConcatMembers` | bio_files_processor.py:119 | An element of the concatenated per-line contributions comes from one of them, and every contribution's elements are in it. |
| `BioFilesProcessor.HitsBeforeConcat` | bio_files_processor.py:94-119 | The collected list is the concatenation, in line order, of what each line contributes. |
| `BioFilesProcessor.PerLineMembers` | bio_files_processor.py:110-119 | A line contributes `x` iff it is a hit line inside a hits section and `x` is its first word. |
| `BioFilesProcessor.HitsBeforeMembers` | bio_files_processor.py:94-119 | A word is collected iff it is the first word of a hit line inside a hits section. |
| `BioFilesProcessor.BlastHitsMembers` | bio_files_processor.py:121-122 | The report is strictly ascending, so has no repeats, and holds exactly the collected words. |
| `BioFilesProcessor.ParseBlastOutput` | bio_files_processor.py:90-128 | The pass computes `BlastHits`. The written lines are strictly ascending and hold exactly the first words of the hit lines inside hits sections. |
| `PyStr.IsSpaceAscii` | bio_files_processor.py:45 | `IsSpace`, the model of `str.isspace()` that decides `strip()` and `split()`, holds on ASCII exactly for space, tab, line feed, vertical tab, form feed, carriage return and 0x1c-0x1f. |
| `PyStr.EndsWith` | bio_files_processor.py:34 | `s.endswith(p)` holds iff `p` is no longer than `s` and matches the end of `s` character by character. |
| `PyStr.Strip` | bio_files_processor.py:45 | `strip()` is empty iff the line is all whitespace. Otherwise it starts and ends with non-whitespace. Together with `StripInfix` this fixes the result. |
| `PyStr.StripInfix` | bio_files_processor.py:45 | `strip()` returns an infix `s[i..j]` of the line whose prefix `s[..i]` and suffix `s[j..]` are all whitespace. |
| `PyStr.StripClean` | bio_files_processor.py:96 | A line with no surrounding whitespace is its own `strip()`. |
| `PyStr.TakeToken` | bio_files_processor.py:118 | The maximal whitespace-free prefix. |
| `PyStr.StartsWithPrefix` | bio_files_processor.py:48 | `startswith(p)` holds iff `p` is a prefix. |
| `PyStr.ContainsAt` | bio_files_processor.py:105 | A string contains every one of its substrings. |
| `PyStr.ContainsOccurs` | bio_files_processor.py:105 | `p in s` holds iff `p` occurs in `s` at some position. |
| `PyStr.ReplaceAll` | bio_files_processor.py:35 | Replacing a pattern by itself changes nothing, and a replacement of the pattern's length keeps the length. |
| `PyStr.ReplaceAllAbsent` | bio_files_processor.py:35 | `replace` with an absent pattern returns the string unchanged. |
| `PyStr.ReplaceAllSuffix` | bio_files_processor.py:35 | For a pattern that cannot overlap itself, replacing in `s + pat` replaces in `s` and then appends the replacement. |
| `PyStr.UpperAscii` | modules/fastq.py:26 | Same length, and every character is upper-cased. |
| `PyStr.LessTransitive` | bio_files_processor.py:122 | String order is transitive. |
| `PyStr.LessTotal` | bio_files_processor.py:122 | Any two strings are equal or ordered one way. |
| `PyStr.InsertSorted` | bio_files_processor.py:122 | Inserting into a strictly ascending list keeps it strictly ascending and adds exactly the new element. |
| `PyStr.SortedSet` | bio_files_processor.py:122 | `sorted(set(xs))` is strictly ascending and has exactly the elements of `xs`. |
| `PyStr.StrictlySortedUnique` | bio_files_processor.py:122 | Two strictly ascending lists with the same elements are equal, so `sorted(set(xs))` is the only such listing. |

## Code versus documentation

The model follows the code where its documentation says otherwise:

- BLAST extraction: the docstring (bio_files_processor.py:72-76) promises the first hit of each query and its description. The comment at line 117 speaks of the full description up to the end of the line. The code (lines 110-119) instead collects `split()[0]`, the first word of every hit line in every hits section. `ParseBlastOutput` models the code.
- Default output path: the docstring (line 24) says the output file is created next to the input file. The code (line 35) uses `str.replace`, which also rewrites a `.fasta` in a directory name: `runs.fasta/a.fasta` becomes `runs_oneline.fasta/a_oneline.fasta`. `DefaultOutputPath` models the code.

## Left out

- File I/O is not modelled. The reformatter and the extractor take the input file's lines and return the output file's lines, with newlines left off. `open`, encodings and the write calls are not modelled. In particular, the model assumes the output path differs from the input path. When `output_fasta` equals `input_fasta`, the `open(output_fasta, "w")` at bio_files_processor.py:43 truncates the input before the loop reads it, so the source writes an empty file. `ConvertMultilineFastaToOneline` instead returns `OneLineFasta(inputLines)`.
- `bioinf_tools_LM.py` is not part of this model. It only re-exports names. Its line 7 imports `filter_fastq_file`, which `modules/fastq.py` does not define, so the source holds no FASTQ reader or writer to model.
- Python's dynamic argument types are not modelled. `normalize_bounds` takes either a scalar or a pair (the `Bounds` datatype). Values are exact rationals (`real`), not IEEE floats, so rounding in `100 * gc / len(s)` and in the mean quality is not modelled.
- Fastq.NormalizeBounds: the `default_high` argument is accepted and never used, as in the source.
- Fastq.FilterFastq: the check at modules/fastq.py:76-78 that skips malformed values (not a 2-element tuple or list) is not modelled. Every `Read` is a well-formed pair by construction.
- Fastq.FilterFastq requires `DistinctIds(seqs)`. This is the key uniqueness a Python dict guarantees, not an extra demand on callers.
- PyStr.UpperAscii: `str.upper()` is modelled for ASCII letters only. Unicode case mappings are not modelled. None of them produces G or C, so the G/C count is unaffected. Length-changing mappings do matter, though: `gc_percent` divides by `len(seq.upper())` (modules/fastq.py:26-31), and `"ß".upper()` is `"SS"`. So `gc_percent("Gß")` is 100/3 in Python, while `GcContent` divides by the input's length and gives 50.
- DnaRnaTools.RunDnaRnaTools: the `ValueError` messages become the `TooFewArguments` and `UnknownProcedure(name)` error values.
- BioFilesProcessor.ParseBlastOutput: the `inside_query` flag is not modelled, because it is set but never read.
- BioFilesProcessor.DefaultOutputPath: `str.replace` is modelled exactly, including occurrences of `.fasta` elsewhere in the path. The contract pins the result down fully only when the final `.fasta` is the only occurrence; otherwise it states only that the result ends in `_oneline.fasta`.
- BioFilesProcessor.TwoRecords: states the FASTA behaviour on a generic five-line input rather than on a concrete file text.
