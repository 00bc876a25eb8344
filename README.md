# utrfx core in Dafny

This project models the sequence-level and transcript-assembly core of
utrfx, a Python package that studies upstream open reading frames (uORFs)
in the 5' untranslated regions (5'UTRs) of transcripts. It covers three
source files.

- `src/utrfx/uorf.py`:
  - the value holders `FivePrimeSequence` and `UORF`, with their lengths,
    equality and the substring test `is_in_five_utr`;
  - reading a 5'UTR from FASTA text;
  - `extract_next_uorf`, which upper-cases the 5'UTR, takes its first
    "ATG" and walks that frame codon by codon to the first stop codon;
  - the feature calculators `gc_content`, `intercistonic_distance`,
    `gc_content_of_the_ten_nts_after` and `uorfs_plus_20nt_extractor`.
- `src/utrfx/model.py`: the containers `FiveUTR`, whose length is the sum
  of its regions' lengths, and `Transcript`.
- `src/utrfx/gtf_io.py`:
  - `parse_strand`;
  - the per-transcript loop of `read_gtf_into_txs`. For each group of UTR
    rows, the loop looks up the contig and takes the transcript's first
    start codon. It keeps the UTR regions whose distance to that codon is
    not negative, and emits a transcript when at least one region is kept.

The modules follow the source:

- `Outcomes` holds `Option`, `Result` and `Error`. Each Python `ValueError`
  becomes one `Error` constructor, and `None` results become `Option`.
- `Text` holds the Python string primitives the code uses: `upper`, `in`,
  `find`, `count`, `endswith`, `strip` and `"".join`.
- `Genome` holds the genome layer used by `gtf_io.py`, kept abstract.
- `Uorf`, `Model` and `GtfIo` model the three source files.

The uORF code is pure apart from the loop in `extract_next_uorf`, which
appends to `codon_list` in place. The pure code is modelled with datatypes
and functions; the loop is the method `Uorf.ExtractNextUorf`. The method is
proved equal to the function `Uorf.NextUorf`, whose properties are
lemmas. The loop of `read_gtf_into_txs` is likewise the method
`GtfIo.ReadGtfIntoTxs`, proved equal to `GtfIo.SelectTranscripts`.

The genome operations it relies on are fields of the record
`Genome.GenomeInterface`:

- `contig_by_name`;
- `GenomicRegion.with_strand`;
- `distance_to`;
- `len(region)`.

Every result about transcripts holds whatever total functions stand for
those operations. Errors raised inside `utrfx.genome` are not modelled.

Behaviour of the code that the model keeps:

- `extract_next_uorf` returns one uORF per call, taken from the first
  "ATG" only;
- GC content is a percentage in [0, 100];
- a 0-nt uORF and an empty downstream window raise `ValueError`;
- the calculators locate the uORF with `find`, not with stored offsets.

## Model

| member | source | states |
|---|---|---|
| Text.UpperIsPointwise | src/utrfx/uorf.py:90 | upper-casing maps each character on its own: lower-case ASCII letters to upper case, every other character kept |
| Text.Find | src/utrfx/uorf.py:96 | `find` gives -1 exactly when the pattern does not occur, otherwise an index where it occurs with no earlier occurrence |
| Text.CountPairBound | src/utrfx/uorf.py:121-122 | the counts of "G" and of "C" together never exceed the length, so a GC share is at most 1 |
| Text.Strip | src/utrfx/uorf.py:29 | `strip` leaves a contiguous piece of the line, cuts off only whitespace on either side, and leaves no whitespace at either end |
| Text.StripOfCleanLine | src/utrfx/uorf.py:29 | a line made of a whitespace-free body followed by whitespace (its line break) strips to the body |
| Uorf.FromFasta | src/utrfx/uorf.py:22-31 | reading succeeds exactly when the path ends with one of the six FASTA extensions, otherwise it fails with the unexpected-extension error; the transcript identifier is kept |
| Uorf.FromFastaJoinsSequenceLines | src/utrfx/uorf.py:29 | for a header followed by sequence lines, each a body plus trailing whitespace, the 5'UTR read is the bodies joined in order |
| Uorf.FivePrimeSequence.Length | src/utrfx/uorf.py:33-34 | `__len__`: the number of bases of the 5'UTR string; `ExtractedUorfLength` bounds an extracted uORF by it |
| Uorf.FivePrimeSequence.Equals | src/utrfx/uorf.py:36-39 | `__eq__`: same transcript identifier and same sequence; `FivePrimeSequenceEqualityIsStructural` shows it is value equality |
| Uorf.FivePrimeSequenceEqualityIsStructural | src/utrfx/uorf.py:36-39 | two 5'UTR sequences are equal exactly when identifier and sequence are equal |
| Uorf.UORF.Equals | src/utrfx/uorf.py:76-79 | `__eq__`: same transcript identifier and same sequence; `UorfEqualityIsStructural` shows it is value equality |
| Uorf.UorfEqualityIsStructural | src/utrfx/uorf.py:76-79 | two uORFs are equal exactly when identifier and sequence are equal |
| Uorf.UORF.IsInFiveUtr | src/utrfx/uorf.py:64-71 | the uORF belongs to the 5'UTR exactly when searching the 5'UTR for the uORF string finds it |
| Uorf.NextUorf | src/utrfx/uorf.py:85-110 | what `extract_next_uorf` returns: the first-"ATG" frame of the upper-cased 5'UTR up to its first stop codon, or None; `NextUorfShape` and `NextUorfAbsent` characterise it in both directions |
| Uorf.ExtractNextUorf | src/utrfx/uorf.py:85-110 | the codon-by-codon loop, with its break on a partial codon and its loop bound `len - len % 3`, returns exactly `NextUorf`: the first-"ATG" frame up to its first stop codon, or None |
| Uorf.FrameStopFound | src/utrfx/uorf.py:99-109 | a stop found in a frame is a whole number of codons from the frame start, is a stop codon, and no earlier codon of the frame is one |
| Uorf.FrameStopMissing | src/utrfx/uorf.py:99-110 | a frame yields no stop exactly when none of its complete codons is a stop codon |
| Uorf.NextUorfShape | src/utrfx/uorf.py:90-109 | an extracted uORF keeps the transcript identifier and is the upper-cased 5'UTR from its first "ATG" on. It is a multiple of 3 long, at least 6, starts with "ATG", ends with a stop codon and has no earlier in-frame stop |
| Uorf.NextUorfAbsent | src/utrfx/uorf.py:90-110 | no uORF is returned exactly when the upper-cased 5'UTR has no "ATG", or when no complete codon in the frame of the first "ATG" is a stop codon |
| Uorf.UORF.Length | src/utrfx/uorf.py:73-74 | `__len__`: the number of bases of the uORF string; `ExtractedUorfLength` states its shape for an extracted uORF |
| Uorf.ExtractedUorfLength | src/utrfx/uorf.py:73-74 | an extracted uORF's length is a multiple of 3, at least 6, and at most the 5'UTR's length |
| Uorf.GcPercent | src/utrfx/uorf.py:121-124 | the GC percentage lies in [0, 100] and times the length equals 100 times the number of "G" and "C" |
| Uorf.GcContent | src/utrfx/uorf.py:112-126 | it fails exactly on a 0-nt uORF, with that error; otherwise it is the uORF's GC percentage, in [0, 100] |
| Uorf.UorfEnd | src/utrfx/uorf.py:137 | the index past the uORF's first occurrence in the 5'UTR: within bounds, an occurrence ends there and none starts earlier |
| Uorf.DownstreamWindow | src/utrfx/uorf.py:150 | the window after the uORF is the piece of the 5'UTR starting at the uORF's end, of length `n` clipped at the 5'UTR's end |
| Uorf.IntercistonicDistance | src/utrfx/uorf.py:129-140 | it succeeds exactly when the uORF is in the 5'UTR and has the same transcript, otherwise it fails with the not-in-5'UTR error. The distance is the number of bases after the uORF's first occurrence |
| Uorf.GcContentOfTheTenNtsAfter | src/utrfx/uorf.py:143-169 | not-in-5'UTR error when the guard fails, zero-length error when no base follows; otherwise the GC percentage of the up to 10 bases after the uORF, over the clipped length, in [0, 100] |
| Uorf.GcPercentOverTen | src/utrfx/uorf.py:164-168 | for a full 10-nt window, dividing by 10 and dividing by the length give the same percentage, so both branches agree |
| Uorf.UorfThenWindow | src/utrfx/uorf.py:179-184 | the uORF's first occurrence and the window after it are adjacent pieces of the 5'UTR |
| Uorf.UorfsPlus20ntExtractor | src/utrfx/uorf.py:172-190 | it succeeds exactly under the membership and identifier guard; the result is the piece of the 5'UTR that starts at the uORF's first occurrence, with the uORF as its prefix, and is `|uorf| + min(20, bases left)` long |
| Uorf.FirstAtgPieceIsFoundFirst | src/utrfx/uorf.py:137 | a piece cut at the first "ATG" of a sequence is first found where it was cut |
| Uorf.FirstAtgPieceDistance | src/utrfx/uorf.py:134-140 | a uORF cut at the first "ATG" of a 5'UTR of its transcript belongs to it, ends where it was cut, and its intercistonic distance is the number of bases after that |
| Uorf.LowerCaseFiveUtrLosesItsUorf | src/utrfx/uorf.py:134 | from "ccatgtaa" the extractor returns "ATGTAA", and the calculators, testing membership on the raw lower-case sequence, reject that uORF |
| Model.ContainersKeepTheirArguments | src/utrfx/model.py:10-47 | the accessors return exactly the regions, identifier and 5'UTR the constructors were given |
| Model.FiveUTR.Length | src/utrfx/model.py:16-17 | `__len__`: 0 without regions, otherwise the sum of the regions' lengths; characterised by `FiveUtrLengthOfFewRegions`, `FiveUtrLengthIsAdditive` and `FiveUtrLengthCoversEachRegion` |
| Model.SumOfLengths | src/utrfx/model.py:17 | `sum(len(region) for region in regions)`; `SumOfLengthsIsAdditive` shows it adds up over concatenation |
| Model.FiveUtrLengthOfFewRegions | src/utrfx/model.py:16-17 | a 5'UTR without regions has length 0, and one with a single region has that region's length |
| Model.FiveUtrLengthIsAdditive | src/utrfx/model.py:16-17 | the length of two region lists put together is the sum of their lengths |
| Model.FiveUtrLengthCoversEachRegion | src/utrfx/model.py:16-17 | no region is longer than the 5'UTR that holds it |
| GtfIo.ParseStrand | src/utrfx/gtf_io.py:88-94 | `parse_strand`: "+" and "-" to the two strands, any other value the unknown-strand error; characterised by `ParseStrandCases` and `ParseStrandInvertsSymbol` |
| GtfIo.ParseStrandCases | src/utrfx/gtf_io.py:88-94 | "+" parses to the positive strand, "-" to the negative strand, and any other value fails with the unknown-strand error carrying that value |
| GtfIo.ParseStrandInvertsSymbol | src/utrfx/gtf_io.py:88-94 | parsing a strand's GTF symbol gives that strand back, and a value that parses to a strand is that strand's symbol |
| GtfIo.PositiveRegion | src/utrfx/gtf_io.py:66-71 | a row's 1-based inclusive coordinates become a 0-based half-open region that holds `p` exactly when the row covers `p + 1`, with the same number of bases |
| GtfIo.RowRegion | src/utrfx/gtf_io.py:56-71 | the region of a row: its strand parsed, its coordinates turned into `PositiveRegion`, then viewed on that strand with `with_strand`; an unknown strand is the error; `KeptRegionsFailWithUnknownStrand` relies on it |
| GtfIo.StartCodonRows | src/utrfx/gtf_io.py:42-50 | the selected rows are exactly the transcript's start-codon rows: each is one, and every one is selected |
| GtfIo.StartCodonRowsOfConcat | src/utrfx/gtf_io.py:50 | selecting start-codon rows distributes over concatenation, so file order is kept |
| GtfIo.KeptRegions | src/utrfx/gtf_io.py:64-74 | the regions of a group's rows, in row order, kept when their distance to the start codon is not negative, or the first strand error; characterised by `KeptRegionsInRowOrder`, `KeptRegionsFailWithUnknownStrand` and `KeptRegionsFailureSticks` |
| GtfIo.KeptRegionsFailureSticks | src/utrfx/gtf_io.py:64-71 | once a prefix of a group's rows raises on its strand, the whole group raises the same error |
| GtfIo.KeptRegionsFailWithUnknownStrand | src/utrfx/gtf_io.py:64-71 | collecting a group's regions fails exactly when some row's strand is neither "+" nor "-", and then with the unknown-strand error |
| GtfIo.KeptRegionsInRowOrder | src/utrfx/gtf_io.py:64-74 | the kept regions belong to exactly the rows whose region is not behind the start codon, in row order, and each has a non-negative distance to it |
| GtfIo.GroupTranscript | src/utrfx/gtf_io.py:46-84 | what one group contributes: nothing without a contig, start codon or kept region, otherwise the transcript with the kept regions; characterised by `GroupWithoutContigIsSkipped`, `GroupWithoutStartCodonIsDropped`, `GroupTranscriptShape` and `GroupTranscriptEmitted` |
| GtfIo.GroupWithoutContigIsSkipped | src/utrfx/gtf_io.py:46-48 | a group whose contig is unknown contributes nothing and raises nothing, even with bad strands |
| GtfIo.GroupWithoutStartCodonIsDropped | src/utrfx/gtf_io.py:50-54 | a transcript without a start-codon row contributes nothing |
| GtfIo.GroupTranscriptShape | src/utrfx/gtf_io.py:45-84 | an emitted transcript has the group's identifier, a known contig and a start codon. Its regions are the kept regions, at least one, each not behind the first start codon |
| GtfIo.GroupTranscriptEmitted | src/utrfx/gtf_io.py:76-84 | a group with a known contig and a start codon whose rows all parse and keep at least one region yields the transcript of its identifier with exactly the kept regions |
| GtfIo.GroupUsesFirstStartCodon | src/utrfx/gtf_io.py:55 | start-codon rows after the transcript's first one do not change what the group contributes |
| GtfIo.SelectTranscripts | src/utrfx/gtf_io.py:45-86 | the transcripts of all groups in group order, stopping at the first error; characterised by `SelectTranscriptsPerGroup`, `SelectTranscriptsHaveDistinctIds`, `SelectTranscriptsFailsOnlyOnStrands` and `SelectFailureSticks` |
| GtfIo.SelectFailureSticks | src/utrfx/gtf_io.py:45-86 | an error raised by a group aborts the whole reading with that error |
| GtfIo.SelectTranscriptsPerGroup | src/utrfx/gtf_io.py:45-86 | each transcript comes from its own group, in group order, at most one per group; every other group contributes nothing |
| GtfIo.SelectTranscriptsHaveDistinctIds | src/utrfx/gtf_io.py:45-86 | with one group per transcript identifier, there are at most as many transcripts as groups and no identifier appears twice |
| GtfIo.SelectTranscriptsFailsOnlyOnStrands | src/utrfx/gtf_io.py:56-65 | apart from errors raised inside utrfx.genome, which are not modelled, the only error the selection loop raises is an unknown strand |
| GtfIo.ReadGtfIntoTxs | src/utrfx/gtf_io.py:45-86 | the nested loops over groups and rows, with their early exits on a bad strand, return exactly `SelectTranscripts` |

## Left out

- The file I/O of `from_fasta` is left out: it receives the lines the file would yield. Opening a missing file is not modelled.
- `gtf_io.py:10-44` in `read_gtf_into_txs` is left out. They cover the `.gtf` assertion, the pandas CSV reading, the extraction of the transcript identifier from the attribute column, empty-string-to-NaN replacement and the filtering of UTR rows at `gtf_io.py:41`. The start-codon filter of `gtf_io.py:42` is part of `GtfIo.StartCodonRows`.
- Instead, `GtfIo.ReadGtfIntoTxs` receives the parsed rows and the UTR rows already grouped by transcript identifier. The order and sorting of pandas' `groupby` are not modelled, and neither is its dropping of rows without an identifier.
- The genome layer (`utrfx.genome`) is not part of this model. `contig_by_name`, `with_strand`, `distance_to` and `len(region)` are abstract fields of `Genome.GenomeInterface`.
- `GenomicRegion`'s own construction checks are not modelled, because the source of `utrfx.genome` is not among the files modelled.
- `gtf_io.py` imports `FiveUTRCoordinates` and `TranscriptCoordinates`, which `model.py` does not define: they are modelled as `Model.FiveUTR` and `Model.Transcript`.
- The `print` calls (`gtf_io.py:48`, `uorf.py:157` and `uorf.py:183`) are left out: they produce output only.
- `__repr__` methods are left out: formatting only.
- `src/utrfx/util.py` is left out: it holds only an abstract sequence-fetching
  interface and a pysam-based service whose `fetch` raises `NotImplementedError`.
- `KozakSequenceCalculator` and `FooKozakCalculator` (`uorf.py:193-203`) are left out: an abstract placeholder and a constant stub.
- Text.UpperIsPointwise: models `str.upper` on ASCII only; non-ASCII letters such as "ß" or accented letters are not case-mapped, because nucleotide strings are ASCII.
- Text.Strip: models `str.strip` with the ASCII whitespace set only; Unicode spaces above code point 127 are not stripped.
- Uorf.GcContent: percentages are exact reals; IEEE-754 rounding of Python floats is not modelled.
- Uorf.IntercistonicDistance: returns the distance as an integer; the source converts it to a float with the same value.
- Uorf.ExtractNextUorf: the source rebinds its local copy of the sequence to the rest after the stop codon, contrary to its docstring's "update it". The model leaves that dead assignment in the local variable, and the argument is a value that the call cannot change.
- The mutable Python objects (`FivePrimeSequence`, `UORF`, `FiveUTR`, `Transcript`) are modelled as immutable datatypes, because no code in the core assigns to their fields after construction.
