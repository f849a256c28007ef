# nexus-tools bookkeeping, modelled in Dafny

nexus-tools is a set of command-line programs for ChIP-nexus sequencing data.
This project models their sequential bookkeeping and proves properties about it:

- **Read-position keys** (`BamRecordKey`, in the shared header and in nexus-pre's copy).
  - A key packs a read's chromosome id, 5' coordinate and strand into one 64-bit word.
  - Two comparators order keys: by position only, or by position and barcode.
  - The barcode is cut out of the read name after `TL:`.
  - `calculateDistance` measures the distance between two keys on one chromosome.
- **Peak scoring** (`nexus-pre/peak.h`).
  - A signed sliding-window score runs over a sorted occurrence map.
  - `collectForwardCandidates` collects the positions whose score reaches a limit.
- **The tools' counting loops.** Each `main` loop is lifted out and run over a sequence of read records:
  - nexus-pre: barcode de-duplication, two occurrence maps, the cluster filter, BED lines and duplication-rate histograms;
  - test-app: the same with pair counts and XM-tag counters;
  - ting: same-position counting;
  - 5PrimeEndCounter: the BAM pass and the 5'-end windows around BED peaks;
  - MappingAnalyzer: the read-id join of two BAM files;
  - the file-name helpers of all of them.
- **flexcat's statistics** (`flexcat/general_stats.h`): `AdapterTrimmingStats` and `GeneralStats` as classes whose methods update their fields, with `+=`, `clear` and the constructors.

The model layout:

- The C++ integer widths are subset types of `int`. Every cast and wrap-around is written out in module `Words`: `U32`, `U64`, `I32`.
- `std::map` is a strictly sorted sequence of entries (module `SortedMap`), because the tools iterate it in key order. `operator[]` is `Increment` (for `++m[k]`) and `Touch` (a read that inserts a zero entry).
- A BAM file is a sequence of `Record`s. What a loop writes is appended to a sequence.
- Every loop of the source is a Dafny method with invariants. Each method is proved equal to a function over the inputs read so far. The lemmas state what the source promises about those functions.

## Model

| member | source | states |
|---|---|---|
| BamRecordKey.Pack | shared_headers/BamRecordKey.h:43-45 | inside the bounds (rID < 2^31, coordinate < 2^30) the three `|`-ed fields do not overlap, so the key is their sum |
| BamRecordKey.KeyValue | shared_headers/BamRecordKey.h:41-46 | a read's key is `rID * 2^32 + 2 * fivePrime + strand` |
| BamRecordKey.Unpack | shared_headers/BamRecordKey.h:47-58 | `getRID`, `getPosition` and `isReverseStrand` return the packed chromosome, coordinate and strand bit |
| BamRecordKey.KeyRoundTrip | shared_headers/BamRecordKey.h:41-58 | decoding a read's key gives back its rID, its 5' coordinate and its reverse flag |
| BamRecordKey.KeyedAtFivePrime | shared_headers/BamRecordKey.h:32-35 | the strand bit is set iff flag bit 0x10 is; reverse reads are keyed at `beginPos + length(seq)`, forward reads at `beginPos` |
| BamRecordKey.PositionOrderIsLexicographic | shared_headers/BamRecordKey.h:13 | inside the bounds, `<` on the packed words is lexicographic order on (chromosome, coordinate, strand) |
| BamRecordKey.StringLessIrreflexive | shared_headers/BamRecordKey.h:27 | `std::string` `<` is irreflexive |
| BamRecordKey.StringLessTransitive | shared_headers/BamRecordKey.h:27 | `std::string` `<` is transitive |
| BamRecordKey.StringLessTotal | shared_headers/BamRecordKey.h:27 | of two different strings one is less |
| BamRecordKey.EquivalentKeys | shared_headers/BamRecordKey.h:23-28 | neither key is less iff the positions are equal and one barcode is empty or both are equal |
| BamRecordKey.BarcodeOrderIsStrict | shared_headers/BamRecordKey.h:23-28 | the barcode comparator is irreflexive and transitive |
| BamRecordKey.EquivalenceNotTransitive | shared_headers/BamRecordKey.h:25-28 | at one position "" is equivalent to "A" and to "B", while "A" < "B": the derived equivalence is not transitive |
| BamRecordKey.FieldAt | shared_headers/BamRecordKey.h:76-79 | the text from `start` up to the next ':' or the end: it occurs there, holds no ':', and is followed by ':' or the end |
| BamRecordKey.BarcodeStart | shared_headers/BamRecordKey.h:73 | `find("TL:") + 3` is the tag's index plus 3, and when the tag is absent `npos + 3` wraps to 2 |
| BamRecordKey.BarcodeFrom | shared_headers/BamRecordKey.h:74-79 | the `npos` guard gives an empty barcode; a start inside the name gives the field from there; a start past the end is the `substr` exception (None) |
| BamRecordKey.BarcodeAfterTag | shared_headers/BamRecordKey.h:72-79 | with `TL:` first at index i, the barcode is the field from i+3 |
| BamRecordKey.BarcodeWithoutTag | shared_headers/BamRecordKey.h:73-79 | without `TL:` the guard never fires: the barcode is the field from index 2, or the constructor throws when the name is shorter than 2 |
| BamRecordKey.BarcodeKeyOf | shared_headers/BamRecordKey.h:70-80 | the barcode key carries the same packed word as the plain key |
| BamRecordKey.CalculateDistance | shared_headers/BamRecordKey.h:87-96 | returns true iff the `getRID`s are equal; on false the `distance` argument is left as it was |
| BamRecordKey.DistanceAntisymmetric | shared_headers/BamRecordKey.h:94 | distance(k, k) = 0, and swapping the keys negates the distance |
| BamRecordKey.DistanceOfReads | shared_headers/BamRecordKey.h:87-96 | for reads inside the bounds the distance is the difference of their 5' coordinates when the chromosomes agree |
| NexusBamRecordKey.HighWordBits | nexus-pre/BamRecordKey.h:73 | the mask `0xFFFFFFFF00000000` clears exactly the low 32 bits; masked words are equal iff the high words are |
| NexusBamRecordKey.MaskedDistanceSpec | nexus-pre/BamRecordKey.h:71-80 | the masked test reports one chromosome iff the high words agree; otherwise `distance` is unchanged |
| NexusBamRecordKey.I32Injective | nexus-pre/BamRecordKey.h:78 | `static_cast<int32_t>` is one-to-one on 32-bit words |
| NexusBamRecordKey.MaskedDistanceAgrees | nexus-pre/BamRecordKey.h:71-80 | nexus-pre's masked `calculateDistance` computes exactly the shared header's |
| NexusBamRecordKey.MaskedDistanceAntisymmetric | nexus-pre/BamRecordKey.h:78-79 | the masked distance is 0 from a key to itself and changes sign when the keys are swapped |
| Peak.DefaultPosition | nexus-pre/peak.h:7-25 | a default position has chromosome -1, position -1 and the forward strand |
| Peak.PositionOfRead | nexus-pre/nexus-pre.cpp:193-200 | `getPosition` of a read's entry is its chromosome and 5' end; the strand keeps its default |
| Peak.WindowScore | nexus-pre/peak.h:35-61 | the score is 0 at `startIt`, 0 for the last entry before `endIt`, and 0 when either walk meets another chromosome |
| Peak.LeftWalkStops | nexus-pre/peak.h:38-45 | the left walk adds the signed counts of the passing entries down to where it stops; it is `ok` unless it stopped on another chromosome; `startIt` is never visited |
| Peak.RightWalkStops | nexus-pre/peak.h:48-59 | the right walk subtracts the signed counts from the entry after the centre up to where it stops, under the same rule |
| Peak.DistanceArgument | nexus-pre/peak.h:34 | the value of `distance` passed in only matters when the keys are on different chromosomes |
| Peak.Probe | nexus-pre/peak.h:38 | the loop condition: `ok` is "same chromosome", and the step is taken iff also the distance, compared unsigned, is at most `widthLimit` |
| Peak.ScanLeft | nexus-pre/peak.h:37-45 | the first loop ends with the walk's `ok` and its sum, wrapped to `int` |
| Peak.ScanRight | nexus-pre/peak.h:48-59 | the second loop ends with the walk's `ok` and the score plus its sum, wrapped to `int` |
| Peak.SlidingWindowScore | nexus-pre/peak.h:27-63 | `slidingWindowScore` returns the window score wrapped to `int` |
| Peak.Scores | nexus-pre/peak.h:69-71 | one score per entry of the range |
| Peak.ScoreAt | nexus-pre/peak.h:71 | the score of entry `start + j` is its window score |
| Peak.Selected | nexus-pre/peak.h:69-73 | the selected offsets lie in the scanned part of the range |
| Peak.SelectedExactly | nexus-pre/peak.h:71-72 | an offset is selected iff it was scanned and its score is at least `scoreLimit` |
| Peak.SelectedPasses | nexus-pre/peak.h:71-72 | entry `start + k` is selected iff its wrapped window score reaches the limit |
| Peak.SelectedIncreasing | nexus-pre/peak.h:69-73 | candidates come in range order, none twice |
| Peak.CandidatesAreSelected | nexus-pre/peak.h:72 | each candidate is the decoded position of the selected entry with the same index |
| Peak.CollectForwardCandidates | nexus-pre/peak.h:65-74 | the vector ends as its old contents followed by the candidates of the range |
| Peak.CenterWithin | nexus-pre/peak.h:38 | the centre passes its own test (distance 0), so the left walk always counts it |
| Peak.NeighbourOnOtherChromosome | nexus-pre/peak.h:46-47 | an entry on another chromosome right before the centre (after `startIt`) or right after it makes the score 0 |
| Peak.WholeRangeScore | nexus-pre/peak.h:38-62 | when every entry after `startIt` is on the centre's chromosome within the width, the score is the signed counts after `startIt` through the centre minus those after the centre |
| FilePaths.GetFilePath | nexus-pre/nexus-pre.cpp:101-107 | the path is shorter than the name, or empty |
| FilePaths.FilePathSplits | nexus-pre/nexus-pre.cpp:101-107 | empty iff no separator follows the first character; otherwise the name up to its last separator, exclusive |
| FilePaths.GetFilePrefix | nexus-pre/nexus-pre.cpp:109-120 | the prefix is never longer than the name |
| FilePaths.PrefixDropsExtension | nexus-pre/nexus-pre.cpp:111-118 | with the default `withPath`: empty without a '.', else everything before the last '.' |
| FilePaths.PrefixWithoutPath | nexus-pre/nexus-pre.cpp:113-119 | with `withPath` false: from after the last separator through the last '.', which is kept; to the end when the separator comes after the '.' |
| FilePaths.PrefixIsSubstr | nexus-pre/nexus-pre.cpp:119 | that result is `substr(sep + 1, dot - sep)` with the count wrapped as `size_t` |
| FilePaths.PrefixWithoutSeparator | nexus-pre/nexus-pre.cpp:113-118 | without a separator, `withPath` makes no difference |
| Dedup.Insert | nexus-pre/nexus-pre.cpp:268-270 | the insert succeeds iff no equivalent key was inserted before, and then the key is added |
| Dedup.SeenAtSamePosition | nexus-pre/nexus-pre.cpp:268-273 | a rejected key has the position of a key already in the set |
| SortedMap.IncrementProperties | nexus-pre/nexus-pre.cpp:277-280 | `++m[k]` keeps the map sorted, adds k to its keys, raises k's count by one and no other, and the total by one |
| SortedMap.TouchProperties | 5PrimeEndCounter/5PrimeEndCounter.cpp:218-220 | a read through `m[k]` adds k to the keys (with count 0 when new), keeps the map sorted, and changes no count and not the total |
| PairCounts.PutCounts | test-app/test-app.cpp:216-225 | storing a pair keeps the map sorted, changes only that key's pair, and updates each column's total by the difference |
| PairCounts.Projections | test-app/test-app.cpp:245-253 | the `.first` and `.second` columns are sorted maps with the same keys, read through the pairs |
| DuplicationRate.BumpAt | nexus-pre/nexus-pre.cpp:359-361 | one step grows the vector to `v` entries when shorter and increments entry `v-1` only |
| DuplicationRate.HistogramCounts | nexus-pre/nexus-pre.cpp:321-322 | the histogram is as long as the largest count, and entry `k-1` is the number of positions with count k |
| DuplicationRate.MaxOfBounds | nexus-pre/nexus-pre.cpp:359-360 | the largest count bounds every count and is one of them |
| DuplicationRate.HistogramMoment | nexus-pre/nexus-pre.cpp:384-393 | weighing entry i by `a*i + b` sums `a*(k-1) + b` over the counts k |
| DuplicationRate.Tally | nexus-pre/nexus-pre.cpp:359-361 | the `resize` and `++` of one map entry compute one bump |
| DuplicationRate.BuildHistogram | nexus-pre/nexus-pre.cpp:366-372 | the `for_each` builds the histogram of the map's counts in key order |
| DuplicationRate.SamePositionReads | nexus-pre/nexus-pre.cpp:384-394 | the unique histogram is padded to `maxLen`, and the total adds `i * duplicationRate[i]` for i ≥ 1 |
| DuplicationRate.SumOfValues | nexus-pre/nexus-pre.cpp:321-322 | the counts of a map add up to its total |
| DuplicationRate.MaxOfDominated | nexus-pre/nexus-pre.cpp:384 | a map that never counts more at a position has a largest count that is no larger |
| DuplicationRate.DominatedHistograms | nexus-pre/nexus-pre.cpp:359-393 | with 1 ≤ unique ≤ total per position, the unique histogram is no longer, each holds its map's total, and the reads beyond the first number the total minus the positions |
| NexusPre.OutputName | nexus-pre/nexus-pre.cpp:213-235 | exit 1 unless one or two files are given; the second file names the output, else the first argument's prefix plus "_filtered" |
| NexusPre.Step | nexus-pre/nexus-pre.cpp:258-282 | one read is always counted; the run stops only for a mapped read whose barcode key cannot be built |
| NexusPre.StepInv | nexus-pre/nexus-pre.cpp:258-282 | each pass keeps: same keys in both maps, 1 ≤ unique ≤ total per position, Σtotal = mapped, Σunique + removed = mapped = written + removed |
| NexusPre.RemovedInv | nexus-pre/nexus-pre.cpp:270-273 | the rejected-insert branch (read counted as removed, and only in the total map) keeps the invariant |
| NexusPre.WrittenInv | nexus-pre/nexus-pre.cpp:274-280 | the accepted-insert branch (read written and counted in both maps) keeps the invariant |
| NexusPre.RunInv | nexus-pre/nexus-pre.cpp:258-282 | the invariant holds after the whole file |
| NexusPre.RunCounts | nexus-pre/nexus-pre.cpp:261-264 | every read is counted, and as mapped exactly those with flag 0x00 or 0x10 |
| NexusPre.RunAbortsFor | nexus-pre/nexus-pre.cpp:265 | once the barcode constructor has thrown, the run stays aborted |
| NexusPre.AddMappedRead | nexus-pre/nexus-pre.cpp:264-280 | the loop body for a mapped read is the specified step |
| NexusPre.FilterRead | nexus-pre/nexus-pre.cpp:260-281 | one pass of the loop is the specified step: the read is counted, and the pass fails exactly for a mapped read whose barcode key cannot be built |
| NexusPre.FilterDuplicates | nexus-pre/nexus-pre.cpp:258-282 | the loop computes the run over the reads |
| NexusPre.AfterFiltering | nexus-pre/nexus-pre.cpp:290-394 | from the state after the loop: the filtered reads are the written ones, `filtered2` the kept ones when filtering and none otherwise, the statistics the state's with `readsAfterFiltering` = kept reads and `totalSamePositionReads` = mapped − positions, the total and (zero-padded) unique histograms, and the BED lines of the unique map when enabled |
| NexusPre.KeptExactly | nexus-pre/nexus-pre.cpp:304-311 | a read is kept iff it is in the file and its position holds at least `clusterSize` unique reads |
| NexusPre.ClusterFilter | nexus-pre/nexus-pre.cpp:302-313 | writes the kept reads in order, and `readsAfterFiltering` grows by their number |
| NexusPre.BedOfRead | nexus-pre/nexus-pre.cpp:341-356 | a forward read's line is [p, p+1) named with the count; a reverse read's is [p-1, p) named with the negated count |
| NexusPre.BedLinesShape | nexus-pre/nexus-pre.cpp:339-358 | every line spans one base, forward names are non-negative, and each entry goes to exactly one strand file |
| NexusPre.ScanUniqueMap | nexus-pre/nexus-pre.cpp:337-362 | the pass writes each entry's line to its strand's file when enabled and builds the unique histogram |
| NexusPre.Histograms | nexus-pre/nexus-pre.cpp:359-393 | after the loop the histograms can be built, the unique one is no longer, they hold the mapped and the kept reads, and the same-position reads are mapped minus positions |
| NexusPre.Process | nexus-pre/nexus-pre.cpp:258-394 | nexus-pre's outputs: written and kept reads; the statistics are the run's, with `totalReads` = the number of reads, except the computed `readsAfterFiltering` (= kept reads) and `totalSamePositionReads` = mapped − positions; `duplicationRate` is the histogram of the per-position counts and `duplicationRateUnique` that of the unique counts, padded with zeros to the same length; the forward and reverse BED lines are those of the unique map when BED output is on, otherwise none |
| TestApp.InputFiles | test-app/test-app.cpp:153-172 | exit 1 with `--help` or fewer than two input files; else the first two files |
| TestApp.CountTag | test-app/test-app.cpp:199-208 | an XM tag of 0 counts as unmappable, any other value as ambiguous; nothing else changes |
| TestApp.Step | test-app/test-app.cpp:195-226 | one read is always counted; the run stops only where the barcode key cannot be built |
| TestApp.StepInv | test-app/test-app.cpp:212-225 | each pass keeps 1 ≤ `.second` ≤ `.first` per position, Σ`.first` = mapped, Σ`.second` + removed = mapped = written + removed |
| TestApp.TaggedInv | test-app/test-app.cpp:198-208 | the XM counters and the read count do not affect the invariant |
| TestApp.RemovedInv | test-app/test-app.cpp:216-218 | the rejected-insert branch (pair created if needed, only `.first` raised) keeps the invariant |
| TestApp.WrittenInv | test-app/test-app.cpp:216-225 | the accepted-insert branch (read written, both columns raised) keeps the invariant |
| TestApp.RunInv | test-app/test-app.cpp:195-226 | the invariant holds after the whole file |
| TestApp.RunCounts | test-app/test-app.cpp:198-212 | every read is counted; mapped = flag 0x00/0x10; the XM counters count tags of 0 and other tags whatever the flag |
| TestApp.RunAbortsFor | test-app/test-app.cpp:213 | once the barcode constructor has thrown, the run stays aborted |
| TestApp.AddMappedRead | test-app/test-app.cpp:212-225 | the loop body for a mapped read is the specified step |
| TestApp.FilterRead | test-app/test-app.cpp:197-225 | one pass of the loop is the specified step: the read and its XM tag are counted, and the pass fails exactly for a mapped read whose barcode key cannot be built |
| TestApp.FilterDuplicates | test-app/test-app.cpp:195-226 | the loop computes the run over the reads |
| TestApp.AfterFiltering | test-app/test-app.cpp:233-275 | from the state after the loop: the filtered reads are the written ones, the statistics the state's with `totalSamePositionReads` = mapped − positions, `duplicationRate` the histogram of the `.first` column and `duplicationRateUnique` that of `.second` padded with zeros to the same length |
| TestApp.BuildHistograms | test-app/test-app.cpp:245-253 | one pass builds the histograms of the `.second` and the `.first` column |
| TestApp.ForEachCount | test-app/test-app.cpp:245-253 | the pass over both columns at once, with both indices `count - 1` in range |
| TestApp.Histograms | test-app/test-app.cpp:245-271 | the unique histogram is no longer than the total one, they hold the mapped and the kept reads, and the same-position reads are mapped minus positions |
| TestApp.Process | test-app/test-app.cpp:195-275 | test-app's outputs: statistics of the run with `totalSamePositionReads` = mapped − positions; `duplicationRate` is the histogram of the per-position read counts and `duplicationRateUnique` that of the kept counts, padded with zeros to the same length |
| Ting.OutputName | ting/ting.cpp:154-169 | exit 1 without input; the second argument when two are given; else the first argument's prefix plus "_candidateScores" |
| Ting.PositionsOf | ting/ting.cpp:193-202 | the positions are exactly those of the reads |
| Ting.CountReadInv | ting/ting.cpp:196-201 | one read raises `totalReads`, is a same-position read iff its key was seen, adds its key, and keeps the invariant (`.first` = 0, `.second` ≥ 1, Σ`.second` = reads) |
| Ting.CountAllInv | ting/ting.cpp:193-202 | after all reads the map holds exactly their positions and `samePositionReads` = reads − distinct positions |
| Ting.CountPositions | ting/ting.cpp:193-202 | the loop computes the specified counting |
| Ting.DecodeCountedRead | ting/ting.cpp:129-141 | a counted read's entry decodes to its chromosome, 5' end and strand |
| Ting.DecodersOnSecond | ting/ting.cpp:124-141 | ting's decoders agree with nexus-pre's on the `.second` column |
| FivePrimeEndCounter.FilteredName | 5PrimeEndCounter/5PrimeEndCounter.cpp:144-160 | exit 1 without a BED file; else the first argument's prefix plus "_filtered" |
| FivePrimeEndCounter.AllButLast | 5PrimeEndCounter/5PrimeEndCounter.cpp:102-106 | the counted reads are all but the last |
| FivePrimeEndCounter.ProcessBamFile | 5PrimeEndCounter/5PrimeEndCounter.cpp:95-131 | `processBamFile` counts every read but the last into the map and statistics it is given |
| FivePrimeEndCounter.ProcessRecord | 5PrimeEndCounter/5PrimeEndCounter.cpp:107-129 | one read: filtered chromosome only counted as filtered; XM counted; flag 0x00/0x10 counted as mapped at its key |
| FivePrimeEndCounter.CountAllInv | 5PrimeEndCounter/5PrimeEndCounter.cpp:107-129 | counting keeps Σcounts = mapped and mapped + filtered ≤ total, counts every read, and leaves the other counters alone |
| FivePrimeEndCounter.ProcessFromStart | 5PrimeEndCounter/5PrimeEndCounter.cpp:102-130 | from empty statistics: total = reads − 1, Σcounts = mapped ≤ total − filtered |
| FivePrimeEndCounter.IndexOf | 5PrimeEndCounter/5PrimeEndCounter.cpp:196-203 | -1 iff the name is missing; else the first index holding it |
| FivePrimeEndCounter.FindChromosome | 5PrimeEndCounter/5PrimeEndCounter.cpp:196-202 | the loop with its early `break` finds that index |
| FivePrimeEndCounter.Plus | 5PrimeEndCounter/5PrimeEndCounter.cpp:218-220 | both columns are added |
| FivePrimeEndCounter.PlusAll | 5PrimeEndCounter/5PrimeEndCounter.cpp:218-220 | two tables add entry by entry |
| FivePrimeEndCounter.EmptyTable | 5PrimeEndCounter/5PrimeEndCounter.cpp:180 | `hits` starts as `2 * radius + 1` zero pairs |
| FivePrimeEndCounter.AddedWindow | 5PrimeEndCounter/5PrimeEndCounter.cpp:209-223 | a window keeps the table's length |
| FivePrimeEndCounter.WindowIndices | 5PrimeEndCounter/5PrimeEndCounter.cpp:209-223 | index j adds the forward and reverse counts at `start - radius + j`, nothing below position 0 |
| FivePrimeEndCounter.WindowSameCounts | 5PrimeEndCounter/5PrimeEndCounter.cpp:218-220 | maps with the same counts give the same window, so inserted zero entries change nothing |
| FivePrimeEndCounter.PartWindowStep | 5PrimeEndCounter/5PrimeEndCounter.cpp:215-223 | one step adds index `p - start + radius` |
| FivePrimeEndCounter.PartWindowStart | 5PrimeEndCounter/5PrimeEndCounter.cpp:209-214 | the start index `radius - start` (or 0) skips only indices that add nothing |
| FivePrimeEndCounter.PartWindowEnd | 5PrimeEndCounter/5PrimeEndCounter.cpp:215 | at `start + radius` the whole window is added, the index ending at 2·radius |
| FivePrimeEndCounter.TouchBoth | 5PrimeEndCounter/5PrimeEndCounter.cpp:217-220 | the two lookups read the original counts and change none |
| FivePrimeEndCounter.AddWindow | 5PrimeEndCounter/5PrimeEndCounter.cpp:208-223 | the loop adds the window into `hits` in place; the map gains keys but no count changes |
| FivePrimeEndCounter.AddedWindowShift | 5PrimeEndCounter/5PrimeEndCounter.cpp:218-220 | adding a window commutes with adding a table |
| FivePrimeEndCounter.AfterPeaks | 5PrimeEndCounter/5PrimeEndCounter.cpp:194-224 | the peaks of a file keep the table's length |
| FivePrimeEndCounter.AfterPeaksKnown | 5PrimeEndCounter/5PrimeEndCounter.cpp:203-207 | a file succeeds iff every peak's chromosome is in the header |
| FivePrimeEndCounter.AfterPeaksAdds | 5PrimeEndCounter/5PrimeEndCounter.cpp:194-224 | a file's peaks add the same table to whatever `hits` holds |
| FivePrimeEndCounter.UnknownStops | 5PrimeEndCounter/5PrimeEndCounter.cpp:203-207 | after an unknown chromosome the file fails whatever follows |
| FivePrimeEndCounter.AfterFiles | 5PrimeEndCounter/5PrimeEndCounter.cpp:185-238 | the files keep the table's length |
| FivePrimeEndCounter.AfterFilesAccumulates | 5PrimeEndCounter/5PrimeEndCounter.cpp:180-238 | `hits` is never reset: the table after file k is the table after file k-1 plus file k's own windows |
| FivePrimeEndCounter.FailedFileStops | 5PrimeEndCounter/5PrimeEndCounter.cpp:206 | once a file fails, the run fails |
| FivePrimeEndCounter.TableName | 5PrimeEndCounter/5PrimeEndCounter.cpp:227 | the table file is the BED file's prefix plus "_5PrimeEnds.tab" |
| FivePrimeEndCounter.RowLabels | 5PrimeEndCounter/5PrimeEndCounter.cpp:234-236 | rows are labelled −radius … +radius one by one, the peak's row is 0, and each carries its pair |
| FivePrimeEndCounter.WriteTable | 5PrimeEndCounter/5PrimeEndCounter.cpp:234-237 | the write loop produces those rows |
| FivePrimeEndCounter.WrittenAfterSnoc | 5PrimeEndCounter/5PrimeEndCounter.cpp:185-238 | writing the next file's table keeps the tables in step with the files |
| FivePrimeEndCounter.AddFilePeaks | 5PrimeEndCounter/5PrimeEndCounter.cpp:194-224 | the peak loop succeeds iff all chromosomes are known, and then `hits` holds the file's table |
| FivePrimeEndCounter.CountAroundPeaks | 5PrimeEndCounter/5PrimeEndCounter.cpp:180-238 | exit 0 iff every peak of every file names a known chromosome, else -1; one table per file, each accumulating all files so far; on -1 the failing file's table is not written |
| FivePrimeEndCounter.ArgumentValue | 5PrimeEndCounter/5PrimeEndCounter.cpp:41-43 | value `valNo` of argument `argNo` exists iff `argNo` is 0 (the only declared argument, the BED list) and `valNo` is below the number of files; it is that file |
| FivePrimeEndCounter.FilesAsWritten | 5PrimeEndCounter/5PrimeEndCounter.cpp:185-238 | the file loop as written, naming file k by argument position k: at most one table per remaining file, and exactly one per file when the loop finishes |
| FivePrimeEndCounter.AsWrittenStopsAtSecondFile | 5PrimeEndCounter/5PrimeEndCounter.cpp:185-188 | with two or more files whose first has only known chromosomes, the loop as written writes the first file's table and then fails the argument check |
| FivePrimeEndCounter.AsWrittenOneFile | 5PrimeEndCounter/5PrimeEndCounter.cpp:185-238 | with one file the loop as written finishes iff the loop over all files succeeds, writing the same table, and otherwise stops on the unknown chromosome with no table |
| MappingAnalyzer.GetFilename | MappingAnalyzer/MappingAnalyzer.cpp:112-118 | the result is shorter than the name and holds no separator |
| MappingAnalyzer.FilenameSplits | MappingAnalyzer/MappingAnalyzer.cpp:112-118 | empty without a separator (not the whole name); else what follows the last separator, path + separator + name giving back the whole |
| MappingAnalyzer.GetReadId | MappingAnalyzer/MappingAnalyzer.cpp:120-127 | the id holds no ':' and is shorter than the name; "" when the name has no ':' or no '.' |
| MappingAnalyzer.ReadIdRoundTrip | MappingAnalyzer/MappingAnalyzer.cpp:120-127 | an id without '.' or ':' placed between the first '.' and the first ':' is read back |
| MappingAnalyzer.ReadIdEmpty | MappingAnalyzer/MappingAnalyzer.cpp:124-125 | "" when a ':' comes before any '.' |
| MappingAnalyzer.OutputNames | MappingAnalyzer/MappingAnalyzer.cpp:141-156 | exit 1 with fewer than two files; the `-o` value or else the first argument's prefix names the consensus file; the statistics file always uses the prefix |
| MappingAnalyzer.Emplace | MappingAnalyzer/MappingAnalyzer.cpp:201 | `emplace` stores the 5' end only when the id is not stored yet |
| MappingAnalyzer.FirstIdsKeys | MappingAnalyzer/MappingAnalyzer.cpp:199-204 | an id is stored iff some passed read has it |
| MappingAnalyzer.FirstIdsFirst | MappingAnalyzer/MappingAnalyzer.cpp:201 | the stored end of an id is that of its first read |
| MappingAnalyzer.FirstIdsGrow | MappingAnalyzer/MappingAnalyzer.cpp:201 | a stored end is never overwritten by later reads |
| MappingAnalyzer.PullStores | MappingAnalyzer/MappingAnalyzer.cpp:199-204 | the inner loop stores and counts exactly the reads it passes, each not after the file-1 read, and stops at the end of file 2 or the first later read |
| MappingAnalyzer.StepInv | MappingAnalyzer/MappingAnalyzer.cpp:191-211 | an outer pass counts the file-1 read, writes it iff its id is stored with its own 5' end, and keeps the invariant |
| MappingAnalyzer.JoinAllInv | MappingAnalyzer/MappingAnalyzer.cpp:188-212 | after the loop the invariant holds and file 1 or file 2 is at its end; the priming read is not counted |
| MappingAnalyzer.JoinStopped | MappingAnalyzer/MappingAnalyzer.cpp:189 | once file 2 is at its end, further file-1 reads change nothing |
| MappingAnalyzer.PullReads | MappingAnalyzer/MappingAnalyzer.cpp:199-204 | the inner loop computes the specified pull |
| MappingAnalyzer.JoinFiles | MappingAnalyzer/MappingAnalyzer.cpp:188-212 | the nested loops compute the specified join |
| GeneralStats.Resize | flexcat/general_stats.h:29 | `resize(n)` keeps the first entries and pads with the fill value |
| GeneralStats.Zeros | flexcat/general_stats.h:95-96 | n zero counters |
| GeneralStats.AddCounts | flexcat/general_stats.h:44-45 | the addition loop changes no entry at or beyond the other's length |
| GeneralStats.MergeCounts | flexcat/general_stats.h:40-46 | `numRemoved` grows to the longer length, and entry j becomes the wrapped sum of both, zero past an end |
| GeneralStats.MergeRows | flexcat/general_stats.h:26-38 | `removedLength` grows to the other's row count; rows the other has are merged, others kept |
| GeneralStats.Merge | flexcat/general_stats.h:21-48 | `+=` takes the min of the minima, the max of the maxima, and the wrapped sum of `overlapSum` |
| GeneralStats.MergeCountsEmpty | flexcat/general_stats.h:40-46 | merging with an empty vector, either side, changes nothing |
| GeneralStats.MergeCountsCommutes | flexcat/general_stats.h:40-46 | merging counter vectors does not depend on the order |
| GeneralStats.MergeFresh | flexcat/general_stats.h:18-48 | a fresh stats is a unit of `+=` on both sides |
| GeneralStats.MergeCommutes | flexcat/general_stats.h:21-48 | `a += b` and `b += a` give the same stats |
| GeneralStats.MergeCleared | flexcat/general_stats.h:49-60 | adding cleared stats changes no sum or bound, pads `numRemoved` with zeros, and still adds the kept `removedLength` |
| GeneralStats.AddInto | flexcat/general_stats.h:44-45 | the addition loop computes the entrywise wrapped sum |
| GeneralStats.MergeCountsInto | flexcat/general_stats.h:40-46 | the `numRemoved` block computes the merge |
| GeneralStats.MergeRowsInto | flexcat/general_stats.h:26-38 | the `removedLength` block computes the row merge |
| GeneralStats.ZeroAll | flexcat/general_stats.h:54-59 | the iterator loop zeroes every counter and keeps the length |
| GeneralStats.AdapterTrimmingStats.constructor | flexcat/general_stats.h:18-19 | no sum, minimum `UINT_MAX`, maximum 0, no vectors |
| GeneralStats.AdapterTrimmingStats.Add | flexcat/general_stats.h:21-48 | the new stats are the merge of the old ones with the other's |
| GeneralStats.AdapterTrimmingStats.Clear | flexcat/general_stats.h:49-60 | sums and bounds reset, `numRemoved` zeroed in place, `removedLength` kept |
| GeneralStats.AddCounters | flexcat/general_stats.h:107-112 | each counter is the sum wrapped at its own width (`unsigned long` for `uncalledBases`) |
| GeneralStats.AddCountersUnit | flexcat/general_stats.h:107-112 | counter addition commutes and zero counters add nothing |
| GeneralStats.GeneralStats.constructor | flexcat/general_stats.h:92 | all counters 0, no barcode counters, a fresh adapter stats |
| GeneralStats.GeneralStats.Sized | flexcat/general_stats.h:93-97 | N zero barcode counters and `numAdapters` zero adapter counters |
| GeneralStats.GeneralStats.Clear | flexcat/general_stats.h:79-90 | counters 0, barcode counters zeroed keeping their length, adapter stats cleared |
| GeneralStats.GeneralStats.Add | flexcat/general_stats.h:105-121 | counters added; barcode counters resized to the other's length, then combined by the vector `+`; adapter stats merged in place |

## Left out

- SeqAn and file I/O is not modelled: opening, `readRecord`, `writeRecord`, headers, `contigNames`, `fstream` output and the BED reader. Records are a sequence, and written files are appended sequences.
- The argument parsers are parameters: the file list, the `-o` value and `argv[1]`.
- Timing, `printStatistics` and the progress output are not modelled.
- Floating-point fields are not modelled: `processTime`, `readTime` and `writeTime` in flexcat's statistics, and ting's double options.
- Helpers whose bodies are not in these files are function parameters:
  - `BamRecordKey::init`/`get5EndPosition` is `reverseKey` in 5PrimeEndCounter and `fivePrimeEnd` in MappingAnalyzer;
  - `lessEqualWithoutStrand` is `lessEqual`;
  - the vector `operator+` of flexcat is `vectorPlus`;
  - `calculateChromosomeFilter` is the filter set;
  - `findTagKey`/`extractTagValue` are the record's optional XM value.
- The `std::set` under the barcode comparator is modelled as "an equivalent key was inserted before". That comparator is not a strict weak ordering, so what `std::set` actually does is undefined.
- ting's ratio-tolerance candidate search is not part of this model; neither is nexus-pre's peak calling after the histograms, `forwardCandidatesToBed`, nor the sort option.
- flexcat/produce_transform_consume.h is not part of this model: its point is thread synchronisation.
- readsim and the Python scripts are not part of this model.
- test-app writes its de-duplicated reads to a file named by an `outFilename` that is never assigned; file names of written BAM files are not modelled, only their contents.
- The counting tools' counters and map values are unbounded `nat`s, not 32-bit `unsigned`s. This covers nexus-pre, test-app, ting, 5PrimeEndCounter's map and `hits`, and MappingAnalyzer's statistics. Their wrap-around past 2^32-1 reads is not modelled. flexcat's counters and nexus-pre's `-static_cast<int32_t>` of a count do wrap.
- FivePrimeEndCounter.AfterFiles: models file k as the k-th value of the BED-file argument, the evidently intended reading; the source as written reaches only the first file (see Findings).
- FivePrimeEndCounter.AfterFilesAccumulates: states accumulation over every file, which only the intended reading of line 188 reaches (see Findings).
- FivePrimeEndCounter.WrittenAfterSnoc: ties table k to file k for every k, as in the intended reading of line 188 (see Findings).
- FivePrimeEndCounter.CountAroundPeaks: reads file k as the k-th value of the BED-file argument, the evidently intended reading; `FilesAsWritten` models line 188 as written (see Findings).
- FivePrimeEndCounter.CountAroundPeaks: requires each peak's window to stay inside `int32` (`InRange`), `radius < 2^31 - 1` so that `2 * radius + 1` does not wrap, and fewer than 2^31 chromosomes. The source does not check these.
- FivePrimeEndCounter.CountAroundPeaks: the BED fourth column and the peak's end are read but unused, so they are not modelled.
- MappingAnalyzer.JoinFiles: an empty second BAM file, whose priming `readRecord` would fail, is modelled as an immediately finished join.
- MappingAnalyzer.JoinAllInv: stated for any read-id function. The methods use `getReadId` of the read name.
- GeneralStats.AdapterTrimmingStats.Add: the other stats are read as they were on entry. The source reads each entry of `rhs` before writing that entry, so `a += a` agrees. The `TLen` loop counters, which would not terminate beyond 2^32-1 entries, are not modelled.
- GeneralStats.AddCounters: `uncalledBases` is an `unsigned long`, modelled as 64 bits (LP64 platforms); under MSVC it is 32 bits and wraps at 2^32.
- GeneralStats.GeneralStats: the adapter statistics are held through a reference, where the C++ class holds them by value, so two objects of the model may share one. `Add` reads `rhs` before writing, so its contract holds under sharing too; sharing itself is not ruled out.
- GeneralStats.GeneralStats.Add: the vector `+` is a parameter, so the contract states only what is passed to it.
- BamRecordKey.BarcodeKeyOf: the name must be shorter than `npos`. No `std::string` can be longer.

## Findings

| source | as written | input that shows it | evidently intended | confidence | as-written member | corrected member |
|---|---|---|---|---|---|---|
| 5PrimeEndCounter/5PrimeEndCounter.cpp:188 | file k is named by `getArgumentValue(fileName_, parser, fileIndex, 0)`, value 0 of argument position `fileIndex`, while lines 41-43 declare one argument (the BED list) and line 144 counts its values | two BED files whose chromosomes are all known: the first file's table is written, then iteration 1 asks for argument position 1, which fails SeqAn's argument check; the second file is never read | `getArgumentValue(fileName_, parser, 0, fileIndex)`, as ting, nexus-pre and MappingAnalyzer read their file lists: every file is read in turn into the same `hits` | not executed; high | FivePrimeEndCounter.AsWrittenStopsAtSecondFile | FivePrimeEndCounter.CountAroundPeaks |
