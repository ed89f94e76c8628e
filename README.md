# atac-diverge core, modelled in Dafny

The atac-diverge scripts compare chromatin accessibility (ATAC-seq peaks)
across ten human populations of the 1000 Genomes panel. They link the peaks to
nearby variants and genes. This project models the text-processing core of
seven of those scripts. Each is a Dafny module, in a file of its own:

- `peak_merge.dfy` (`PeakMerge`) models `bin/peak_merge.py`:
  - the bed reader and its file-type dispatch on whole name parts;
  - the pre-pass that totals each population's reads and normalises them to shares;
  - the sweep that merges overlapping peaks into clusters, with its statistics;
  - the `Cluster` object, which is a Dafny class;
  - the rows written for clusters and for per-population reads and heights.
- `peak_to_rsid.dfy` (`PeakToRsid`) models `bin/peak_to_rsid.py`:
  - `closest_dist`, and the recursive binary search `search_closest` as written;
  - `load_snps`, which groups by chromosome and sorts each group;
  - the main loop, which draws the closest variant of each peak without replacement.
- `correlate_peak_expr.dfy` (`CorrelatePeakExpr`) models
  `bin/correlate_peak_expr.py`:
  - `load_tsss`;
  - the forward and backward scans of `peak_to_tss` around the closest TSS;
  - `pop_expr`.
- `gtf_to_tss.dfy` (`GtfToTss`) models `bin/gtf_to_tss.py`:
  - `parse_meta`;
  - the line loop, which carries the last transcript to its start codon.
- `ensid_to_pop_peaks.dfy` (`EnsidToPopPeaks`) models
  `bin/ensid_to_pop_peaks.py`:
  - the three loaders;
  - the report loop.
- `diff_expr.dfy` (`DiffExpr`) models `load_col` and `load_expr` of
  `bin/diff_expr.py`.
- `compare_pops.dfy` (`ComparePops`) models `iter_peaks` of
  `bin/compare_pops.py`. It reads back the per-population tables that the
  merge writes.
- `text.dfy` (`Text`) models the Python string operations the scripts use:
  - `split`, `split()`, `join`, `rstrip`, `strip`, `replace` and `startswith`;
  - `int()`, `float()` and `str()` on integers;
  - the order `sorted` uses on strings;
  - reading a file line by line. Each line is read in turn, and the first
    exception stops the reading.
- `wrappers.dfy` (`Wrappers`) holds `Option`, `Result` and the Python
  exceptions. Examples are `KeyError`, `ValueError`, `IndexError`,
  `AssertionError`, `ZeroDivisionError`, `StopIteration` and `NameError`.

How the Python becomes Dafny:

- **Exceptions.** A Python exception is an `Err` result. Where it matters, the
  model raises the same exception, in the same order, for the same inputs.
- **File contents.** A file is its sequence of lines. Printed output is the
  sequence of rows printed.
- **Dictionaries and lists.** A dictionary or list that a loop builds is a
  `map` or `seq`. The loop is a method with a `while` loop, proved against a
  left-recursive function of the lines read so far.
- **Floats.** Python floats are `real`. Integers are unbounded, as in Python.
- **Globals.** The global `pop_to_total_reads` is passed as an explicit
  parameter.
- **Comments versus code.** Where the code's comments and the code disagree,
  the code is modelled:
  - `search_closest` is described as returning the closest element. The code
    breaks ties towards the upper element. On a range of two it returns the
    upper element for any query from the lower element up to the upper one
    (`PeakToRsid.SearchPairPrefersUpper`). So it can return an entry that is
    not the nearest (`PeakToRsid.SearchNotNearest`). What it always returns is
    a neighbour of the query (`PeakToRsid.SearchNeighbour`).
  - The merge loop tests an overlap with the prior peak as
    `peak.start < prior.end - offset`. The final test after the loop is
    `peak.start - offset < prior.end`, which is more generous. Both are kept
    as written.
  - The forward TSS scan tests `tss - middle <= DIST_CUTOFF` without `abs`.
    So a TSS far before the middle is still reported when it is the closest
    entry (`CorrelatePeakExpr.ForwardOneSided`).
  - `replace('chr', '')` removes every occurrence. `load_snps` and
    `peak_to_tss` drop only one leading `chr`.

## Model

| member | source | states |
|---|---|---|
| PeakMerge.AllPopsSorted | bin/peak_merge.py:47-50 | there are ten populations, in strictly increasing order, all distinct |
| PeakMerge.OverlapOf | bin/peak_merge.py:67-70 | the overlap is the given float, or 0.75 when none is given |
| PeakMerge.PopOf | bin/peak_merge.py:379 | a peak's population is the prefix of its sample name before the first `_`, or the whole name |
| PeakMerge.ParseBedFieldsSpec | bin/peak_merge.py:370-383 | nine fields make a peak exactly when start, end, fold, log10p, read count and height convert; the peak takes chromosome, coordinates, population, fold, log10p, reads and height from fields 0, 1, 2, 3, 6, 7, 4 and 8 |
| PeakMerge.ParseBedLineSpec | bin/peak_merge.py:422-427 | a bed line yields a peak exactly when it splits on tabs into exactly nine fields that convert, and the peak is read from those fields |
| PeakMerge.ParseBedJoin | bin/peak_merge.py:425 | nine tab-free columns joined by tabs split back into the same columns |
| PeakMerge.InNameJoin | bin/peak_merge.py:430-450 | `in_name` matches every whole `.`-separated part of a name |
| PeakMerge.InNameNested | bin/peak_merge.py:435 | `bed` matches a name where it is a middle part, as in `x.bed.gz` |
| PeakMerge.InNameLast | bin/peak_merge.py:435 | `bed` matches `bob.bed` |
| PeakMerge.InNameWholePart | bin/peak_merge.py:436 | `bed` does not match `file.bedfile`, because parts match whole |
| PeakMerge.ParserFor | bin/peak_merge.py:396-412 | a parser is found exactly for standard input or a name with a whole `bed` part; any other name raises `Unknown file type` with that name |
| PeakMerge.ParserForExamples | bin/peak_merge.py:400-409 | standard input and `bob.bed` get the bed parser, `file.bedfile` is refused |
| PeakMerge.ReadTotalsSpec | bin/peak_merge.py:84-85 | the pre-pass succeeds exactly when every line parses and names one of the ten populations, and then gives each population the sum of its peaks' read counts |
| PeakMerge.CountReads | bin/peak_merge.py:84-85 | the imperative pre-pass computes `ReadTotals` |
| PeakMerge.Normalised | bin/peak_merge.py:88-90 | the normalised table keeps exactly the ten populations as keys |
| PeakMerge.NormalisedSumsToOne | bin/peak_merge.py:88-90 | after dividing by the total, the ten shares sum to exactly 1 in exact arithmetic; the program's float shares need not |
| PeakMerge.NormaliseTotals | bin/peak_merge.py:88-90 | the imperative normalisation computes `Normalised`, raising `ZeroDivisionError` when there are no reads at all |
| PeakMerge.DivideAll | bin/peak_merge.py:89-90 | the division loop gives each population its reads over the total |
| PeakMerge.NewCluster | bin/peak_merge.py:256-277 | a new cluster has a read list and a maximum height for each of the ten populations |
| PeakMerge.NewClusterWellFormed | bin/peak_merge.py:256-277 | a new cluster is well formed and holds exactly its first peak: name `chrom_start`, its coordinates, `len == start - end`, one population, count 1, its height ratio for its population and zero for the rest, its read count |
| PeakMerge.AddPeak | bin/peak_merge.py:279-297 | adding a peak keeps an entry for each of the ten populations |
| PeakMerge.AddPeakKeeps | bin/peak_merge.py:279-297 | `add` keeps the name, chromosome and start, and every other population's height and reads; the end becomes the larger of the old end and the peak's, the peak's population gets its read count appended, and its height is at least both the old height and the peak's ratio |
| PeakMerge.AddPeakWellFormed | bin/peak_merge.py:279-297 | adding a peak to a well-formed cluster keeps it well formed, with the peak appended and name, chromosome and start unchanged |
| PeakMerge.MaxEndSpec | bin/peak_merge.py:285 | the cluster's end is the largest end among its peaks |
| PeakMerge.PairwiseAverageOrder | bin/peak_merge.py:289-291 | the fold change and log10p are running pairwise averages, not means, and depend on the peaks' order: 1, 2, 3 give 2.25 and 3, 2, 1 give 1.75 |
| PeakMerge.MaxHeightSpec | bin/peak_merge.py:272-275 | a population's recorded height is at least the ratio of each of its peaks, and is one of those ratios or zero |
| PeakMerge.Cluster.constructor | bin/peak_merge.py:256-277 | the object's fields are those of `NewCluster` |
| PeakMerge.Cluster.Add | bin/peak_merge.py:279-297 | the object's fields after `add` are those of `AddPeak` on its fields before |
| PeakMerge.SumMapTally | bin/peak_merge.py:141-144 | recording one more cluster of size k raises the size-weighted sum of the histogram by k |
| PeakMerge.SumMapSizes | bin/peak_merge.py:237-241 | the `Total clustered` figure, the sum of size times number over the histogram, equals the sum of the written clusters' counts |
| PeakMerge.SeedCluster | bin/peak_merge.py:101 | a cluster seeded from a peak has an entry per population |
| PeakMerge.JoinCluster | bin/peak_merge.py:133 | a cluster joined by a peak has an entry per population |
| PeakMerge.Start | bin/peak_merge.py:99-106 | the state before the loop, when the first two peaks exist, is ready for the loop |
| PeakMerge.MergeStep | bin/peak_merge.py:113-190 | one turn of the loop moves the prior peak to the current one and the current one to the next |
| PeakMerge.MergeLoop | bin/peak_merge.py:113-190 | the loop over the remaining peaks keeps the state ready |
| PeakMerge.MergeStepDecision | bin/peak_merge.py:115-186 | a peak joins the open cluster when it overlaps the prior peak and either does not overlap the next one or overlaps the prior by more than `overlap` of the cluster's length; otherwise the open cluster is written and a new one starts from the peak; every turn counts one line |
| PeakMerge.MergeStepErr | bin/peak_merge.py:125-127 | a turn fails, with `ZeroDivisionError`, exactly when both overlaps hold on a cluster of length zero, or the peak's population has a zero share |
| PeakMerge.FinishDecision | bin/peak_merge.py:192-230 | after the loop the last peak joins the open cluster when it starts less than the offset after the prior end; otherwise the open cluster is written and the last peak forms its own cluster; the last cluster is always written |
| PeakMerge.MergedShort | bin/peak_merge.py:99-105 | an empty input raises `StopIteration`; a single peak raises `StopIteration`, or `ZeroDivisionError` first when its population has a zero share |
| PeakMerge.StepConsumed | bin/peak_merge.py:113-190 | each turn keeps the loop invariant: written clusters then open cluster hold the peaks read so far, less the current one, in order, and the counters agree with them |
| PeakMerge.LoopConsumed | bin/peak_merge.py:113-190 | the loop invariant holds after any number of turns |
| PeakMerge.FinishCovers | bin/peak_merge.py:192-230 | the final writes complete the partition of all peaks |
| PeakMerge.MergedCovers | bin/peak_merge.py:93-241 | every peak is written in exactly one cluster, in input order; the line count is the number of peaks, the cluster count is the number written, the size and extra-population histograms describe the written clusters, and the total clustered equals the line count |
| PeakMerge.StepFormed | bin/peak_merge.py:113-190 | a turn keeps every cluster well formed |
| PeakMerge.MergedFormed | bin/peak_merge.py:93-230 | every written cluster is well formed: its fields are what its member peaks say they should be |
| PeakMerge.MergePeaks | bin/peak_merge.py:93-230 | the imperative merge over a `Cluster` object computes `Merged` |
| PeakMerge.Advance | bin/peak_merge.py:113-190 | one turn of the imperative loop updates the cluster object and the counters as `MergeStep` does |
| PeakMerge.FinishSweep | bin/peak_merge.py:192-230 | the imperative end of the merge computes `Finish` |
| PeakMerge.FinishJoin | bin/peak_merge.py:197-199 | the last peak added to the open cluster, which is then written, gives `Finish` |
| PeakMerge.FinishSeed | bin/peak_merge.py:201-230 | the open cluster written and the last peak written as its own cluster gives `Finish` |
| PeakMerge.ChromosomesNotCompared | bin/peak_merge.py:115 | the overlap tests compare coordinates only: peaks on chr1 and chr2 with overlapping coordinates are merged into one cluster |
| PeakMerge.ClusterRow | bin/peak_merge.py:304-315 | a cluster row is one line ending in a newline |
| PeakMerge.ClusterRowReadBack | bin/peak_merge.py:304-315 | a cluster row splits on tabs into eight fields that give back chromosome, start, end, name, count, the two averages' texts and the populations joined by commas |
| PeakMerge.PopRowReadBack | bin/peak_merge.py:327-359 | a per-population row ends in a newline and splits on tabs into chromosome, start, end and the value texts |
| PeakMerge.ReadsCells | bin/peak_merge.py:330-340 | a reads row has one value per population |
| PeakMerge.HeightCells | bin/peak_merge.py:351-358 | a heights row has one value per population |
| PeakMerge.IntZeroHeightSpec | bin/peak_merge.py:272-296 | a population's height stays the int `0` of `Cluster(peak)` exactly when it is not the first peak's population and none of its peaks has a ratio above zero, and that height is zero |
| PeakMerge.HeightCellsZero | bin/peak_merge.py:351-358 | a population without member peaks is written as `0`; the first peak's population and any population with a ratio above zero are written as the shown largest ratio |
| PeakMerge.HeightCellReadBack | bin/peak_merge.py:351-358 | every heights cell, the int `0` ones included, reads back with `float()` as the recorded height |
| PeakMerge.ReadsOfEmpty | bin/peak_merge.py:335 | a population's read list is empty exactly when no member peak comes from it |
| PeakMerge.ReadsCellsZero | bin/peak_merge.py:333-337 | a population without member peaks is written as `0`, and one with peaks as its reads over its share |
| PeakMerge.Shares | bin/peak_merge.py:84-91 | the shares exist only when a parser is found and the pre-pass succeeds; an unknown file type is reported by name; then every population has a share and every line is a peak of a known population |
| PeakMerge.StdinAsWrittenFails | bin/peak_merge.py:84-105 | as written, a run on standard input always fails: with `StopIteration` once the pre-pass succeeds, because the stream is already consumed |
| PeakMerge.StdinDiscrepancy | bin/peak_merge.py:84-105 | a run that succeeds on a bed file gives the same result, in the corrected form, when the same lines come on standard input, while the as-written form fails there with `StopIteration` |
| PeakMerge.MergeRunSpec | bin/peak_merge.py:53-230 | a successful run is the merge of the parsed peaks under the normalised shares and the given or default overlap |
| PeakMerge.MergeRunCovers | bin/peak_merge.py:53-241 | a successful run writes every input line's peak exactly once, in order, and counts every line |
| PeakMerge.PeakMergeMain | bin/peak_merge.py:478-521 | the command line computes the run of `MergeRun` on its source, lines and overlap option |
| PeakToRsid.Insert | bin/peak_to_rsid.py:105-106 | inserting an entry into a sorted list keeps it sorted and adds exactly that entry |
| PeakToRsid.Sort | bin/peak_to_rsid.py:105-106 | `sorted()` on `(pos, rsid)` tuples returns a sorted permutation of its input |
| PeakToRsid.RsidLeTotalPreorder | bin/peak_to_rsid.py:105-106 | the tuple order on `(pos, rsid)` is total and transitive |
| PeakToRsid.SortedByPositions | bin/peak_to_rsid.py:104-106 | a list sorted as tuples is sorted by position, which is what the search needs |
| PeakToRsid.ClosestDist | bin/peak_to_rsid.py:5-9 | returns entry a with 0 or entry b with 1, whichever is no farther from the query, and b on a tie |
| PeakToRsid.SearchClosest | bin/peak_to_rsid.py:16-82 | an empty range gives `None` and its base; otherwise the result is an entry of the range together with its index |
| PeakToRsid.Search | bin/peak_to_rsid.py:16-24 | over the whole list, the result is `None` exactly when the list is empty, and otherwise is the entry at the returned index |
| PeakToRsid.SearchBelowFirst | bin/peak_to_rsid.py:40-41 | a query below every entry returns the range's first entry |
| PeakToRsid.SearchAboveLast | bin/peak_to_rsid.py:32-44 | a query above every entry returns the range's last entry |
| PeakToRsid.SearchAtSplit | bin/peak_to_rsid.py:56-65 | a query between the two entries at the split returns the nearer of them, the upper one on a tie |
| PeakToRsid.SearchPairPrefersUpper | bin/peak_to_rsid.py:32-44 | on a range of two, a query from the lower entry up to, but not including, the upper one returns the upper entry, however near the lower one is |
| PeakToRsid.SearchNotNearest | bin/peak_to_rsid.py:32-82 | the search can return an entry that is not the nearest: query 0 over positions 0, 10, 20, 30 returns position 10 |
| PeakToRsid.SearchNeighbour | bin/peak_to_rsid.py:16-82 | on a sorted range no entry lies strictly between the query and the returned entry, so the answer is one of the query's two neighbours |
| PeakToRsid.NeighbourByHalves | bin/peak_to_rsid.py:48-82 | the neighbour property holds for every sorted non-empty range, shown by following the search's halving |
| PeakToRsid.SearchFirstAbove | bin/peak_to_rsid.py:16-82 | an answer above the query is either the range's first entry or directly follows an entry at or below the query |
| PeakToRsid.On | bin/peak_to_rsid.py:100-102 | the entries a chromosome collects never outnumber the lines read |
| PeakToRsid.GroupSnoc | bin/peak_to_rsid.py:100-102 | one more line adds its chromosome to the keys and appends its entry to that chromosome's list only |
| PeakToRsid.GroupLines | bin/peak_to_rsid.py:93-102 | the imperative grouping loop returns the first parse error, or a table whose keys are the chromosomes read and whose lists hold each chromosome's entries in file order |
| PeakToRsid.SortGroups | bin/peak_to_rsid.py:105-106 | the loop over the chromosomes keeps the keys and replaces each list by a sorted permutation of it |
| PeakToRsid.LoadSnps | bin/peak_to_rsid.py:84-112 | `load_snps` returns the first parse error, or a table keyed by the chromosomes read, each list sorted and a permutation of that chromosome's entries |
| PeakToRsid.RemoveAt | bin/peak_to_rsid.py:145 | `pop(i)` removes exactly entry `i`, keeps the others in order and keeps a sorted list sorted |
| PeakToRsid.DrawOne | bin/peak_to_rsid.py:126-145 | a peak line keeps the table's chromosomes and keeps every list sorted |
| PeakToRsid.DrawOneFacts | bin/peak_to_rsid.py:126-145 | a peak line succeeds exactly when it parses and its chromosome has a non-empty list; a variant is taken exactly when the entry at the search's index lies in the peak's window, and the variant taken is that entry, popped from its own chromosome's list at that index, with nothing else changed |
| PeakToRsid.DrawOneConserves | bin/peak_to_rsid.py:141-145 | after one line, a chromosome's list plus the variant taken from it is the list before |
| PeakToRsid.Rsids | bin/peak_to_rsid.py:143 | the printed lines are the rsids of the variants taken, in order |
| PeakToRsid.DrawSnps | bin/peak_to_rsid.py:124-145 | the imperative main loop prints the rsids of `DrawAll` and leaves its table, or stops at the first exception |
| PeakToRsid.OnAppend | bin/peak_to_rsid.py:141-145 | the variants taken from a chromosome over two runs of lines are those of the first run followed by those of the second |
| PeakToRsid.DrawConserves | bin/peak_to_rsid.py:124-145 | drawing without replacement conserves variants: each chromosome's final list plus the variants taken from it is its original list, and every list stays sorted |
| CorrelatePeakExpr.GeneLeTotalPreorder | bin/correlate_peak_expr.py:33-34 | the tuple order `sorted` uses on `(tss, (ensid, symbol))` entries is total and transitive |
| CorrelatePeakExpr.ParseTssLine | bin/correlate_peak_expr.py:22-26 | a TSS line is read exactly when it has at least seven fields and an integer in field 4, and gives `(fields[0], (tss, (fields[5], fields[6])))`; fewer than five fields raise `IndexError`, a non-integer field 4 `ValueError`, and five or six fields `IndexError` |
| CorrelatePeakExpr.LoadTsss | bin/correlate_peak_expr.py:18-36 | the loader groups the entries by chromosome, has exactly the chromosomes read as keys, and holds each chromosome's entries sorted and as a permutation of the lines read for it |
| CorrelatePeakExpr.Forward | bin/correlate_peak_expr.py:57-63 | the forward scan visits consecutive indices upward from the closest entry |
| CorrelatePeakExpr.ForwardRun | bin/correlate_peak_expr.py:58-59 | every visited TSS lies at most `DIST_CUTOFF` after the middle, and the scan stops at the end of the list or at the first TSS beyond it |
| CorrelatePeakExpr.Backward | bin/correlate_peak_expr.py:66-72 | the backward scan visits consecutive indices downward from just below the closest entry |
| CorrelatePeakExpr.BackwardRun | bin/correlate_peak_expr.py:67-68 | every visited TSS lies at most `DIST_CUTOFF` before the middle, and the scan stops at index -1 or at the first TSS beyond it |
| CorrelatePeakExpr.ScanWindow | bin/correlate_peak_expr.py:56-72 | the two imperative `while` loops visit the forward scan's indices, then the backward scan's |
| CorrelatePeakExpr.ForwardMembers | bin/correlate_peak_expr.py:57-63 | on a sorted list the forward scan visits exactly the indices from the closest one on whose TSS is at most `DIST_CUTOFF` after the middle |
| CorrelatePeakExpr.BackwardMembers | bin/correlate_peak_expr.py:66-72 | on a sorted list the backward scan visits exactly the indices below the closest one whose TSS is at most `DIST_CUTOFF` before the middle |
| CorrelatePeakExpr.ScanExact | bin/correlate_peak_expr.py:56-72 | together the scans visit each qualifying index once: forward ones increasing, backward ones decreasing, none in both |
| CorrelatePeakExpr.ForwardOneSided | bin/correlate_peak_expr.py:58-59 | the forward test is one-sided: a TSS far before the middle still passes it when it is the closest entry |
| CorrelatePeakExpr.Pairings | bin/correlate_peak_expr.py:60-62 | one tuple per visited index, in visiting order, carrying that TSS's position, ensid and symbol |
| CorrelatePeakExpr.RegionPairings | bin/correlate_peak_expr.py:49-72 | a chromosome missing from the TSS table raises `KeyError`, an empty list fails the `closest != None` assertion, and otherwise the peak is paired |
| CorrelatePeakExpr.ScanBelowCutoff | bin/correlate_peak_expr.py:56-72 | every index the scans visit around the closest entry is in range and its TSS lies at most `DIST_CUTOFF` after the middle |
| CorrelatePeakExpr.RegionPairingsBelowCutoff | bin/correlate_peak_expr.py:49-72 | every yielded tuple carries the peak's own coordinates and values and a TSS entry of its chromosome at most `DIST_CUTOFF` after the middle |
| CorrelatePeakExpr.PairPeak | bin/correlate_peak_expr.py:41-72 | one peak line is read, its values with `float()`, and paired as `PeakPairings` says |
| CorrelatePeakExpr.PairRegion | bin/correlate_peak_expr.py:46-72 | the search and the two scans compute `RegionPairings` |
| CorrelatePeakExpr.PairAll | bin/correlate_peak_expr.py:60-62 | the imperative loop builds the tuples of `Pairings` |
| CorrelatePeakExpr.PeakToTss | bin/correlate_peak_expr.py:38-72 | the generator over all lines yields the pairings of each line in turn, or stops at the first exception |
| CorrelatePeakExpr.Present | bin/correlate_peak_expr.py:76-77 | the individuals kept are exactly those of the population that have an expression value |
| CorrelatePeakExpr.PresentAppend | bin/correlate_peak_expr.py:76-77 | the filter keeps the population's order |
| CorrelatePeakExpr.PresentAll | bin/correlate_peak_expr.py:76-77 | when every individual has a value, none is skipped |
| CorrelatePeakExpr.PopExpr | bin/correlate_peak_expr.py:74-77 | an unknown population raises `KeyError`; a result never has more values than the population has individuals |
| CorrelatePeakExpr.PopExprSpec | bin/correlate_peak_expr.py:74-77 | for a known population the values are read exactly when every present individual's text is a float, and are then those floats in the population's order |
| Text.Floats | bin/correlate_peak_expr.py:43 | a list comprehension of `float()` succeeds exactly when every token is a float, giving their values in order, and otherwise raises the `ValueError` of the first bad token |
| GtfToTss.MetaOf | bin/gtf_to_tss.py:4-10 | the attribute string yields a dictionary exactly when every `;`-separated piece splits into a name and a value |
| GtfToTss.ParseMeta | bin/gtf_to_tss.py:4-10 | the loop of `parse_meta` computes `MetaOf` of the pieces of the stripped attribute string, or its error |
| GtfToTss.MapOfKeys | bin/gtf_to_tss.py:9 | every parsed attribute name is a key of the dictionary and every key is some parsed name |
| GtfToTss.MapOfLastWins | bin/gtf_to_tss.py:9 | a name that is not repeated later holds the value of its last occurrence |
| GtfToTss.ParseFormatAttr | bin/gtf_to_tss.py:7-8 | a piece written as `name "value"` parses back to `(name, value)` |
| GtfToTss.ParseFormatMeta | bin/gtf_to_tss.py:4-10 | an attribute string written from name/value pairs parses back to the dictionary of those pairs |
| GtfToTss.ReadTranscript | bin/gtf_to_tss.py:31-38 | a transcript line is read exactly when it has nine fields, integer coordinates, attributes that parse, and `gene_id` and `gene_name` among them; the chromosome has every `chr` removed and the rest come from fields 3, 4, 6 and 8 |
| GtfToTss.StartCodonRow | bin/gtf_to_tss.py:40-55 | a start codon with integer coordinates gives a row exactly when a transcript was read before it, its strand is `+` or `-`, and the TSS lies inside it; the TSS is the codon start on `+` and its end on `-`, and the row is `Row(t, tss)`; otherwise it raises `NameError` with no transcript, and `AssertionError` after one |
| GtfToTss.GtfSkips | bin/gtf_to_tss.py:24-29 | comment lines, lines whose source is not protein coding and other feature types leave the carried transcript unchanged and print nothing |
| GtfToTss.GtfTranscript | bin/gtf_to_tss.py:31-38 | a protein-coding transcript line replaces the carried transcript and prints nothing |
| GtfToTss.GtfStartCodon | bin/gtf_to_tss.py:40-55 | a protein-coding start codon line keeps the carried transcript and prints exactly the row `StartCodonRow` gives, or fails with its exception: `NameError` before any transcript, `AssertionError` on another strand or a TSS outside the transcript |
| GtfToTss.GtfToTssMain | bin/gtf_to_tss.py:20-55 | the main loop prints the rows of `Run` over all lines, or stops at the first error |
| GtfToTss.ProcessLine | bin/gtf_to_tss.py:21-55 | one turn of the main loop computes `GtfStep` |
| GtfToTss.ReadTranscriptFields | bin/gtf_to_tss.py:31-38 | the transcript branch computes `ReadTranscript` |
| GtfToTss.RowReadBack | bin/gtf_to_tss.py:51-55 | a printed TSS row reads back, through the TSS loader of the correlation script, to its chromosome, TSS, gene id and symbol |
| EnsidToPopPeaks.Repeat | bin/ensid_to_pop_peaks.py:14-17 | the list holding one rsid as many times as a gene is listed on its line |
| EnsidToPopPeaks.AddRsidLookup | bin/ensid_to_pop_peaks.py:14-17 | the inner loop appends the line's rsid to each listed gene's list once per listing, after the rsids it already had |
| EnsidToPopPeaks.AddRsidKeys | bin/ensid_to_pop_peaks.py:14-17 | after the inner loop the genes with a list are the earlier ones plus the listed ones |
| EnsidToPopPeaks.AddRsids | bin/ensid_to_pop_peaks.py:14-17 | the imperative inner loop over the `;`-separated genes computes `AddRsid` |
| EnsidToPopPeaks.LoadLociErr | bin/ensid_to_pop_peaks.py:8-13 | `load_loci` fails exactly when some line that is not a `#` comment has fewer than five fields |
| EnsidToPopPeaks.LoadLociOk | bin/ensid_to_pop_peaks.py:5-18 | on success each gene's list is the rsids of every line listing it, in file order and once per listing, and a gene has a list exactly when that is non-empty |
| EnsidToPopPeaks.LoadLoci | bin/ensid_to_pop_peaks.py:5-18 | the imperative reader computes the fold of `LociStep` over the lines |
| EnsidToPopPeaks.IndexSpec | bin/ensid_to_pop_peaks.py:29-30 | a table keyed by a column is built exactly when every line parses and no key repeats; then every parsed pair is in the table and every key comes from one |
| EnsidToPopPeaks.ParseRegionField | bin/ensid_to_pop_peaks.py:26-28 | the field is read exactly when it has a `:` and the text after the first `:` splits on `-` into exactly two integers; the chromosome is the text before the first `:` with every `chr` removed, and start and end are those two integers; without a `:` it raises `IndexError` |
| EnsidToPopPeaks.RegionRoundTrip | bin/ensid_to_pop_peaks.py:26-28 | a region printed as `chrom:start-end` parses back to the same region |
| EnsidToPopPeaks.FormatRegionParts | bin/ensid_to_pop_peaks.py:26-27 | a printed region splits on `:` into chromosome and coordinates, and the coordinates split on `-` into start and end |
| EnsidToPopPeaks.LoadRsidMap | bin/ensid_to_pop_peaks.py:20-31 | the reader builds the rsid-to-peak table of `Index`, failing with `AssertionError` on a repeated rsid |
| EnsidToPopPeaks.ParsePopsLine | bin/ensid_to_pop_peaks.py:37-41 | a population line is read exactly when it has at least three fields, integer fields 1 and 2, and a float in every field from 3 on; it gives the peak with every `chr` removed from its chromosome and those coordinates, and the values from field 3 on |
| EnsidToPopPeaks.LoadPops | bin/ensid_to_pop_peaks.py:33-44 | the reader builds the peak-to-values table of `Index`, failing with `AssertionError` on a repeated peak |
| EnsidToPopPeaks.RsidRowsSpec | bin/ensid_to_pop_peaks.py:68-75 | a gene's rows are produced exactly when each of its rsids has a peak that has values, and then row `i` is the row of rsid `i` |
| EnsidToPopPeaks.ReportSpec | bin/ensid_to_pop_peaks.py:66-75 | the report succeeds exactly when every gene is in the loci table and its rsids resolve, and then it has one row per (gene, rsid) listing |
| EnsidToPopPeaks.FormatRowFields | bin/ensid_to_pop_peaks.py:72-75 | a printed row splits on tabs into the gene, the rsid, the peak's `chrom:start-end` and the values, with an empty last field when there are no values |
| EnsidToPopPeaks.GeneRows | bin/ensid_to_pop_peaks.py:68-75 | the inner output loop computes `RsidRows` |
| EnsidToPopPeaks.EnsidToPopPeaksMain | bin/ensid_to_pop_peaks.py:66-75 | the output loop computes `Report`, stopping at the first missing key |
| DiffExpr.ColumnOfSpec | bin/diff_expr.py:13-15 | collecting one column succeeds exactly when every line has that column, and then holds line `k`'s field in place `k` |
| DiffExpr.ColumnSpec | bin/diff_expr.py:10-16 | `load_col` raises `IndexError` exactly when some line's white-space split is too short, and otherwise returns each line's field at `col_pos`, in order |
| DiffExpr.LoadCol | bin/diff_expr.py:10-16 | the imperative reader computes `Column` |
| DiffExpr.GeneIdSpec | bin/diff_expr.py:37-38 | the gene id is the prefix of the gene field before its first `.`, holds no `.`, and taking it twice changes nothing |
| DiffExpr.RowMapOk | bin/diff_expr.py:41-44 | filling a gene's row succeeds exactly when every header position other than the gene column exists in the row |
| DiffExpr.RowMapKeys | bin/diff_expr.py:41-44 | the row's keys are exactly the header names other than the gene column's position |
| DiffExpr.RowMapLastWins | bin/diff_expr.py:44 | a header name holds the field of its last position other than the gene column |
| DiffExpr.ExprStep | bin/diff_expr.py:29-44 | a line never changes the gene column |
| DiffExpr.ExprStepHeader | bin/diff_expr.py:29-33 | `#` lines are skipped, and the first other line becomes the header |
| DiffExpr.ExprStepRow | bin/diff_expr.py:35-44 | each later line sets the entry of its gene id to the row map of its fields, replacing an earlier row with that id |
| DiffExpr.LoadExpr | bin/diff_expr.py:18-46 | the imperative reader returns the gene table of the fold of `ExprStep`, or its error |
| DiffExpr.FillRow | bin/diff_expr.py:40-44 | the inner loop over the header computes `RowMap` |
| ComparePops.PopGroups | bin/compare_pops.py:3-4 | the African and the European groups are each sorted, share no population, and are both drawn from `ALL_POPS` |
| ComparePops.PopValsOk | bin/compare_pops.py:12-14 | the population loop finishes without an exception exactly when every population column it visits parses as a float |
| ComparePops.PopValsKeys | bin/compare_pops.py:12-14 | the dictionary the loop builds has exactly the visited populations as keys |
| ComparePops.PopValsAt | bin/compare_pops.py:12-14 | with distinct populations, population `pops[i]` is mapped to the float read from column `base_idx + i` |
| ComparePops.PopValsErr | bin/compare_pops.py:12-14 | a failing loop reports the error of the first column that does not parse, every earlier column having parsed |
| ComparePops.ReadPopVals | bin/compare_pops.py:12-14 | the imperative loop over `enumerate(ALL_POPS)` builds the dictionary of `PopVals` or stops at the same error |
| ComparePops.ParsePeakFieldsOk | bin/compare_pops.py:10-14 | a split line is accepted exactly when fields 1 and 2 are integers and every population column is a float |
| ComparePops.ParsePeakFieldsLocus | bin/compare_pops.py:10 | the yielded locus is `(fields[0], int(fields[1]), int(fields[2]))` |
| ComparePops.ParsePeakFieldsVals | bin/compare_pops.py:12-14 | the yielded dictionary has exactly the ten populations as keys and holds, for the i-th population, the float of column 3 + i |
| ComparePops.ReadPeakLine | bin/compare_pops.py:8-16 | the body of the generator for one line computes the `(locus, pop_to_val)` pair of `ParsePeakLine`, or its error |
| ComparePops.IterPeaks | bin/compare_pops.py:6-16 | the generator yields one parsed pair per line, in order, and the first line that fails ends the iteration with its error |
| ComparePops.StripNewline | bin/compare_pops.py:9 | `rstrip()` removes exactly the newline from a line whose last character before it is not white space |
| ComparePops.PopRowEnd | bin/compare_pops.py:9 | a per-population row ends in a newline preceded by the last character of its last value |
| ComparePops.PopRowFields | bin/compare_pops.py:9 | splitting a stripped per-population row on tabs gives back the chromosome, the two coordinates and the value texts |
| ComparePops.PopRowReadBack | bin/compare_pops.py:6-16 | a row written by the merge's per-population writers reads back through `iter_peaks` to the same locus and the same value for every population |
| ComparePops.HeightRowReadBack | bin/compare_pops.py:6-16 | a max-height row of a well-formed merged cluster, its int `0` cells included, reads back to the cluster's coordinates and its height for each of the ten populations |
| Text.Split | bin/gtf_to_tss.py:6 | `str.split(sep)` gives at least one part, and no part contains the separator |
| Text.SplitJoin | bin/peak_merge.py:304-315 | joining separator-free parts and splitting again gives the parts back |
| Text.JoinSplit | bin/gtf_to_tss.py:6 | splitting and joining again gives the string back |
| Text.Head | bin/diff_expr.py:37-38 | `s.split(sep)[0]` is the prefix of `s` before the first separator, or all of `s` |
| Text.Words | bin/ensid_to_pop_peaks.py:11 | `str.split()` gives white-space-free, non-empty words, at least one when the string starts with a non-space |
| Text.WordsJoin | bin/gtf_to_tss.py:51-55 | words joined by a white-space character split back into the same words |
| Text.TrimEnd | bin/compare_pops.py:9 | `rstrip` keeps a prefix, removes only dropped characters, and leaves no dropped character at the end |
| Text.StripCharQuoted | bin/gtf_to_tss.py:8 | `strip('"')` removes the surrounding quotes of a quote-free value |
| Text.DropPrefix | bin/peak_to_rsid.py:128-129 | a leading `chr` is removed once, and a name without it is unchanged |
| Text.RemoveAllAbsent | bin/gtf_to_tss.py:32 | `replace('chr', '')` leaves a name without `chr` unchanged |
| Text.RemoveAllNotIdempotent | bin/gtf_to_tss.py:32 | one left-to-right pass of `replace` can leave `chr` behind: `cchrhr` becomes `chr` |
| Text.ParseShowInt | bin/gtf_to_tss.py:51-55 | `int(str(n))` is `n` |
| Text.ParseFloatPointExample | bin/peak_merge.py:380-383 | `float("2.50")` is 2.5 |
| Text.ParseFloatExample | bin/peak_merge.py:380-383 | `float("-2.50")` is -2.5 |
| Text.ParseFloatNoSpace | bin/compare_pops.py:14 | a text `float()` accepts here holds no white space |
| Text.StrLeTotal | bin/peak_merge.py:47-50 | the string order `sorted` uses compares any two strings |
| Text.StrLeTransitive | bin/peak_merge.py:47-50 | the string order is transitive |
| Text.Field | bin/diff_expr.py:15 | `fields[k]` is found exactly when `k` is in range, and raises `IndexError` otherwise |
| Text.IntField | bin/compare_pops.py:10 | `int(fields[k])` succeeds exactly when the field exists and is an integer |
| Text.FloatField | bin/compare_pops.py:14 | `float(fields[k])` succeeds exactly when the field exists and is a float |
| Text.ParseEachOk | bin/peak_merge.py:422-427 | when every line of a file is read, entry `k` is line `k`'s value |
| Text.ParseEachErr | bin/peak_merge.py:422-427 | a file that fails to be read fails with the exception of its first bad line |

## Left out

- **Files and their encodings.** Opening files, and gzip and bz2
  decompression (`open_zipped`, the `.gz` checks), are not modelled. UTF-8
  decoding is not modelled either. A file is its sequence of lines.
- **The pickle cache.** `load_snps` reads and writes a pickle cache. Only the
  reading of the text file is modelled.
- **Tooling around the merge.** The `wc -l` line count and the `tqdm`
  progress bar are left out. So are `logme` logging and the text of the
  statistics written to the log file. The statistics themselves are modelled.
- **Command-line parsing.** `argparse` is left out. `PeakMerge.PeakMergeMain`
  takes the input source, its lines and the overlap option as parameters. The
  output files of `peak_merge.py` are the written cluster values and rows.
- **Number formatting.** `str()` of a float is a parameter. It is `show` or
  `cell` in the row functions, and a text argument in `PeakMerge.ClusterRow`.
  Python's shortest-repr float printing is not modelled.
- **The median.** `np.median` is inside the `cell` parameter of
  `PeakMerge.ReadsCells`.
- **Floating point.** Floats are exact reals. Rounding, `inf` and `nan` are not
  modelled.
- **Number syntax.** `float()` accepts an optional sign, digits and one point.
  Exponents, `inf`, `nan`, surrounding white space and underscores are not
  accepted. `int()` accepts an optional sign and digits.
- **Statistics.** These are calls into numerical libraries whose code is not
  part of this model:
  - the `__main__` block of `correlate_peak_expr.py` (lines 79-131), with
    `pearsonr`, `multipletests` and `np.mean`;
  - the `__main__` block of `diff_expr.py` (lines 48-93), with `json`,
    `pickle`, `np.percentile`, `ttest_ind` and `set()`.
- **Other scripts.** The other scripts of the repository are not part of this
  model.
- **Laziness.** Generators are modelled as the full list they yield. Rows
  printed before an exception are not kept in the error result.
- **The ensid file.** The read of the ensid file in `ensid_to_pop_peaks.py`
  (lines 52-53) is a parameter, `ensids`. So are the loaded tables of
  `EnsidToPopPeaks.EnsidToPopPeaksMain`. The file names built on lines 55-64
  are not modelled.
- **`load_col`'s conversion.** The `col_type` conversion of `load_col` is left
  out. The column is returned as text, which is the default, `str`.
- EnsidToPopPeaks.ParsePopsLine: checks every value with `float()` but keeps
  the text read. The printed `str(float(v))` is not modelled, because float
  printing is not modelled.
- PeakToRsid.SearchClosest: requires the range to be sorted by position. The
  source asserts this only at the split it inspects (lines 33 and 51-52). The
  callers always pass lists that `sorted` has just sorted, and the draws keep
  them sorted (`PeakToRsid.DrawConserves`). So these assertions cannot fail.
- GtfToTss.MetaOf: states only when parsing succeeds. The dictionary it builds
  is described by `GtfToTss.MapOfKeys` and `GtfToTss.MapOfLastWins`.
- PeakMerge.MergeStep: states the shape of the new state only. Its decision
  and errors are in `PeakMerge.MergeStepDecision` and `PeakMerge.MergeStepErr`.
- PeakToRsid.DrawOne: states only that the chromosomes stay and every list
  stays sorted. Which variant is taken, and when, is stated by
  `PeakToRsid.DrawOneFacts`.
- PeakMerge.HeightCells: states only the row's length. Which cells are the
  int `0` and which are shown floats is stated by `PeakMerge.HeightCellsZero`
  and `PeakMerge.IntZeroHeightSpec`.
- CorrelatePeakExpr.PopExpr: states the `KeyError` case and a size bound. The
  values are described by `CorrelatePeakExpr.PopExprSpec`.

## Findings

| source | as written | input that shows it | evidently intended | confidence | as-written member | corrected member |
|---|---|---|---|---|---|---|
| bin/peak_merge.py:84-105 | when the input is standard input (the default on line 496), the pre-pass on line 84 reads the stream to its end. The second parser on line 93 then yields nothing, so `next(pfile)` on line 100 raises `StopIteration` | any valid bed text of at least two peaks, given on standard input | both passes see the same peaks, as they do for a named bed file | not executed | `PeakMerge.StdinAsWrittenFails` (about `PeakMerge.MergeRunAsWritten`) | `PeakMerge.StdinDiscrepancy` (about `PeakMerge.MergeRun`, which `PeakMerge.PeakMergeMain` computes) |
