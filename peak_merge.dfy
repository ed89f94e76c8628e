/**
 * bin/peak_merge.py: reading population-labelled bed peaks, the pre-pass
 * that totals and normalises each population's reads, the `Cluster` object
 * that a run of overlapping peaks is merged into, the sweep that decides for
 * every peak whether it joins the open cluster or opens a new one, and the
 * rows and statistics it writes.
 */
module PeakMerge {
  import opened Wrappers
  import opened Text

  /** The ten populations, in sorted order. */
  const ALL_POPS: seq<string> :=
    ["ASW", "CEU", "CHB", "ESN", "FIN", "GWD", "IBS", "LWK", "TSI", "YRI"]

  /** Amount subtracted from a peak's end so that minor overlaps do not join. */
  const OFFSET: int := 4

  /** Overlap fraction used when no float is given. */
  const DEFAULT_OVERLAP: real := 0.75

  lemma AllPopsSorted()
    ensures |ALL_POPS| == 10
    ensures forall i :: 0 <= i < |ALL_POPS| - 1 ==> StrLt(ALL_POPS[i], ALL_POPS[i + 1])
    ensures forall i, j :: 0 <= i < j < |ALL_POPS| ==> ALL_POPS[i] != ALL_POPS[j]
  {
  }

  lemma AllPopsDistinct()
    ensures forall i, j :: 0 <= i < j < |ALL_POPS| ==> ALL_POPS[i] != ALL_POPS[j]
  {
    AllPopsSorted();
  }

  /** The overlap threshold: the given float, or 0.75 when the argument is
    * missing or not a float. */
  function OverlapOf(arg: Option<real>): (o: real)
    ensures arg.Some? ==> o == arg.value
    ensures arg.None? ==> o == 0.75
  {
    if arg.Some? then arg.value else DEFAULT_OVERLAP
  }

  // ---------------------------------------------------------------------------
  // Peak and bed_file

  datatype Peak = Peak(chrom: string, start: int, end: int, pop: string,
                       foldChange: real, log10p: real, nReads: int, height: real)

  /** The population of a sample label: the text before its first `_`. */
  function PopOf(sample: string): (pop: string)
    ensures pop <= sample && '_' !in pop
    ensures pop == sample || sample[|pop|] == '_'
  {
    Head(sample, '_')
  }

  /** One bed line: nine tab-separated fields (chromosome, start, end, sample
    * label, read count, an ignored field, fold change, log10 p-value, height),
    * ValueError for any other number of fields or for a number that does not
    * parse. */
  function ParseBedLine(line: string): Result<Peak> {
    var f := Split(RStrip(line), '\t');
    if |f| != 9 then Err(ValueError(line)) else ParseBedFields(f)
  }

  /** The nine fields of a bed line, numbers parsed in the order the
    * constructor reads them. */
  function ParseBedFields(f: seq<string>): Result<Peak>
    requires |f| == 9
  {
    var start :- IntField(f, 1);
    var end :- IntField(f, 2);
    var fold :- FloatField(f, 6);
    var l10p :- FloatField(f, 7);
    var nReads :- IntField(f, 4);
    var height :- FloatField(f, 8);
    Ok(Peak(f[0], start, end, PopOf(f[3]), fold, l10p, nReads, height))
  }

  /** Nine fields are read exactly when every number in them parses. */
  lemma ParseBedFieldsSpec(f: seq<string>)
    requires |f| == 9
    ensures ParseBedFields(f).Ok? <==>
              ParseInt(f[1]).Some? && ParseInt(f[2]).Some?
              && ParseFloat(f[6]).Some? && ParseFloat(f[7]).Some?
              && ParseInt(f[4]).Some? && ParseFloat(f[8]).Some?
    ensures ParseBedFields(f).Ok? ==>
              ParseBedFields(f).value ==
                Peak(f[0], ParseInt(f[1]).value, ParseInt(f[2]).value, PopOf(f[3]),
                     ParseFloat(f[6]).value, ParseFloat(f[7]).value,
                     ParseInt(f[4]).value, ParseFloat(f[8]).value)
  {
    var start, end := IntField(f, 1), IntField(f, 2);
    var fold, l10p := FloatField(f, 6), FloatField(f, 7);
    var nReads, height := IntField(f, 4), FloatField(f, 8);
    if start.Ok? && end.Ok? && fold.Ok? && l10p.Ok? && nReads.Ok? && height.Ok? {
      assert ParseBedFields(f)
             == Ok(Peak(f[0], start.value, end.value, PopOf(f[3]), fold.value, l10p.value,
                        nReads.value, height.value));
    } else {
      assert ParseBedFields(f).Err?;
    }
  }

  /** A bed line is read exactly when it has nine fields and every number in
    * it parses; the peak then holds those fields. */
  lemma ParseBedLineSpec(line: string)
    ensures var f := Split(RStrip(line), '\t');
            ParseBedLine(line).Ok? <==>
              |f| == 9 && ParseInt(f[1]).Some? && ParseInt(f[2]).Some?
              && ParseFloat(f[6]).Some? && ParseFloat(f[7]).Some?
              && ParseInt(f[4]).Some? && ParseFloat(f[8]).Some?
    ensures var f := Split(RStrip(line), '\t');
            ParseBedLine(line).Ok? ==>
              ParseBedLine(line).value ==
                Peak(f[0], ParseInt(f[1]).value, ParseInt(f[2]).value, PopOf(f[3]),
                     ParseFloat(f[6]).value, ParseFloat(f[7]).value,
                     ParseInt(f[4]).value, ParseFloat(f[8]).value)
  {
    var f := Split(RStrip(line), '\t');
    if |f| == 9 {
      ParseBedFieldsSpec(f);
    }
  }

  /** A line made of nine tab-free fields reads back field by field. */
  lemma ParseBedJoin(cols: seq<string>)
    requires |cols| == 9
    requires forall k :: 0 <= k < 9 ==> '\t' !in cols[k]
    requires cols[8] != [] && !IsSpace(cols[8][|cols[8]| - 1])
    ensures Split(RStrip(Join(cols, '\t')), '\t') == cols
  {
    var line := Join(cols, '\t');
    JoinLast(cols, '\t');
    TrimEndKeeps(line, IsSpace);
    SplitJoin(cols, '\t');
  }

  // ---------------------------------------------------------------------------
  // in_name and the choice of parser

  /** `search` is one of the `.`-separated parts of `name`. */
  predicate InName(name: string, search: string) {
    search in Split(name, '.')
  }

  /** Each part of a `.`-joined name is found in it. */
  lemma InNameJoin(parts: seq<string>, k: nat)
    requires k < |parts|
    requires forall j :: 0 <= j < |parts| ==> '.' !in parts[j]
    ensures InName(Join(parts, '.'), parts[k])
  {
    SplitJoin(parts, '.');
  }

  /** A middle part matches: `bed` is found in `x.bed.gz`. */
  lemma InNameNested()
    ensures InName("x.bed.gz", "bed")
  {
    var parts := ["x", "bed", "gz"];
    InNameJoin(parts, 1);
    assert Join(parts, '.') == "x.bed.gz";
  }

  /** A name of two dot-free parts splits into exactly those parts. */
  lemma NameTwoParts(a: string, b: string)
    requires '.' !in a && '.' !in b
    ensures Split(a + "." + b, '.') == [a, b]
  {
    SplitNoSep(b, '.');
    SplitCons(a, '.', b);
  }

  lemma InNameLast()
    ensures InName("bob.bed", "bed")
  {
    NameTwoParts("bob", "bed");
    assert "bob" + "." + "bed" == "bob.bed";
  }

  /** Only whole parts match: `bed` is not found in `file.bedfile`. */
  lemma InNameWholePart()
    ensures !InName("file.bedfile", "bed")
  {
    var a, b := "file", "bedfile";
    assert "bed" != a && "bed" != b by {
      assert |"bed"| == 3 && |a| == 4 && |b| == 7;
    }
    assert !InName(a + "." + b, "bed") by {
      NameTwoParts(a, b);
    }
    assert a + "." + b == "file.bedfile";
  }

  /** The file formats there is a parser for. */
  datatype Format = Bed

  /** Standard input is read as bed; otherwise the file name must have `bed`
    * as one of its `.`-separated parts. */
  function ParserFor(name: string): (r: Result<Format>)
    ensures r.Ok? <==> name == "<stdin>" || InName(name, "bed")
    ensures r.Err? ==> r.fault == UnknownFileType(name)
  {
    if name == "<stdin>" then Ok(Bed)
    else if InName(name, "bed") then Ok(Bed)
    else Err(UnknownFileType(name))
  }

  lemma ParserForExamples()
    ensures ParserFor("<stdin>") == Ok(Bed)
    ensures ParserFor("bob.bed") == Ok(Bed)
    ensures ParserFor("file.bedfile") == Err(UnknownFileType("file.bedfile"))
  {
    InNameLast();
    InNameWholePart();
  }

  // ---------------------------------------------------------------------------
  // The pre-pass: reads per population

  function ZeroTotals(): map<string, int> {
    map p | p in ALL_POPS :: 0
  }

  /** Adds one line's reads to its population's total; KeyError for a
    * population outside ALL_POPS. */
  function PrepassStep(totals: map<string, int>, line: string): Result<map<string, int>> {
    var peak :- ParseBedLine(line);
    if peak.pop !in totals then Err(KeyError(peak.pop))
    else Ok(totals[peak.pop := totals[peak.pop] + peak.nReads])
  }

  function ReadTotals(lines: seq<string>): Result<map<string, int>> {
    Fold(lines, ZeroTotals(), PrepassStep)
  }

  /** Reference: the reads of the peaks of population `p`, summed. */
  function SumReads(peaks: seq<Peak>, p: string): int
    decreases |peaks|
  {
    if peaks == [] then 0
    else
      var last := peaks[|peaks| - 1];
      SumReads(peaks[..|peaks| - 1], p) + (if last.pop == p then last.nReads else 0)
  }

  predicate AllKnown(peaks: seq<Peak>) {
    forall i :: 0 <= i < |peaks| ==> peaks[i].pop in ALL_POPS
  }

  /** The pre-pass succeeds exactly when every line parses and names a known
    * population; then each population's total is the sum of its reads. */
  lemma {:induction false} ReadTotalsSpec(lines: seq<string>)
    ensures ReadTotals(lines).Ok? <==>
              ParseEach(lines, ParseBedLine).Ok? && AllKnown(ParseEach(lines, ParseBedLine).value)
    ensures ReadTotals(lines).Ok? ==>
              var peaks := ParseEach(lines, ParseBedLine).value;
              var totals := ReadTotals(lines).value;
              (forall p :: p in totals <==> p in ALL_POPS)
              && forall p :: p in ALL_POPS ==> totals[p] == SumReads(peaks, p)
    decreases |lines|
  {
    if lines != [] {
      var init := lines[..|lines| - 1];
      ReadTotalsSpec(init);
      var pe := ParseEach(lines, ParseBedLine);
      var pi := ParseEach(init, ParseBedLine);
      if pe.Ok? {
        assert pi.Ok? && pe.value == pi.value + [pe.value[|lines| - 1]];
        assert pe.value[..|lines| - 1] == pi.value;
        if AllKnown(pe.value) {
          assert AllKnown(pi.value) by {
            forall i | 0 <= i < |pi.value| ensures pi.value[i].pop in ALL_POPS {
              assert pi.value[i] == pe.value[i];
            }
          }
        }
      }
    }
  }

  /** A method form of the pre-pass loop. */
  method CountReads(lines: seq<string>) returns (r: Result<map<string, int>>)
    ensures r == ReadTotals(lines)
  {
    var totals := ZeroTotals();
    var i := 0;
    while i < |lines|
      invariant 0 <= i <= |lines|
      invariant Fold(lines[..i], ZeroTotals(), PrepassStep) == Ok(totals)
    {
      FoldSnoc(lines, i, ZeroTotals(), PrepassStep);
      var next := PrepassStep(totals, lines[i]);
      if next.Err? {
        FoldErrPersists(lines, i + 1, ZeroTotals(), PrepassStep);
        assert lines[..|lines|] == lines;
        return Err(next.fault);
      }
      totals := next.value;
      i := i + 1;
    }
    assert lines[..|lines|] == lines;
    r := Ok(totals);
  }

  // ---------------------------------------------------------------------------
  // Normalising the totals

  function SumOver(pops: seq<string>, totals: map<string, int>): int
    requires forall k :: 0 <= k < |pops| ==> pops[k] in totals
  {
    if pops == [] then 0 else totals[pops[0]] + SumOver(pops[1..], totals)
  }

  function SumOverReal(pops: seq<string>, shares: map<string, real>): real
    requires forall k :: 0 <= k < |pops| ==> pops[k] in shares
  {
    if pops == [] then 0.0 else shares[pops[0]] + SumOverReal(pops[1..], shares)
  }

  predicate Covers<V>(m: map<string, V>) {
    forall i :: 0 <= i < |ALL_POPS| ==> ALL_POPS[i] in m
  }

  /** Each population's total divided by the grand total; ZeroDivisionError
    * when the grand total is zero. */
  function Normalised(totals: map<string, int>): (r: Result<map<string, real>>)
    requires Covers(totals)
    ensures r.Ok? ==> forall p :: p in r.value <==> p in ALL_POPS
  {
    var total := SumOver(ALL_POPS, totals);
    if total == 0 then Err(ZeroDivisionError)
    else Ok(map p | p in ALL_POPS :: Share(totals[p], total))
  }

  /** `n / total` in floating point. */
  function Share(n: int, total: int): real
    requires total != 0
  {
    n as real / total as real
  }

  lemma {:induction false} SumOverShares(pops: seq<string>, totals: map<string, int>,
                                          shares: map<string, real>, total: int)
    requires total != 0
    requires forall k :: 0 <= k < |pops| ==>
               pops[k] in totals && pops[k] in shares
               && shares[pops[k]] == Share(totals[pops[k]], total)
    ensures SumOverReal(pops, shares) == SumOver(pops, totals) as real / total as real
    decreases |pops|
  {
    if pops != [] {
      SumOverShares(pops[1..], totals, shares, total);
    }
  }

  /** The normalised shares of the populations add up to one. */
  lemma NormalisedSumsToOne(totals: map<string, int>)
    requires Covers(totals)
    requires Normalised(totals).Ok?
    ensures SumOverReal(ALL_POPS, Normalised(totals).value) == 1.0
  {
    var total := SumOver(ALL_POPS, totals);
    SumOverShares(ALL_POPS, totals, Normalised(totals).value, total);
    assert total as real / total as real == 1.0;
  }

  /** The division loop over ALL_POPS. */
  method NormaliseTotals(totals: map<string, int>) returns (r: Result<map<string, real>>)
    requires Covers(totals)
    ensures r == Normalised(totals)
  {
    var total := SumOver(ALL_POPS, totals);
    if total == 0 {
      return Err(ZeroDivisionError);
    }
    var shares := DivideAll(ALL_POPS, totals, total);
    r := Ok(shares);
  }

  /** Divides the total of each of `pops` by `total`, one population at a time. */
  method DivideAll(pops: seq<string>, totals: map<string, int>, total: int)
    returns (shares: map<string, real>)
    requires total != 0
    requires forall k :: 0 <= k < |pops| ==> pops[k] in totals
    ensures shares == map p | p in pops :: Share(totals[p], total)
  {
    shares := map[];
    for k := 0 to |pops|
      invariant shares == map p | p in pops[..k] :: Share(totals[p], total)
    {
      assert pops[..k + 1] == pops[..k] + [pops[k]];
      shares := shares[pops[k] := Share(totals[pops[k]], total)];
    }
    assert pops[..|pops|] == pops;
  }

  // ---------------------------------------------------------------------------
  // Cluster

  /** A cluster is named `<chrom>_<start>` after its first peak. */
  function ClusterName(peak: Peak): string {
    peak.chrom + "_" + ShowInt(peak.start)
  }

  /** Python's `max(a, b)`: `a` unless `b` is larger. */
  function IntMax(a: int, b: int): int {
    if b > a then b else a
  }

  function RealMax(a: real, b: real): real {
    if b > a then b else a
  }

  /** A peak's height over its population's normalised reads. */
  function Ratio(peak: Peak, totals: map<string, real>): real
    requires peak.pop in totals && totals[peak.pop] != 0.0
  {
    peak.height / totals[peak.pop]
  }

  function ZeroHeights(): map<string, real> {
    map p | p in ALL_POPS :: 0.0
  }

  function NoReads(): map<string, seq<int>> {
    map p | p in ALL_POPS :: []
  }

  /** The fields of a `Cluster` object, as a value. */
  datatype ClusterVal = ClusterVal(
    name: string, peaks: seq<Peak>, chrom: string, start: int, end: int, len: int,
    foldChange: real, log10p: real, pops: seq<string>, count: int,
    popToMaxHeight: map<string, real>, popToReads: map<string, seq<int>>)

  /** Both per-population maps have an entry for every population. */
  predicate Keyed(c: ClusterVal) {
    forall i :: 0 <= i < |ALL_POPS| ==> ALL_POPS[i] in c.popToMaxHeight && ALL_POPS[i] in c.popToReads
  }

  /** A peak that belongs to a known population with non-zero reads. */
  predicate Member(peak: Peak, totals: map<string, real>) {
    peak.pop in ALL_POPS && peak.pop in totals && totals[peak.pop] != 0.0
  }

  /** `Cluster(peak)`. */
  function NewCluster(peak: Peak, totals: map<string, real>): (c: ClusterVal)
    requires Member(peak, totals)
    ensures Keyed(c)
  {
    ClusterVal(ClusterName(peak), [peak], peak.chrom, peak.start, peak.end,
               peak.start - peak.end, peak.foldChange, peak.log10p, [peak.pop], 1,
               ZeroHeights()[peak.pop := Ratio(peak, totals)],
               NoReads()[peak.pop := NoReads()[peak.pop] + [peak.nReads]])
  }

  /** `cluster.add(peak)`. */
  function AddPeak(c: ClusterVal, peak: Peak, totals: map<string, real>): (d: ClusterVal)
    requires Keyed(c) && Member(peak, totals)
    ensures Keyed(d)
  {
    var end := IntMax(c.end, peak.end);
    c.(peaks := c.peaks + [peak], end := end, len := c.start - end, count := c.count + 1,
       pops := c.pops + [peak.pop],
       foldChange := (c.foldChange + peak.foldChange) / 2.0,
       log10p := (c.log10p + peak.log10p) / 2.0,
       popToMaxHeight := c.popToMaxHeight[peak.pop := RealMax(c.popToMaxHeight[peak.pop], Ratio(peak, totals))],
       popToReads := c.popToReads[peak.pop := c.popToReads[peak.pop] + [peak.nReads]])
  }

  /** `add` never changes the cluster's name, chromosome or start, nor the
    * entries of populations other than the peak's; the peak's population
    * gets its read count appended and keeps the larger of its old height
    * and the peak's ratio. */
  lemma AddPeakKeeps(c: ClusterVal, peak: Peak, totals: map<string, real>)
    requires Keyed(c) && Member(peak, totals)
    ensures var d := AddPeak(c, peak, totals);
            && d.name == c.name && d.chrom == c.chrom && d.start == c.start
            && d.end >= c.end && d.end >= peak.end && (d.end == c.end || d.end == peak.end)
            && (forall p :: p != peak.pop ==> (p in d.popToMaxHeight <==> p in c.popToMaxHeight))
            && (forall p :: p in c.popToMaxHeight && p != peak.pop ==> d.popToMaxHeight[p] == c.popToMaxHeight[p])
            && (forall p :: p in c.popToReads && p != peak.pop ==> d.popToReads[p] == c.popToReads[p])
            && d.popToReads[peak.pop] == c.popToReads[peak.pop] + [peak.nReads]
            && d.popToMaxHeight[peak.pop] >= c.popToMaxHeight[peak.pop]
            && d.popToMaxHeight[peak.pop] >= Ratio(peak, totals)
  {
  }

  /** The peaks' largest end. */
  function MaxEnd(peaks: seq<Peak>): int
    requires |peaks| >= 1
    decreases |peaks|
  {
    if |peaks| == 1 then peaks[0].end
    else IntMax(MaxEnd(peaks[..|peaks| - 1]), peaks[|peaks| - 1].end)
  }

  lemma {:induction false} MaxEndSpec(peaks: seq<Peak>)
    requires |peaks| >= 1
    ensures forall i :: 0 <= i < |peaks| ==> peaks[i].end <= MaxEnd(peaks)
    ensures exists i :: 0 <= i < |peaks| && peaks[i].end == MaxEnd(peaks)
    decreases |peaks|
  {
    if |peaks| > 1 {
      var init := peaks[..|peaks| - 1];
      MaxEndSpec(init);
      var last := peaks[|peaks| - 1];
      assert MaxEnd(peaks) == IntMax(MaxEnd(init), last.end);
      var j :| 0 <= j < |init| && init[j].end == MaxEnd(init);
      assert peaks[j] == init[j];
      if last.end > MaxEnd(init) {
        assert peaks[|peaks| - 1].end == MaxEnd(peaks);
      } else {
        assert peaks[j].end == MaxEnd(peaks);
      }
      forall i | 0 <= i < |peaks| ensures peaks[i].end <= MaxEnd(peaks) {
        if i < |init| {
          assert peaks[i] == init[i];
        }
      }
    } else {
      assert peaks[0].end == MaxEnd(peaks);
    }
  }

  /** Each value averaged with the running result in turn, first to last. */
  function PairwiseAverage(xs: seq<real>): real
    requires |xs| >= 1
    decreases |xs|
  {
    if |xs| == 1 then xs[0]
    else (PairwiseAverage(xs[..|xs| - 1]) + xs[|xs| - 1]) / 2.0
  }

  /** The pairwise average is not the mean and depends on the order. */
  lemma PairwiseAverageOrder()
    ensures PairwiseAverage([1.0, 2.0, 3.0]) == 2.25
    ensures PairwiseAverage([3.0, 2.0, 1.0]) == 1.75
  {
    assert [1.0, 2.0, 3.0][..2] == [1.0, 2.0];
    assert [1.0, 2.0][..1] == [1.0];
    assert [3.0, 2.0, 1.0][..2] == [3.0, 2.0];
    assert [3.0, 2.0][..1] == [3.0];
  }

  function FoldChanges(peaks: seq<Peak>): (xs: seq<real>)
    ensures |xs| == |peaks|
    decreases |peaks|
  {
    if peaks == [] then []
    else FoldChanges(peaks[..|peaks| - 1]) + [peaks[|peaks| - 1].foldChange]
  }

  function Log10ps(peaks: seq<Peak>): (xs: seq<real>)
    ensures |xs| == |peaks|
    decreases |peaks|
  {
    if peaks == [] then []
    else Log10ps(peaks[..|peaks| - 1]) + [peaks[|peaks| - 1].log10p]
  }

  /** The read counts of the peaks of population `p`, in order. */
  function ReadsOf(peaks: seq<Peak>, p: string): seq<int>
    decreases |peaks|
  {
    if peaks == [] then []
    else
      var last := peaks[|peaks| - 1];
      ReadsOf(peaks[..|peaks| - 1], p) + (if last.pop == p then [last.nReads] else [])
  }

  predicate Members(peaks: seq<Peak>, totals: map<string, real>) {
    forall i :: 0 <= i < |peaks| ==> Member(peaks[i], totals)
  }

  /** The recorded maximum height ratio of population `p`: the first peak
    * sets its own population's entry, the others start at zero, and every
    * later peak raises its population's entry to its ratio if larger. */
  function MaxHeight(peaks: seq<Peak>, p: string, totals: map<string, real>): real
    requires |peaks| >= 1 && Members(peaks, totals)
    decreases |peaks|
  {
    var last := peaks[|peaks| - 1];
    if |peaks| == 1 then (if last.pop == p then Ratio(last, totals) else 0.0)
    else
      var m := MaxHeight(peaks[..|peaks| - 1], p, totals);
      if last.pop == p then RealMax(m, Ratio(last, totals)) else m
  }

  /** The recorded height of `p` is at least every ratio of its peaks, and is
    * one of them or zero. */
  lemma {:induction false} MaxHeightSpec(peaks: seq<Peak>, p: string, totals: map<string, real>)
    requires |peaks| >= 1 && Members(peaks, totals)
    ensures forall i :: 0 <= i < |peaks| && peaks[i].pop == p ==>
              Ratio(peaks[i], totals) <= MaxHeight(peaks, p, totals)
    ensures MaxHeight(peaks, p, totals) == 0.0
            || exists i :: 0 <= i < |peaks| && peaks[i].pop == p
                           && MaxHeight(peaks, p, totals) == Ratio(peaks[i], totals)
    decreases |peaks|
  {
    if |peaks| > 1 {
      var init := peaks[..|peaks| - 1];
      MaxHeightSpec(init, p, totals);
      forall i | 0 <= i < |init| ensures init[i] == peaks[i] { }
    }
  }

  /** Everything a cluster's fields say about its member peaks. */
  ghost predicate WellFormed(c: ClusterVal, totals: map<string, real>) {
    |c.peaks| >= 1 && Members(c.peaks, totals)
    && c.count == |c.peaks| == |c.pops|
    && (forall i :: 0 <= i < |c.peaks| ==> c.pops[i] == c.peaks[i].pop)
    && c.name == ClusterName(c.peaks[0]) && c.chrom == c.peaks[0].chrom
    && c.start == c.peaks[0].start
    && c.end == MaxEnd(c.peaks) && c.len == c.start - c.end
    && c.foldChange == PairwiseAverage(FoldChanges(c.peaks))
    && c.log10p == PairwiseAverage(Log10ps(c.peaks))
    && (forall p :: p in c.popToReads <==> p in ALL_POPS)
    && (forall p :: p in c.popToMaxHeight <==> p in ALL_POPS)
    && (forall p :: p in ALL_POPS ==> c.popToReads[p] == ReadsOf(c.peaks, p))
    && (forall p :: p in ALL_POPS ==> c.popToMaxHeight[p] == MaxHeight(c.peaks, p, totals))
  }

  lemma NewClusterWellFormed(peak: Peak, totals: map<string, real>)
    requires Member(peak, totals)
    ensures WellFormed(NewCluster(peak, totals), totals)
    ensures NewCluster(peak, totals).peaks == [peak]
  {
  }

  /** Adding a peak keeps the name, chromosome and start of the first peak,
    * appends the peak, and keeps every field in step with the members. */
  lemma AddPeakWellFormed(c: ClusterVal, peak: Peak, totals: map<string, real>)
    requires WellFormed(c, totals) && Member(peak, totals)
    ensures WellFormed(AddPeak(c, peak, totals), totals)
    ensures var d := AddPeak(c, peak, totals);
            d.peaks == c.peaks + [peak] && d.count == c.count + 1
            && d.name == c.name && d.chrom == c.chrom && d.start == c.start
  {
    var ps := c.peaks + [peak];
    assert ps[..|ps| - 1] == c.peaks;
    var d := AddPeak(c, peak, totals);
    assert Members(ps, totals) by {
      forall i | 0 <= i < |ps| ensures Member(ps[i], totals) {
        if i < |c.peaks| {
          assert ps[i] == c.peaks[i];
        }
      }
    }
    assert ps[0] == c.peaks[0];
    forall p | p in ALL_POPS
      ensures d.popToReads[p] == ReadsOf(ps, p)
      ensures d.popToMaxHeight[p] == MaxHeight(ps, p, totals)
    {
    }
  }

  /** The `Cluster` object: one merged peak. */
  class Cluster {
    var name: string
    var peaks: seq<Peak>
    var chrom: string
    var start: int
    var end: int
    var len: int
    var foldChange: real
    var log10p: real
    var pops: seq<string>
    var count: int
    var popToMaxHeight: map<string, real>
    var popToReads: map<string, seq<int>>

    function Value(): ClusterVal
      reads this
    {
      ClusterVal(name, peaks, chrom, start, end, len, foldChange, log10p, pops, count,
                 popToMaxHeight, popToReads)
    }

    constructor (peak: Peak, totals: map<string, real>)
      requires Member(peak, totals)
      ensures Value() == NewCluster(peak, totals)
    {
      name := ClusterName(peak);
      peaks := [peak];
      chrom := peak.chrom;
      start := peak.start;
      end := peak.end;
      len := peak.start - peak.end;
      foldChange := peak.foldChange;
      log10p := peak.log10p;
      pops := [peak.pop];
      count := 1;
      popToMaxHeight := ZeroHeights()[peak.pop := Ratio(peak, totals)];
      var empty := NoReads();
      popToReads := empty[peak.pop := empty[peak.pop] + [peak.nReads]];
    }

    method Add(peak: Peak, totals: map<string, real>)
      requires Keyed(Value()) && Member(peak, totals)
      modifies this
      ensures Value() == AddPeak(old(Value()), peak, totals)
    {
      AddPeakKeeps(Value(), peak, totals);
      var newEnd := IntMax(end, peak.end);
      var height := RealMax(popToMaxHeight[peak.pop], Ratio(peak, totals));
      var popReads := popToReads[peak.pop] + [peak.nReads];
      var fold, l10p := (foldChange + peak.foldChange) / 2.0, (log10p + peak.log10p) / 2.0;
      var heights := popToMaxHeight[peak.pop := height];
      var readsByPop := popToReads[peak.pop := popReads];
      peaks, end, len, count, pops, foldChange, log10p, popToMaxHeight, popToReads :=
        peaks + [peak], newEnd, start - newEnd, count + 1, pops + [peak.pop], fold, l10p, heights, readsByPop;
    }
  }

  // ---------------------------------------------------------------------------
  // Running statistics

  /** `m[k] += 1`, or `m[k] = 1` for a new key. */
  function Tally(m: map<int, int>, k: int): map<int, int> {
    if k in m then m[k := m[k] + 1] else m[k := 1]
  }

  /** `len(pops) - len(set(pops))`. */
  function ExtraPeaks(c: ClusterVal): int {
    |c.pops| - |set p | p in c.pops|
  }

  /** `extra_pops` counts a written cluster only when it has extra peaks. */
  function TallyExtra(m: map<int, int>, c: ClusterVal): map<int, int> {
    var d := ExtraPeaks(c);
    if d != 0 then Tally(m, d) else m
  }

  /** Reference: `cluster_sizes` after writing `written`. */
  function SizesOf(written: seq<ClusterVal>): map<int, int>
    decreases |written|
  {
    if written == [] then map[]
    else Tally(SizesOf(written[..|written| - 1]), written[|written| - 1].count)
  }

  /** Reference: `extra_pops` after writing `written`. */
  function ExtrasOf(written: seq<ClusterVal>): map<int, int>
    decreases |written|
  {
    if written == [] then map[]
    else TallyExtra(ExtrasOf(written[..|written| - 1]), written[|written| - 1])
  }

  /** The member peaks of the written clusters, in the order written. */
  function Flatten(written: seq<ClusterVal>): seq<Peak>
    decreases |written|
  {
    if written == [] then []
    else Flatten(written[..|written| - 1]) + written[|written| - 1].peaks
  }

  function SumCounts(written: seq<ClusterVal>): int
    decreases |written|
  {
    if written == [] then 0
    else SumCounts(written[..|written| - 1]) + written[|written| - 1].count
  }

  lemma HasKey(keys: set<int>)
    requires keys != {}
    ensures exists k :: k in keys
  {
    if forall k :: k !in keys {
      assert false;
    }
  }

  /** `sum(k * v for k, v in m.items())`. */
  ghost function SumMap(m: map<int, int>): int
    decreases |m.Keys|
  {
    if m.Keys == {} then 0
    else
      HasKey(m.Keys);
      var k :| k in m.Keys;
      assert (m - {k}).Keys == m.Keys - {k};
      k * m[k] + SumMap(m - {k})
  }

  lemma {:induction false} SumMapRemove(m: map<int, int>, y: int)
    requires y in m
    ensures SumMap(m) == y * m[y] + SumMap(m - {y})
    decreases |m.Keys|, 1
  {
    assert exists x :: x in m && SumMap(m) == x * m[x] + SumMap(m - {x});
    var x :| x in m && SumMap(m) == x * m[x] + SumMap(m - {x});
    if x != y {
      SumMapSwap(m, x, y);
    }
  }

  /** Removing `x` first or `y` first comes to the same sum. */
  lemma {:induction false} SumMapSwap(m: map<int, int>, x: int, y: int)
    requires x in m && y in m && x != y
    ensures x * m[x] + SumMap(m - {x}) == y * m[y] + SumMap(m - {y})
    decreases |m.Keys|, 0
  {
    var mx, my := m - {x}, m - {y};
    assert SumMap(mx) == y * m[y] + SumMap(mx - {y}) by {
      assert mx.Keys == m.Keys - {x} && mx[y] == m[y];
      SumMapRemove(mx, y);
    }
    assert SumMap(my) == x * m[x] + SumMap(my - {x}) by {
      assert my.Keys == m.Keys - {y} && my[x] == m[x];
      SumMapRemove(my, x);
    }
    assert mx - {y} == my - {x};
  }

  lemma SumMapTally(m: map<int, int>, k: int)
    ensures SumMap(Tally(m, k)) == SumMap(m) + k
  {
    if k in m {
      SumMapTallyOld(m, k);
    } else {
      var t := Tally(m, k);
      SumMapRemove(t, k);
      assert t - {k} == m;
    }
  }

  lemma SumMapTallyOld(m: map<int, int>, k: int)
    requires k in m
    ensures SumMap(Tally(m, k)) == SumMap(m) + k
  {
    var t := m[k := m[k] + 1];
    SumMapRemove(t, k);
    SumMapRemove(m, k);
    assert t - {k} == m - {k};
    assert k * (m[k] + 1) == k * m[k] + k;
  }

  /** The logged "Total clustered" is the sum of the written counts. */
  lemma {:induction false} SumMapSizes(written: seq<ClusterVal>)
    ensures SumMap(SizesOf(written)) == SumCounts(written)
    decreases |written|
  {
    if written != [] {
      SumMapSizes(written[..|written| - 1]);
      SumMapTally(SizesOf(written[..|written| - 1]), written[|written| - 1].count);
    }
  }


  // ---------------------------------------------------------------------------
  // The merge sweep

  /** The sweep's variables between two peaks: the lagged `prior_peak` and
    * `peak`, the open cluster, the counters, and the clusters written so far. */
  datatype MergeState = MergeState(
    prior: Peak, peak: Peak, cluster: ClusterVal, lines: int, clusters: int,
    clusterSizes: map<int, int>, extraPops: map<int, int>, written: seq<ClusterVal>)

  /** What a finished sweep leaves: the written clusters and the statistics. */
  datatype MergeOut = MergeOut(
    written: seq<ClusterVal>, lines: int, clusters: int,
    clusterSizes: map<int, int>, extraPops: map<int, int>)

  predicate Ready(st: MergeState) {
    st.peak.pop in ALL_POPS && Keyed(st.cluster)
  }

  /** `Cluster(peak)`, whose height ratio divides by the population's share. */
  function SeedCluster(peak: Peak, totals: map<string, real>): (r: Result<ClusterVal>)
    requires peak.pop in ALL_POPS && Covers(totals)
    ensures r.Ok? ==> Keyed(r.value)
  {
    if totals[peak.pop] == 0.0 then Err(ZeroDivisionError) else Ok(NewCluster(peak, totals))
  }

  /** `cluster.add(peak)`. */
  function JoinCluster(c: ClusterVal, peak: Peak, totals: map<string, real>): (r: Result<ClusterVal>)
    requires Keyed(c) && peak.pop in ALL_POPS && Covers(totals)
    ensures r.Ok? ==> Keyed(r.value)
  {
    if totals[peak.pop] == 0.0 then Err(ZeroDivisionError) else Ok(AddPeak(c, peak, totals))
  }

  function Abs(x: real): real {
    if x < 0.0 then -x else x
  }

  /** How far the prior peak reaches into the current one, as a fraction of
    * the open cluster's (negative) length. */
  function OverlapAmount(prior: Peak, peak: Peak, len: int): real
    requires len != 0
  {
    Abs((prior.end - peak.start) as real / len as real)
  }

  /** The interior test: the peak starts before the prior peak's end less
    * the offset. */
  predicate OverlapsPrior(prior: Peak, peak: Peak) {
    peak.start < prior.end - OFFSET
  }

  /** The test against the next peak. */
  predicate OverlapsNext(peak: Peak, next: Peak) {
    next.start < peak.end - OFFSET
  }

  /** The current peak goes into the open cluster. */
  function Extend(st: MergeState, next: Peak, lines: int, totals: map<string, real>): (r: Result<MergeState>)
    requires Ready(st) && Covers(totals)
  {
    var c :- JoinCluster(st.cluster, st.peak, totals);
    Ok(st.(prior := st.peak, peak := next, cluster := c, lines := lines))
  }

  /** The open cluster is counted and written; the current peak seeds a new one. */
  function Close(st: MergeState, next: Peak, lines: int, totals: map<string, real>): (r: Result<MergeState>)
    requires Ready(st) && Covers(totals)
  {
    var c :- SeedCluster(st.peak, totals);
    Ok(MergeState(st.peak, next, c, lines, st.clusters + 1,
                  Tally(st.clusterSizes, st.cluster.count), TallyExtra(st.extraPops, st.cluster),
                  st.written + [st.cluster]))
  }

  /** One turn of the loop, with `next` the newly read peak. */
  function MergeStep(st: MergeState, next: Peak, totals: map<string, real>, overlap: real): (r: Result<MergeState>)
    requires Ready(st) && next.pop in ALL_POPS && Covers(totals)
    ensures r.Ok? ==> Ready(r.value) && r.value.prior == st.peak && r.value.peak == next
  {
    var lines := st.lines + 1;
    if OverlapsPrior(st.prior, st.peak) && OverlapsNext(st.peak, next) then
      if st.cluster.len == 0 then Err(ZeroDivisionError)
      else if OverlapAmount(st.prior, st.peak, st.cluster.len) > overlap then
        Extend(st, next, lines, totals)
      else Close(st, next, lines, totals)
    else if OverlapsPrior(st.prior, st.peak) then Extend(st, next, lines, totals)
    else Close(st, next, lines, totals)
  }

  /** The loop over the peaks after the first two. */
  function MergeLoop(rest: seq<Peak>, st0: MergeState, totals: map<string, real>, overlap: real): (r: Result<MergeState>)
    requires Ready(st0) && AllKnown(rest) && Covers(totals)
    ensures r.Ok? ==> Ready(r.value)
    decreases |rest|
  {
    if rest == [] then Ok(st0)
    else
      var st :- MergeLoop(rest[..|rest| - 1], st0, totals, overlap);
      MergeStep(st, rest[|rest| - 1], totals, overlap)
  }

  /** The first two peaks: StopIteration when there are fewer. */
  function Start(peaks: seq<Peak>, totals: map<string, real>): (r: Result<MergeState>)
    requires AllKnown(peaks) && Covers(totals)
    ensures r.Ok? ==> Ready(r.value)
  {
    if |peaks| == 0 then Err(StopIteration)
    else
      var c :- SeedCluster(peaks[0], totals);
      if |peaks| == 1 then Err(StopIteration)
      else Ok(MergeState(peaks[0], peaks[1], c, 2, 1, map[], map[], []))
  }

  /** The sweep's result once `c` is written last. */
  function Written(written: seq<ClusterVal>, lines: int, clusters: int, sizes: map<int, int>,
                   extra: map<int, int>, c: ClusterVal): (r: Result<MergeOut>)
    ensures r.Ok? && r.value.written == written + [c] && r.value.lines == lines
    ensures r.value.clusters == clusters
  {
    Ok(MergeOut(written + [c], lines, clusters, Tally(sizes, c.count), TallyExtra(extra, c)))
  }

  /** The last peak joins when it starts before the prior peak's end plus the
    * offset; otherwise the open cluster is written and the last peak seeds a
    * new one. Then the open cluster is written. */
  function Finish(st: MergeState, totals: map<string, real>): (r: Result<MergeOut>)
    requires Ready(st) && Covers(totals)
  {
    if st.peak.start - OFFSET < st.prior.end then
      var c :- JoinCluster(st.cluster, st.peak, totals);
      Written(st.written, st.lines, st.clusters, st.clusterSizes, st.extraPops, c)
    else
      var c :- SeedCluster(st.peak, totals);
      Written(st.written + [st.cluster], st.lines, st.clusters + 1,
              Tally(st.clusterSizes, st.cluster.count), TallyExtra(st.extraPops, st.cluster), c)
  }

  /** The whole sweep over peaks whose populations are known. */
  function Merged(peaks: seq<Peak>, totals: map<string, real>, overlap: real): Result<MergeOut>
    requires AllKnown(peaks) && Covers(totals)
  {
    var st0 :- Start(peaks, totals);
    var st :- MergeLoop(peaks[2..], st0, totals, overlap);
    Finish(st, totals)
  }

  // ---------------------------------------------------------------------------
  // What the sweep guarantees

  /** An interior peak joins the open cluster exactly when it starts before
    * the prior peak's end less the offset and either does not reach the next
    * peak or overlaps the prior one by more than `overlap`; otherwise the
    * open cluster is written and the peak seeds a new one. */
  lemma MergeStepDecision(st: MergeState, next: Peak, totals: map<string, real>, overlap: real)
    requires Ready(st) && next.pop in ALL_POPS && Covers(totals)
    requires MergeStep(st, next, totals, overlap).Ok?
    ensures var r := MergeStep(st, next, totals, overlap).value;
            var joins := OverlapsPrior(st.prior, st.peak)
                         && (!OverlapsNext(st.peak, next)
                             || (st.cluster.len != 0 && OverlapAmount(st.prior, st.peak, st.cluster.len) > overlap));
            r.lines == st.lines + 1
            && (joins ==> r.cluster == AddPeak(st.cluster, st.peak, totals)
                          && r.written == st.written && r.clusters == st.clusters)
            && (!joins ==> r.cluster == NewCluster(st.peak, totals)
                           && r.written == st.written + [st.cluster] && r.clusters == st.clusters + 1)
  {
  }

  /** A turn fails only on a zero-length open cluster when both overlap tests
    * hold, or on a peak whose population has no reads. */
  lemma MergeStepErr(st: MergeState, next: Peak, totals: map<string, real>, overlap: real)
    requires Ready(st) && next.pop in ALL_POPS && Covers(totals)
    ensures MergeStep(st, next, totals, overlap).Err? <==>
              (OverlapsPrior(st.prior, st.peak) && OverlapsNext(st.peak, next) && st.cluster.len == 0)
              || totals[st.peak.pop] == 0.0
    ensures MergeStep(st, next, totals, overlap).Err? ==>
              MergeStep(st, next, totals, overlap).fault == ZeroDivisionError
  {
  }

  /** The last peak joins when it starts less than the offset past the prior
    * peak's end; either way the last cluster written holds it. */
  lemma FinishDecision(st: MergeState, totals: map<string, real>)
    requires Ready(st) && Covers(totals) && Finish(st, totals).Ok?
    ensures var out := Finish(st, totals).value;
            (st.peak.start - OFFSET < st.prior.end ==>
               out.written == st.written + [AddPeak(st.cluster, st.peak, totals)]
               && out.clusters == st.clusters)
            && (st.peak.start - OFFSET >= st.prior.end ==>
               out.written == st.written + [st.cluster] + [NewCluster(st.peak, totals)]
               && out.clusters == st.clusters + 1)
            && out.lines == st.lines
  {
  }

  /** With fewer than two peaks the sweep raises StopIteration, unless the
    * only peak's population has no reads. */
  lemma MergedShort(peaks: seq<Peak>, totals: map<string, real>, overlap: real)
    requires AllKnown(peaks) && Covers(totals) && |peaks| < 2
    ensures |peaks| == 0 ==> Merged(peaks, totals, overlap) == Err(StopIteration)
    ensures |peaks| == 1 ==>
              Merged(peaks, totals, overlap) ==
                Err(if totals[peaks[0].pop] == 0.0 then ZeroDivisionError else StopIteration)
  {
  }

  /** The sweep's state after reading the first `n` peaks. */
  ghost predicate Consumed(st: MergeState, peaks: seq<Peak>, n: int, totals: map<string, real>) {
    2 <= n <= |peaks| && st.prior == peaks[n - 2] && st.peak == peaks[n - 1]
    && Flatten(st.written) + st.cluster.peaks == peaks[..n - 1]
    && st.lines == n && st.clusters == |st.written| + 1
    && st.clusterSizes == SizesOf(st.written) && st.extraPops == ExtrasOf(st.written)
    && Counted(st.cluster)
    && forall k :: 0 <= k < |st.written| ==> Counted(st.written[k])
  }

  /** A cluster's count is its number of member peaks. */
  predicate Counted(c: ClusterVal) {
    c.count == |c.peaks| >= 1
  }

  lemma StartConsumed(peaks: seq<Peak>, totals: map<string, real>)
    requires AllKnown(peaks) && Covers(totals) && Start(peaks, totals).Ok?
    ensures Consumed(Start(peaks, totals).value, peaks, 2, totals)
  {
    assert peaks[..1] == [peaks[0]];
  }

  lemma ExtendConsumed(st: MergeState, peaks: seq<Peak>, n: int, totals: map<string, real>)
    requires Consumed(st, peaks, n, totals) && n < |peaks| && Ready(st) && Covers(totals)
    requires Extend(st, peaks[n], n + 1, totals).Ok?
    ensures Consumed(Extend(st, peaks[n], n + 1, totals).value, peaks, n + 1, totals)
  {
    TakeSnoc(peaks, n);
  }

  lemma CloseConsumed(st: MergeState, peaks: seq<Peak>, n: int, totals: map<string, real>)
    requires Consumed(st, peaks, n, totals) && n < |peaks| && Ready(st) && Covers(totals)
    requires Close(st, peaks[n], n + 1, totals).Ok?
    ensures Consumed(Close(st, peaks[n], n + 1, totals).value, peaks, n + 1, totals)
  {
    var c := NewCluster(st.peak, totals);
    CloseValue(st, peaks[n], n + 1, totals);
    WriteOne(st.written, st.cluster);
    assert c.peaks == [st.peak] && Counted(c);
    TakeSnoc(peaks, n);
  }

  lemma StepConsumed(st: MergeState, peaks: seq<Peak>, n: int, totals: map<string, real>, overlap: real)
    requires Consumed(st, peaks, n, totals) && n < |peaks| && Ready(st) && Covers(totals)
    requires peaks[n].pop in ALL_POPS
    requires MergeStep(st, peaks[n], totals, overlap).Ok?
    ensures Consumed(MergeStep(st, peaks[n], totals, overlap).value, peaks, n + 1, totals)
  {
    MergeStepErr(st, peaks[n], totals, overlap);
    MergeStepShape(st, peaks[n], totals, overlap);
    if Joins(st, peaks[n], overlap) {
      ExtendConsumed(st, peaks, n, totals);
    } else {
      CloseConsumed(st, peaks, n, totals);
    }
  }

  lemma {:induction false} LoopConsumed(peaks: seq<Peak>, st0: MergeState, n: int,
                                        totals: map<string, real>, overlap: real)
    requires AllKnown(peaks) && Covers(totals) && Ready(st0) && Consumed(st0, peaks, 2, totals)
    requires 2 <= n <= |peaks|
    requires MergeLoop(peaks[2..n], st0, totals, overlap).Ok?
    ensures Consumed(MergeLoop(peaks[2..n], st0, totals, overlap).value, peaks, n, totals)
    decreases n
  {
    if n > 2 {
      LoopSnoc(peaks, n - 1, st0, totals, overlap);
      LoopConsumed(peaks, st0, n - 1, totals, overlap);
      StepConsumed(MergeLoop(peaks[2..n - 1], st0, totals, overlap).value, peaks, n - 1, totals, overlap);
    }
  }

  lemma TakeSnoc(peaks: seq<Peak>, n: int)
    requires 1 <= n <= |peaks|
    ensures peaks[..n] == peaks[..n - 1] + [peaks[n - 1]]
  {
  }

  /** Appending a written cluster adds its peaks, its count and its tallies. */
  lemma WriteOne(written: seq<ClusterVal>, c: ClusterVal)
    ensures Flatten(written + [c]) == Flatten(written) + c.peaks
    ensures SizesOf(written + [c]) == Tally(SizesOf(written), c.count)
    ensures ExtrasOf(written + [c]) == TallyExtra(ExtrasOf(written), c)
  {
    assert (written + [c])[..|written|] == written;
  }

  /** What a finished sweep must satisfy once all peaks are read. */
  ghost predicate CoversAll(out: MergeOut, peaks: seq<Peak>) {
    Flatten(out.written) == peaks && out.lines == |peaks| && out.clusters == |out.written|
    && out.clusterSizes == SizesOf(out.written) && out.extraPops == ExtrasOf(out.written)
    && (forall k :: 0 <= k < |out.written| ==> Counted(out.written[k]))
  }

  lemma FinishJoinCovers(st: MergeState, peaks: seq<Peak>, totals: map<string, real>)
    requires Ready(st) && Covers(totals) && Consumed(st, peaks, |peaks|, totals)
    requires st.peak.start - OFFSET < st.prior.end && totals[st.peak.pop] != 0.0
    ensures Finish(st, totals).Ok? && CoversAll(Finish(st, totals).value, peaks)
  {
    var c := AddPeak(st.cluster, st.peak, totals);
    FinishJoinValue(st, totals);
    WriteOne(st.written, c);
    assert c.peaks == st.cluster.peaks + [st.peak];
    TakeSnoc(peaks, |peaks|);
    assert peaks[..|peaks|] == peaks;
  }

  lemma FinishSeedCovers(st: MergeState, peaks: seq<Peak>, totals: map<string, real>)
    requires Ready(st) && Covers(totals) && Consumed(st, peaks, |peaks|, totals)
    requires st.peak.start - OFFSET >= st.prior.end && totals[st.peak.pop] != 0.0
    ensures Finish(st, totals).Ok? && CoversAll(Finish(st, totals).value, peaks)
  {
    var c := NewCluster(st.peak, totals);
    FinishSeedValue(st, totals);
    WriteOne(st.written, st.cluster);
    WriteOne(st.written + [st.cluster], c);
    TakeSnoc(peaks, |peaks|);
    assert peaks[..|peaks|] == peaks;
  }

  lemma FinishCovers(st: MergeState, peaks: seq<Peak>, totals: map<string, real>)
    requires Ready(st) && Covers(totals) && Consumed(st, peaks, |peaks|, totals)
    requires Finish(st, totals).Ok?
    ensures CoversAll(Finish(st, totals).value, peaks)
  {
    if st.peak.start - OFFSET < st.prior.end {
      FinishJoinCovers(st, peaks, totals);
    } else {
      FinishSeedCovers(st, peaks, totals);
    }
  }

  /** Every written cluster's count is its number of member peaks, so the
    * counts add up to the length of the flattened peaks. */
  lemma {:induction false} SumCountsFlatten(written: seq<ClusterVal>)
    requires forall k :: 0 <= k < |written| ==> Counted(written[k])
    ensures SumCounts(written) == |Flatten(written)|
    decreases |written|
  {
    if written != [] {
      SumCountsFlatten(written[..|written| - 1]);
    }
  }

  /** Every peak lands in exactly one written cluster, in input order; the
    * counters agree with what was written: `lines` is the number of peaks,
    * `clusters` the number of writes, and the logged sum of size times
    * frequency is `lines` again. */
  lemma MergedCovers(peaks: seq<Peak>, totals: map<string, real>, overlap: real)
    requires AllKnown(peaks) && Covers(totals) && Merged(peaks, totals, overlap).Ok?
    ensures var out := Merged(peaks, totals, overlap).value;
            Flatten(out.written) == peaks
            && out.lines == |peaks| && out.clusters == |out.written|
            && out.clusterSizes == SizesOf(out.written) && out.extraPops == ExtrasOf(out.written)
            && SumCounts(out.written) == out.lines
            && SumMap(out.clusterSizes) == out.lines
  {
    var st0 := Start(peaks, totals).value;
    StartConsumed(peaks, totals);
    assert peaks[2..|peaks|] == peaks[2..];
    LoopConsumed(peaks, st0, |peaks|, totals, overlap);
    var st := MergeLoop(peaks[2..], st0, totals, overlap).value;
    assert Merged(peaks, totals, overlap) == Finish(st, totals);
    FinishCovers(st, peaks, totals);
    var out := Merged(peaks, totals, overlap).value;
    SumCountsFlatten(out.written);
    SumMapSizes(out.written);
  }

  /** Every cluster of `ws` is well formed. */
  ghost predicate AllFormed(ws: seq<ClusterVal>, totals: map<string, real>) {
    forall k :: 0 <= k < |ws| ==> WellFormed(ws[k], totals)
  }

  /** The open cluster and every written one are well formed. */
  ghost predicate Formed(st: MergeState, totals: map<string, real>) {
    WellFormed(st.cluster, totals) && AllFormed(st.written, totals)
  }

  lemma StepFormed(st: MergeState, next: Peak, totals: map<string, real>, overlap: real)
    requires Ready(st) && next.pop in ALL_POPS && Covers(totals) && Formed(st, totals)
    requires MergeStep(st, next, totals, overlap).Ok?
    ensures Formed(MergeStep(st, next, totals, overlap).value, totals)
  {
    var r := MergeStep(st, next, totals, overlap).value;
    MergeStepDecision(st, next, totals, overlap);
    if r.written == st.written {
      AddPeakWellFormed(st.cluster, st.peak, totals);
    } else {
      NewClusterWellFormed(st.peak, totals);
      AllFormedSnoc(st.written, st.cluster, totals);
    }
  }

  lemma {:induction false} LoopFormed(rest: seq<Peak>, st0: MergeState, totals: map<string, real>, overlap: real)
    requires Ready(st0) && AllKnown(rest) && Covers(totals) && Formed(st0, totals)
    requires MergeLoop(rest, st0, totals, overlap).Ok?
    ensures Formed(MergeLoop(rest, st0, totals, overlap).value, totals)
    decreases |rest|
  {
    if rest != [] {
      var init := rest[..|rest| - 1];
      LoopFormed(init, st0, totals, overlap);
      StepFormed(MergeLoop(init, st0, totals, overlap).value, rest[|rest| - 1], totals, overlap);
    }
  }

  lemma AllFormedSnoc(ws: seq<ClusterVal>, c: ClusterVal, totals: map<string, real>)
    requires AllFormed(ws, totals) && WellFormed(c, totals)
    ensures AllFormed(ws + [c], totals)
  {
    forall k | 0 <= k < |ws + [c]| ensures WellFormed((ws + [c])[k], totals) {
      if k < |ws| {
        assert (ws + [c])[k] == ws[k];
      }
    }
  }

  lemma FinishFormed(st: MergeState, totals: map<string, real>)
    requires Ready(st) && Covers(totals) && Formed(st, totals) && Finish(st, totals).Ok?
    ensures AllFormed(Finish(st, totals).value.written, totals)
  {
    FinishDecision(st, totals);
    if st.peak.start - OFFSET < st.prior.end {
      FinishJoinFormed(st, totals);
    } else {
      FinishSeedFormed(st, totals);
    }
  }

  lemma FinishJoinFormed(st: MergeState, totals: map<string, real>)
    requires Ready(st) && Covers(totals) && Formed(st, totals) && totals[st.peak.pop] != 0.0
    requires st.peak.start - OFFSET < st.prior.end
    ensures Finish(st, totals).Ok?
    ensures AllFormed(Finish(st, totals).value.written, totals)
  {
    var c := AddPeak(st.cluster, st.peak, totals);
    FinishJoinValue(st, totals);
    AddPeakWellFormed(st.cluster, st.peak, totals);
    AllFormedSnoc(st.written, c, totals);
  }

  lemma FinishSeedFormed(st: MergeState, totals: map<string, real>)
    requires Ready(st) && Covers(totals) && Formed(st, totals) && totals[st.peak.pop] != 0.0
    requires st.peak.start - OFFSET >= st.prior.end
    ensures Finish(st, totals).Ok?
    ensures AllFormed(Finish(st, totals).value.written, totals)
  {
    var c := NewCluster(st.peak, totals);
    FinishSeedValue(st, totals);
    NewClusterWellFormed(st.peak, totals);
    AllFormedSnoc(st.written, st.cluster, totals);
    AllFormedSnoc(st.written + [st.cluster], c, totals);
  }

  /** Every written cluster's fields agree with its member peaks: name,
    * chromosome and start of the first, the largest end, the pairwise
    * averages, and the reads and heights per population. */
  lemma MergedFormed(peaks: seq<Peak>, totals: map<string, real>, overlap: real)
    requires AllKnown(peaks) && Covers(totals) && Merged(peaks, totals, overlap).Ok?
    ensures var out := Merged(peaks, totals, overlap).value;
            forall k :: 0 <= k < |out.written| ==> WellFormed(out.written[k], totals)
  {
    var st0 := Start(peaks, totals).value;
    NewClusterWellFormed(peaks[0], totals);
    assert Formed(st0, totals);
    assert AllKnown(peaks[2..]) by {
      forall i | 0 <= i < |peaks[2..]| ensures peaks[2..][i].pop in ALL_POPS {
        assert peaks[2..][i] == peaks[i + 2];
      }
    }
    LoopFormed(peaks[2..], st0, totals, overlap);
    var st := MergeLoop(peaks[2..], st0, totals, overlap).value;
    assert Merged(peaks, totals, overlap) == Finish(st, totals);
    FinishFormed(st, totals);
  }

  // ---------------------------------------------------------------------------
  // The sweep as the program runs it

  lemma KnownSlice(peaks: seq<Peak>, a: int, b: int)
    requires AllKnown(peaks) && 0 <= a <= b <= |peaks|
    ensures AllKnown(peaks[a..b])
  {
    forall k | 0 <= k < b - a ensures peaks[a..b][k].pop in ALL_POPS {
      assert peaks[a..b][k] == peaks[a + k];
    }
  }

  /** Reading one more peak runs one more step of the loop. */
  lemma LoopSnoc(peaks: seq<Peak>, i: int, st0: MergeState, totals: map<string, real>, overlap: real)
    requires AllKnown(peaks) && Covers(totals) && Ready(st0) && 2 <= i < |peaks|
    ensures AllKnown(peaks[2..i]) && AllKnown(peaks[2..i + 1])
    ensures MergeLoop(peaks[2..i], st0, totals, overlap).Err? ==>
              MergeLoop(peaks[2..i + 1], st0, totals, overlap) == MergeLoop(peaks[2..i], st0, totals, overlap)
    ensures MergeLoop(peaks[2..i], st0, totals, overlap).Ok? ==>
              MergeLoop(peaks[2..i + 1], st0, totals, overlap)
              == MergeStep(MergeLoop(peaks[2..i], st0, totals, overlap).value, peaks[i], totals, overlap)
  {
    KnownSlice(peaks, 2, i);
    KnownSlice(peaks, 2, i + 1);
    assert peaks[2..i + 1][..i - 2] == peaks[2..i];
    assert peaks[2..i + 1][i - 2] == peaks[i];
  }

  /** A failed step ends the sweep with that failure. */
  lemma {:induction false} LoopErrPersists(peaks: seq<Peak>, i: int, j: int, st0: MergeState,
                                           totals: map<string, real>, overlap: real)
    requires AllKnown(peaks) && Covers(totals) && Ready(st0) && 2 <= i <= j <= |peaks|
    requires AllKnown(peaks[2..i]) && MergeLoop(peaks[2..i], st0, totals, overlap).Err?
    ensures AllKnown(peaks[2..j])
    ensures MergeLoop(peaks[2..j], st0, totals, overlap) == MergeLoop(peaks[2..i], st0, totals, overlap)
    decreases j - i
  {
    KnownSlice(peaks, 2, j);
    if i < j {
      LoopSnoc(peaks, i, st0, totals, overlap);
      LoopErrPersists(peaks, i + 1, j, st0, totals, overlap);
    }
  }

  /** The sweep after its first two peaks: the loop, then the last peak. */
  lemma MergedAfterLoop(peaks: seq<Peak>, st0: MergeState, totals: map<string, real>, overlap: real)
    requires AllKnown(peaks) && Covers(totals) && Start(peaks, totals) == Ok(st0)
    ensures AllKnown(peaks[2..|peaks|])
    ensures MergeLoop(peaks[2..|peaks|], st0, totals, overlap).Err? ==>
              Merged(peaks, totals, overlap) == Err(MergeLoop(peaks[2..|peaks|], st0, totals, overlap).fault)
    ensures MergeLoop(peaks[2..|peaks|], st0, totals, overlap).Ok? ==>
              Merged(peaks, totals, overlap) == Finish(MergeLoop(peaks[2..|peaks|], st0, totals, overlap).value, totals)
  {
    KnownSlice(peaks, 2, |peaks|);
    assert peaks[2..|peaks|] == peaks[2..];
  }

  /** `merge_peaks` over the parsed peaks: the lagged loop mutates one
    * `Cluster` object, writes it out when a peak starts a new cluster, and
    * writes the last one after the final peak. */
  method MergePeaks(peaks: seq<Peak>, totals: map<string, real>, overlap: real) returns (r: Result<MergeOut>)
    requires AllKnown(peaks) && Covers(totals)
    ensures r == Merged(peaks, totals, overlap)
  {
    if |peaks| == 0 {
      return Err(StopIteration);
    }
    var prior := peaks[0];
    if totals[prior.pop] == 0.0 {
      return Err(ZeroDivisionError);
    }
    var cluster := new Cluster(prior, totals);
    var lines, clusters := 1, 1;
    if |peaks| == 1 {
      return Err(StopIteration);
    }
    var peak := peaks[1];
    lines := lines + 1;
    var sizes: map<int, int>, extra: map<int, int>, written: seq<ClusterVal> := map[], map[], [];
    ghost var st0 := MergeState(prior, peak, cluster.Value(), lines, clusters, sizes, extra, written);
    assert Start(peaks, totals) == Ok(st0);
    KnownSlice(peaks, 2, 2);
    var i := 2;
    while i < |peaks|
      invariant 2 <= i <= |peaks| && fresh(cluster)
      invariant AllKnown(peaks[2..i])
      invariant MergeLoop(peaks[2..i], st0, totals, overlap)
                == Ok(MergeState(prior, peak, cluster.Value(), lines, clusters, sizes, extra, written))
    {
      LoopSnoc(peaks, i, st0, totals, overlap);
      var next := peaks[i];
      var res;
      res, clusters, sizes, extra, written :=
        Advance(cluster, prior, peak, next, lines, clusters, sizes, extra, written, totals, overlap);
      if res.Err? {
        LoopErrPersists(peaks, i + 1, |peaks|, st0, totals, overlap);
        MergedAfterLoop(peaks, st0, totals, overlap);
        return Err(res.fault);
      }
      cluster := res.value;
      prior, peak, lines := peak, next, lines + 1;
      i := i + 1;
    }
    MergedAfterLoop(peaks, st0, totals, overlap);
    r := FinishSweep(cluster, prior, peak, lines, clusters, sizes, extra, written, totals);
  }

  /** Whether the current peak joins the open cluster on a turn of the loop. */
  predicate Joins(st: MergeState, next: Peak, overlap: real) {
    OverlapsPrior(st.prior, st.peak)
    && (!OverlapsNext(st.peak, next)
        || (st.cluster.len != 0 && OverlapAmount(st.prior, st.peak, st.cluster.len) > overlap))
  }

  lemma MergeStepShape(st: MergeState, next: Peak, totals: map<string, real>, overlap: real)
    requires Ready(st) && next.pop in ALL_POPS && Covers(totals)
    requires !(OverlapsPrior(st.prior, st.peak) && OverlapsNext(st.peak, next) && st.cluster.len == 0)
    ensures MergeStep(st, next, totals, overlap)
            == if Joins(st, next, overlap) then Extend(st, next, st.lines + 1, totals)
               else Close(st, next, st.lines + 1, totals)
  {
  }

  /** The step taken when the current peak joins the open cluster. */
  lemma StepJoinValue(st: MergeState, next: Peak, totals: map<string, real>, overlap: real)
    requires Ready(st) && next.pop in ALL_POPS && Covers(totals) && totals[st.peak.pop] != 0.0
    requires Joins(st, next, overlap)
    ensures MergeStep(st, next, totals, overlap)
            == Ok(MergeState(st.peak, next, AddPeak(st.cluster, st.peak, totals), st.lines + 1,
                             st.clusters, st.clusterSizes, st.extraPops, st.written))
  {
    MergeStepShape(st, next, totals, overlap);
    assert JoinCluster(st.cluster, st.peak, totals) == Ok(AddPeak(st.cluster, st.peak, totals));
  }

  /** The step taken when the current peak seeds a new cluster. */
  lemma StepCloseValue(st: MergeState, next: Peak, totals: map<string, real>, overlap: real)
    requires Ready(st) && next.pop in ALL_POPS && Covers(totals) && totals[st.peak.pop] != 0.0
    requires !(OverlapsPrior(st.prior, st.peak) && OverlapsNext(st.peak, next) && st.cluster.len == 0)
    requires !Joins(st, next, overlap)
    ensures MergeStep(st, next, totals, overlap)
            == Ok(MergeState(st.peak, next, NewCluster(st.peak, totals), st.lines + 1, st.clusters + 1,
                             Tally(st.clusterSizes, st.cluster.count), TallyExtra(st.extraPops, st.cluster),
                             st.written + [st.cluster]))
  {
    MergeStepShape(st, next, totals, overlap);
    CloseValue(st, next, st.lines + 1, totals);
  }

  /** One turn of the loop: the current peak joins the open cluster (the
    * object is updated in place) or the open cluster is counted and written
    * and a new object is made for the peak. */
  method Advance(cluster: Cluster, prior: Peak, peak: Peak, next: Peak, lines: int, clusters: int,
                 sizes: map<int, int>, extra: map<int, int>, written: seq<ClusterVal>,
                 totals: map<string, real>, overlap: real)
    returns (r: Result<Cluster>, clusters': int, sizes': map<int, int>, extra': map<int, int>,
             written': seq<ClusterVal>)
    requires Ready(MergeState(prior, peak, cluster.Value(), lines, clusters, sizes, extra, written))
    requires next.pop in ALL_POPS && Covers(totals)
    modifies cluster
    ensures var st := MergeState(prior, peak, old(cluster.Value()), lines, clusters, sizes, extra, written);
            match r
            case Err(f) => MergeStep(st, next, totals, overlap) == Err(f)
            case Ok(c) =>
              (c == cluster || fresh(c))
              && MergeStep(st, next, totals, overlap)
                 == Ok(MergeState(peak, next, c.Value(), lines + 1, clusters', sizes', extra', written'))
  {
    ghost var st := MergeState(prior, peak, cluster.Value(), lines, clusters, sizes, extra, written);
    clusters', sizes', extra', written' := clusters, sizes, extra, written;
    var overlapPrior := peak.start < prior.end - OFFSET;
    var overlapNext := next.start < peak.end - OFFSET;
    var join := overlapPrior;
    if overlapPrior && overlapNext {
      if cluster.len == 0 {
        return Err(ZeroDivisionError), clusters', sizes', extra', written';
      }
      join := OverlapAmount(prior, peak, cluster.len) > overlap;
    }
    assert join == Joins(st, next, overlap);
    if totals[peak.pop] == 0.0 {
      MergeStepShape(st, next, totals, overlap);
      return Err(ZeroDivisionError), clusters', sizes', extra', written';
    }
    if join {
      cluster.Add(peak, totals);
      StepJoinValue(st, next, totals, overlap);
      r := Ok(cluster);
    } else {
      var open := cluster.Value();
      StepCloseValue(st, next, totals, overlap);
      sizes' := Tally(sizes, open.count);
      extra' := TallyExtra(extra, open);
      clusters' := clusters + 1;
      written' := written + [open];
      var seeded := new Cluster(peak, totals);
      var c := seeded.Value();
      assert c == NewCluster(peak, totals);
      r := Ok(seeded);
    }
  }

  lemma CloseValue(st: MergeState, next: Peak, lines: int, totals: map<string, real>)
    requires Ready(st) && Covers(totals) && totals[st.peak.pop] != 0.0
    ensures Close(st, next, lines, totals)
            == Ok(MergeState(st.peak, next, NewCluster(st.peak, totals), lines, st.clusters + 1,
                             Tally(st.clusterSizes, st.cluster.count), TallyExtra(st.extraPops, st.cluster),
                             st.written + [st.cluster]))
  {
    SeedClusterValue(st.peak, totals);
    CloseSeeded(st, next, lines, totals, NewCluster(st.peak, totals));
  }

  lemma CloseSeeded(st: MergeState, next: Peak, lines: int, totals: map<string, real>, c: ClusterVal)
    requires Ready(st) && Covers(totals) && SeedCluster(st.peak, totals) == Ok(c)
    ensures Close(st, next, lines, totals)
            == Ok(MergeState(st.peak, next, c, lines, st.clusters + 1,
                             Tally(st.clusterSizes, st.cluster.count), TallyExtra(st.extraPops, st.cluster),
                             st.written + [st.cluster]))
  {
  }

  lemma SeedClusterValue(peak: Peak, totals: map<string, real>)
    requires peak.pop in ALL_POPS && Covers(totals) && totals[peak.pop] != 0.0
    ensures SeedCluster(peak, totals) == Ok(NewCluster(peak, totals))
  {
  }

  lemma FinishJoinValue(st: MergeState, totals: map<string, real>)
    requires Ready(st) && Covers(totals) && totals[st.peak.pop] != 0.0
    requires st.peak.start - OFFSET < st.prior.end
    ensures Finish(st, totals)
            == Written(st.written, st.lines, st.clusters, st.clusterSizes, st.extraPops,
                       AddPeak(st.cluster, st.peak, totals))
  {
    assert JoinCluster(st.cluster, st.peak, totals) == Ok(AddPeak(st.cluster, st.peak, totals));
  }

  lemma FinishSeedValue(st: MergeState, totals: map<string, real>)
    requires Ready(st) && Covers(totals) && totals[st.peak.pop] != 0.0
    requires st.peak.start - OFFSET >= st.prior.end
    ensures Finish(st, totals)
            == Written(st.written + [st.cluster], st.lines, st.clusters + 1,
                       Tally(st.clusterSizes, st.cluster.count), TallyExtra(st.extraPops, st.cluster),
                       NewCluster(st.peak, totals))
  {
    SeedClusterValue(st.peak, totals);
    FinishSeeded(st, totals, NewCluster(st.peak, totals));
  }

  lemma FinishSeeded(st: MergeState, totals: map<string, real>, c: ClusterVal)
    requires Ready(st) && Covers(totals) && st.peak.start - OFFSET >= st.prior.end
    requires SeedCluster(st.peak, totals) == Ok(c)
    ensures Finish(st, totals)
            == Written(st.written + [st.cluster], st.lines, st.clusters + 1,
                       Tally(st.clusterSizes, st.cluster.count), TallyExtra(st.extraPops, st.cluster), c)
  {
  }

  /** The seed branch of the final step, for a state given field by field. */
  lemma FinishSeedFields(open: ClusterVal, prior: Peak, peak: Peak, lines: int, clusters: int,
                         sizes: map<int, int>, extra: map<int, int>, written: seq<ClusterVal>,
                         totals: map<string, real>, c: ClusterVal)
    requires Ready(MergeState(prior, peak, open, lines, clusters, sizes, extra, written))
    requires Covers(totals) && totals[peak.pop] != 0.0 && peak.start - OFFSET >= prior.end
    requires c == NewCluster(peak, totals)
    ensures Finish(MergeState(prior, peak, open, lines, clusters, sizes, extra, written), totals)
            == Written(written + [open], lines, clusters + 1, Tally(sizes, open.count), TallyExtra(extra, open), c)
  {
    FinishSeedValue(MergeState(prior, peak, open, lines, clusters, sizes, extra, written), totals);
  }

  /** After the loop: the last peak joins the open cluster or is written as
    * a cluster of its own, and the open cluster is written. */
  method FinishSweep(cluster: Cluster, prior: Peak, peak: Peak, lines: int, clusters: int,
                     sizes: map<int, int>, extra: map<int, int>, written: seq<ClusterVal>,
                     totals: map<string, real>)
    returns (r: Result<MergeOut>)
    requires Ready(MergeState(prior, peak, cluster.Value(), lines, clusters, sizes, extra, written))
    requires Covers(totals)
    modifies cluster
    ensures r == Finish(MergeState(prior, peak, old(cluster.Value()), lines, clusters, sizes, extra, written), totals)
  {
    if totals[peak.pop] == 0.0 {
      return Err(ZeroDivisionError);
    }
    if peak.start - OFFSET < prior.end {
      r := FinishJoin(cluster, prior, peak, lines, clusters, sizes, extra, written, totals);
    } else {
      r := FinishSeed(cluster.Value(), prior, peak, lines, clusters, sizes, extra, written, totals);
    }
  }

  /** The last peak is added to the open cluster object, which is written. */
  method FinishJoin(cluster: Cluster, prior: Peak, peak: Peak, lines: int, clusters: int,
                    sizes: map<int, int>, extra: map<int, int>, written: seq<ClusterVal>,
                    totals: map<string, real>)
    returns (r: Result<MergeOut>)
    requires Ready(MergeState(prior, peak, cluster.Value(), lines, clusters, sizes, extra, written))
    requires Covers(totals) && totals[peak.pop] != 0.0 && peak.start - OFFSET < prior.end
    modifies cluster
    ensures r == Finish(MergeState(prior, peak, old(cluster.Value()), lines, clusters, sizes, extra, written), totals)
  {
    FinishJoinValue(MergeState(prior, peak, cluster.Value(), lines, clusters, sizes, extra, written), totals);
    cluster.Add(peak, totals);
    r := Written(written, lines, clusters, sizes, extra, cluster.Value());
  }

  /** The open cluster is written, then the last peak as a new cluster. */
  method FinishSeed(open: ClusterVal, prior: Peak, peak: Peak, lines: int, clusters: int,
                    sizes: map<int, int>, extra: map<int, int>, written: seq<ClusterVal>,
                    totals: map<string, real>)
    returns (r: Result<MergeOut>)
    requires Ready(MergeState(prior, peak, open, lines, clusters, sizes, extra, written))
    requires Covers(totals) && totals[peak.pop] != 0.0 && peak.start - OFFSET >= prior.end
    ensures r == Finish(MergeState(prior, peak, open, lines, clusters, sizes, extra, written), totals)
  {
    var last := new Cluster(peak, totals);
    var c := last.Value();
    FinishSeedFields(open, prior, peak, lines, clusters, sizes, extra, written, totals, c);
    r := Written(written + [open], lines, clusters + 1, Tally(sizes, open.count), TallyExtra(extra, open), c);
  }

  /** No chromosome is compared: two overlapping peaks on different
    * chromosomes end up in one cluster. */
  lemma ChromosomesNotCompared()
    ensures var a := Peak("chr1", 100, 200, "CEU", 1.0, 1.0, 5, 1.0);
            var b := Peak("chr2", 150, 250, "CEU", 1.0, 1.0, 5, 1.0);
            var totals := map p | p in ALL_POPS :: 1.0;
            Merged([a, b], totals, 0.75).Ok?
            && |Merged([a, b], totals, 0.75).value.written| == 1
            && Merged([a, b], totals, 0.75).value.written[0].peaks == [a, b]
  {
  }

  // ---------------------------------------------------------------------------
  // Writing a cluster

  /** The columns `Cluster.write` joins with tabs; the two averages are
    * given as the text `str` makes of them. */
  function ClusterCells(c: ClusterVal, foldText: string, log10pText: string): seq<string> {
    [c.chrom, ShowInt(c.start), ShowInt(c.end), c.name, ShowInt(c.count),
     foldText, log10pText, Join(c.pops, ',')]
  }

  /** One line of the merged bed file. */
  function ClusterRow(c: ClusterVal, foldText: string, log10pText: string): (row: string)
    ensures row != [] && row[|row| - 1] == '\n'
  {
    Join(ClusterCells(c, foldText, log10pText), '\t') + "\n"
  }

  lemma ShowIntNoTab(n: int)
    ensures '\t' !in ShowInt(n)
  {
    assert IsSpace('\t');
  }

  /** A merged bed line reads back: eight columns, the coordinates and the
    * count as integers, and the populations split on commas. */
  lemma ClusterRowReadBack(c: ClusterVal, foldText: string, log10pText: string)
    requires '\t' !in c.chrom && '\t' !in c.name && '\t' !in foldText && '\t' !in log10pText
    requires |c.pops| >= 1 && forall k :: 0 <= k < |c.pops| ==> '\t' !in c.pops[k] && ',' !in c.pops[k]
    ensures var row := ClusterRow(c, foldText, log10pText);
            var f := Split(row[..|row| - 1], '\t');
            |f| == 8 && f[0] == c.chrom && ParseInt(f[1]) == Some(c.start)
            && ParseInt(f[2]) == Some(c.end) && f[3] == c.name && ParseInt(f[4]) == Some(c.count)
            && f[5] == foldText && f[6] == log10pText && Split(f[7], ',') == c.pops
  {
    var cells := ClusterCells(c, foldText, log10pText);
    ShowIntNoTab(c.start);
    ShowIntNoTab(c.end);
    ShowIntNoTab(c.count);
    JoinAvoids(c.pops, ',', '\t');
    SplitJoin(cells, '\t');
    SplitJoin(c.pops, ',');
    ParseShowInt(c.start);
    ParseShowInt(c.end);
    ParseShowInt(c.count);
    var row := ClusterRow(c, foldText, log10pText);
    assert row[..|row| - 1] == Join(cells, '\t');
  }

  /** The lines of the reads and heights files: the cluster's coordinates,
    * then one value per population in ALL_POPS order. */
  function PopRow(chrom: string, start: int, end: int, vals: seq<string>): string {
    Join([chrom, ShowInt(start), ShowInt(end)], '\t') + "\t" + Join(vals, '\t') + "\n"
  }

  /** A population line is the tab-join of the coordinates and the values,
    * so it splits back into them. */
  lemma PopRowReadBack(chrom: string, start: int, end: int, vals: seq<string>)
    requires '\t' !in chrom && |vals| >= 1 && forall k :: 0 <= k < |vals| ==> '\t' !in vals[k]
    ensures var row := PopRow(chrom, start, end, vals);
            row[|row| - 1] == '\n'
            && Split(row[..|row| - 1], '\t') == [chrom, ShowInt(start), ShowInt(end)] + vals
  {
    var head := [chrom, ShowInt(start), ShowInt(end)];
    JoinAppend(head, vals, '\t');
    ShowIntNoTab(start);
    ShowIntNoTab(end);
    var row := PopRow(chrom, start, end, vals);
    assert row[..|row| - 1] == Join(head + vals, '\t');
    assert forall k :: 0 <= k < |head + vals| ==> '\t' !in (head + vals)[k] by {
      forall k | 0 <= k < |head + vals| ensures '\t' !in (head + vals)[k] {
        if k >= 3 {
          assert (head + vals)[k] == vals[k - 3];
        }
      }
    }
    SplitJoin(head + vals, '\t');
  }

  /** `write_pop_n_reads`' values: the median of a population's reads over
    * its share, as `cell` shows it, or "0" for a population without reads. */
  function ReadsCells(c: ClusterVal, totals: map<string, real>, cell: (seq<int>, real) -> string): (cells: seq<string>)
    requires Keyed(c) && Covers(totals)
    ensures |cells| == |ALL_POPS|
  {
    seq(|ALL_POPS|, i requires 0 <= i < |ALL_POPS| =>
      var counts := c.popToReads[ALL_POPS[i]];
      if |counts| > 0 then cell(counts, totals[ALL_POPS[i]]) else "0")
  }

  /** Whether population `p`'s recorded height is still the int `0` that
    * `Cluster(peak)` puts there: the first peak stores its own ratio as a
    * float, and `max(old, ratio)` returns `old` unless the ratio is larger,
    * so the int survives every peak of `p` whose ratio is not above zero. */
  predicate IntZeroHeight(peaks: seq<Peak>, p: string, totals: map<string, real>)
    requires |peaks| >= 1 && Members(peaks, totals)
    decreases |peaks|
  {
    var last := peaks[|peaks| - 1];
    if |peaks| == 1 then last.pop != p
    else IntZeroHeight(peaks[..|peaks| - 1], p, totals) && (last.pop == p ==> Ratio(last, totals) <= 0.0)
  }

  /** The height stays the int `0` exactly when `p` is not the first peak's
    * population and none of its peaks has a ratio above zero; the value is
    * then zero. */
  lemma {:induction false} IntZeroHeightSpec(peaks: seq<Peak>, p: string, totals: map<string, real>)
    requires |peaks| >= 1 && Members(peaks, totals)
    ensures IntZeroHeight(peaks, p, totals) <==>
              peaks[0].pop != p
              && forall k :: 0 <= k < |peaks| && peaks[k].pop == p ==> Ratio(peaks[k], totals) <= 0.0
    ensures IntZeroHeight(peaks, p, totals) ==> MaxHeight(peaks, p, totals) == 0.0
    decreases |peaks|
  {
    if |peaks| > 1 {
      var init := peaks[..|peaks| - 1];
      IntZeroHeightSpec(init, p, totals);
      assert forall k :: 0 <= k < |init| ==> init[k] == peaks[k];
    }
  }

  /** `write_pop_max_height`' values: each population's largest height ratio,
    * as `show` makes text of a float, or "0" where the height is still the
    * int zero. */
  function HeightCells(c: ClusterVal, totals: map<string, real>, show: real -> string): (cells: seq<string>)
    requires Keyed(c) && |c.peaks| >= 1 && Members(c.peaks, totals)
    ensures |cells| == |ALL_POPS|
  {
    seq(|ALL_POPS|, i requires 0 <= i < |ALL_POPS| =>
      if IntZeroHeight(c.peaks, ALL_POPS[i], totals) then "0"
      else show(c.popToMaxHeight[ALL_POPS[i]]))
  }

  /** In the heights file, a well-formed cluster shows "0" for a population
    * with no member peak, and the shown largest ratio for the first peak's
    * population and for any population with a ratio above zero. */
  lemma HeightCellsZero(c: ClusterVal, totals: map<string, real>, show: real -> string, i: int)
    requires WellFormed(c, totals) && 0 <= i < |ALL_POPS|
    ensures (forall k :: 0 <= k < |c.peaks| ==> c.peaks[k].pop != ALL_POPS[i]) ==>
              HeightCells(c, totals, show)[i] == "0"
    ensures (c.peaks[0].pop == ALL_POPS[i]
             || exists k :: 0 <= k < |c.peaks| && c.peaks[k].pop == ALL_POPS[i] && Ratio(c.peaks[k], totals) > 0.0) ==>
              HeightCells(c, totals, show)[i] == show(MaxHeight(c.peaks, ALL_POPS[i], totals))
  {
    IntZeroHeightSpec(c.peaks, ALL_POPS[i], totals);
  }

  /** A heights cell reads back as the population's recorded height when a
    * shown float reads back: an int "0" cell stands for a zero height. */
  lemma HeightCellReadBack(c: ClusterVal, totals: map<string, real>, show: real -> string, i: int)
    requires WellFormed(c, totals) && 0 <= i < |ALL_POPS|
    requires ParseFloat(show(c.popToMaxHeight[ALL_POPS[i]])) == Some(c.popToMaxHeight[ALL_POPS[i]])
    ensures ParseFloat(HeightCells(c, totals, show)[i]) == Some(c.popToMaxHeight[ALL_POPS[i]])
  {
    IntZeroHeightSpec(c.peaks, ALL_POPS[i], totals);
    if IntZeroHeight(c.peaks, ALL_POPS[i], totals) {
      ParseFloatNat("0");
    }
  }

  /** A population's read list is empty exactly when no member peak is from it. */
  lemma {:induction false} ReadsOfEmpty(peaks: seq<Peak>, p: string)
    ensures ReadsOf(peaks, p) == [] <==> forall k :: 0 <= k < |peaks| ==> peaks[k].pop != p
    decreases |peaks|
  {
    if peaks != [] {
      var init := peaks[..|peaks| - 1];
      ReadsOfEmpty(init, p);
      assert forall k :: 0 <= k < |init| ==> init[k] == peaks[k];
    }
  }

  /** In the reads file, a well-formed cluster shows "0" for a population
    * with no member peak and the shown median for every other one. */
  lemma ReadsCellsZero(c: ClusterVal, totals: map<string, real>, cell: (seq<int>, real) -> string, i: int)
    requires WellFormed(c, totals) && Covers(totals) && 0 <= i < |ALL_POPS|
    ensures (forall k :: 0 <= k < |c.peaks| ==> c.peaks[k].pop != ALL_POPS[i]) ==>
              ReadsCells(c, totals, cell)[i] == "0"
    ensures (exists k :: 0 <= k < |c.peaks| && c.peaks[k].pop == ALL_POPS[i]) ==>
              ReadsCells(c, totals, cell)[i]
              == cell(ReadsOf(c.peaks, ALL_POPS[i]), totals[ALL_POPS[i]])
  {
    ReadsOfEmpty(c.peaks, ALL_POPS[i]);
  }

  // ---------------------------------------------------------------------------
  // The whole run: choose the parser, count reads, normalise, merge

  /** Where the peaks come from: standard input or a named file. */
  datatype Source = Stdin | File(name: string)

  function SourceName(src: Source): string {
    match src
    case Stdin => "<stdin>"
    case File(name) => name
  }

  /** The parser check, the pre-pass and the normalisation, which every
    * run does before it merges anything. */
  function Shares(src: Source, lines: seq<string>): (r: Result<map<string, real>>)
    ensures r.Ok? ==> ParserFor(SourceName(src)).Ok? && ReadTotals(lines).Ok?
    ensures ParserFor(SourceName(src)).Err? ==> r == Err(UnknownFileType(SourceName(src)))
    ensures r.Ok? ==> Covers(r.value) && ParseEach(lines, ParseBedLine).Ok?
                      && AllKnown(ParseEach(lines, ParseBedLine).value)
  {
    var _ :- ParserFor(SourceName(src));
    var counts :- ReadTotals(lines);
    ReadTotalsSpec(lines);
    Normalised(counts)
  }

  /** `peak_merge` over a source holding `lines`: both passes read the
    * same lines. */
  function MergeRun(src: Source, lines: seq<string>, overlapArg: Option<real>): Result<MergeOut> {
    var shares :- Shares(src, lines);
    Merged(ParseEach(lines, ParseBedLine).value, shares, OverlapOf(overlapArg))
  }

  /** `peak_merge` as written: the second pass over standard input finds the
    * stream already read to its end by the pre-pass. */
  function MergeRunAsWritten(src: Source, lines: seq<string>, overlapArg: Option<real>): Result<MergeOut> {
    var shares :- Shares(src, lines);
    var peaks := if src.Stdin? then [] else ParseEach(lines, ParseBedLine).value;
    Merged(peaks, shares, OverlapOf(overlapArg))
  }

  /** As written, every run on standard input fails: StopIteration once the
    * pre-pass and normalisation succeed. */
  lemma StdinAsWrittenFails(lines: seq<string>, overlapArg: Option<real>)
    ensures MergeRunAsWritten(Stdin, lines, overlapArg).Err?
    ensures Shares(Stdin, lines).Ok? ==>
              MergeRunAsWritten(Stdin, lines, overlapArg) == Err(StopIteration)
  {
    if Shares(Stdin, lines).Ok? {
      MergedShort([], Shares(Stdin, lines).value, OverlapOf(overlapArg));
    }
  }

  /** Any lines that merge from a bed file merge from standard input in the
    * corrected run, and fail from standard input in the run as written. */
  lemma StdinDiscrepancy(name: string, lines: seq<string>, overlapArg: Option<real>)
    requires InName(name, "bed") && MergeRun(File(name), lines, overlapArg).Ok?
    ensures MergeRun(Stdin, lines, overlapArg) == MergeRun(File(name), lines, overlapArg)
    ensures MergeRunAsWritten(File(name), lines, overlapArg) == MergeRun(File(name), lines, overlapArg)
    ensures MergeRunAsWritten(Stdin, lines, overlapArg) == Err(StopIteration)
  {
    StdinAsWrittenFails(lines, overlapArg);
  }

  /** A run succeeds only on an accepted source whose lines all parse, name a
    * known population and carry some reads; it is then the sweep over the
    * parsed peaks, so `MergedCovers` and `MergedFormed` apply to it. */
  lemma MergeRunSpec(src: Source, lines: seq<string>, overlapArg: Option<real>)
    ensures MergeRun(src, lines, overlapArg).Ok? ==>
              Shares(src, lines).Ok? && ParseEach(lines, ParseBedLine).Ok?
              && AllKnown(ParseEach(lines, ParseBedLine).value)
              && MergeRun(src, lines, overlapArg)
                 == Merged(ParseEach(lines, ParseBedLine).value, Shares(src, lines).value, OverlapOf(overlapArg))
  {
  }

  /** A successful run writes every parsed peak exactly once, in file order,
    * and counts every line. */
  lemma MergeRunCovers(src: Source, lines: seq<string>, overlapArg: Option<real>)
    requires MergeRun(src, lines, overlapArg).Ok?
    ensures ParseEach(lines, ParseBedLine).Ok?
    ensures var out := MergeRun(src, lines, overlapArg).value;
            Flatten(out.written) == ParseEach(lines, ParseBedLine).value
            && out.lines == |lines| && SumCounts(out.written) == |lines|
  {
    MergeRunSpec(src, lines, overlapArg);
    var peaks := ParseEach(lines, ParseBedLine).value;
    MergedCovers(peaks, Shares(src, lines).value, OverlapOf(overlapArg));
  }

  /** The run: the file-type check, the pre-pass loop, the normalisation,
    * then the merge over the parsed peaks. */
  method PeakMergeMain(src: Source, lines: seq<string>, overlapArg: Option<real>) returns (r: Result<MergeOut>)
    ensures r == MergeRun(src, lines, overlapArg)
  {
    var format := ParserFor(SourceName(src));
    if format.Err? {
      return Err(format.fault);
    }
    var counts := CountReads(lines);
    if counts.Err? {
      return Err(counts.fault);
    }
    ReadTotalsSpec(lines);
    var shares := NormaliseTotals(counts.value);
    if shares.Err? {
      return Err(shares.fault);
    }
    var peaks := ParseEach(lines, ParseBedLine).value;
    r := MergePeaks(peaks, shares.value, OverlapOf(overlapArg));
  }
}
