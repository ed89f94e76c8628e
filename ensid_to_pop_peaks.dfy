/**
 * bin/ensid_to_pop_peaks.py: for a list of genes, looks up the variants
 * (rsids) a loci table lists for each gene, the peak each variant lies in,
 * and the per-population signal of that peak, and prints one row per
 * (gene, variant).
 */
module EnsidToPopPeaks {
  import opened Wrappers
  import opened Text

  // ---------------------------------------------------------------------------
  // load_loci: gene -> rsids

  /** Gene id to the rsids listed for it, in file order. */
  type Loci = map<string, seq<string>>

  /** `m[g]`, or no rsids for a gene never listed. */
  function Lookup(m: Loci, g: string): seq<string> {
    if g in m then m[g] else []
  }

  function Repeat(x: string, n: nat): (r: seq<string>)
    ensures |r| == n && forall i :: 0 <= i < n ==> r[i] == x
  {
    if n == 0 then [] else Repeat(x, n - 1) + [x]
  }

  /** The inner loop of `load_loci`: `rsid` appended to the list of every gene
    * in `genes`, once per occurrence, creating a list where there is none. */
  function AddRsid(m: Loci, genes: seq<string>, rsid: string): Loci
    decreases |genes|
  {
    if genes == [] then m
    else
      var m' := AddRsid(m, genes[..|genes| - 1], rsid);
      var g := genes[|genes| - 1];
      m'[g := Lookup(m', g) + [rsid]]
  }

  /** The last gene listed gets the rsid once more. */
  lemma AddRsidLast(m: Loci, genes: seq<string>, rsid: string, g: string)
    requires genes != []
    ensures Lookup(AddRsid(m, genes, rsid), g)
            == Lookup(AddRsid(m, genes[..|genes| - 1], rsid), g) + (if g == genes[|genes| - 1] then [rsid] else [])
  {
  }

  /** Counting occurrences of `g` in a list one element at a time. */
  lemma CountLast(genes: seq<string>, g: string)
    requires genes != []
    ensures multiset(genes)[g] == multiset(genes[..|genes| - 1])[g] + (if g == genes[|genes| - 1] then 1 else 0)
  {
    assert genes == genes[..|genes| - 1] + [genes[|genes| - 1]];
  }

  /** Each gene's list grows by the rsid repeated as often as the gene is
    * listed. */
  lemma {:induction false} AddRsidLookup(m: Loci, genes: seq<string>, rsid: string, g: string)
    ensures Lookup(AddRsid(m, genes, rsid), g) == Lookup(m, g) + Repeat(rsid, multiset(genes)[g])
    decreases |genes|
  {
    if genes == [] {
      assert Lookup(m, g) + [] == Lookup(m, g);
    } else {
      var init := genes[..|genes| - 1];
      AddRsidLookup(m, init, rsid, g);
      AddRsidLast(m, genes, rsid, g);
      CountLast(genes, g);
      var n := multiset(init)[g];
      if g == genes[|genes| - 1] {
        assert Lookup(m, g) + Repeat(rsid, n) + [rsid] == Lookup(m, g) + Repeat(rsid, n + 1);
      } else {
        assert Repeat(rsid, n) + [] == Repeat(rsid, n);
      }
    }
  }

  /** The genes with a list are the old ones and the listed ones. */
  lemma {:induction false} AddRsidKeys(m: Loci, genes: seq<string>, rsid: string)
    ensures forall g :: g in AddRsid(m, genes, rsid) <==> g in m || g in genes
    decreases |genes|
  {
    if genes != [] {
      var init := genes[..|genes| - 1];
      AddRsidKeys(m, init, rsid);
      assert genes == init + [genes[|genes| - 1]];
    }
  }

  /** One line of the loci table: comments are skipped; field 4 lists the
    * genes separated by `;`, field 0 is the rsid. */
  function LociStep(m: Loci, line: string): Result<Loci> {
    if StartsWith(line, "#") then Ok(m)
    else
      var fields := Words(RStrip(line));
      if |fields| < 5 then Err(IndexError)
      else Ok(AddRsid(m, Split(fields[4], ';'), fields[0]))
  }

  /** The rsids one line contributes to gene `g`. */
  function LineRsids(line: string, g: string): seq<string> {
    var fields := Words(RStrip(line));
    if StartsWith(line, "#") || |fields| < 5 then []
    else Repeat(fields[0], multiset(Split(fields[4], ';'))[g])
  }

  /** Reference meaning of the table: the rsids of every line listing `g`,
    * in file order, once per listing. */
  function LociOf(lines: seq<string>, g: string): seq<string>
    decreases |lines|
  {
    if lines == [] then []
    else LociOf(lines[..|lines| - 1], g) + LineRsids(lines[|lines| - 1], g)
  }

  /** A non-comment line with fewer than five fields. */
  predicate ShortLine(line: string) {
    !StartsWith(line, "#") && |Words(RStrip(line))| < 5
  }

  /** `load_loci` over the given lines fails exactly when some non-comment
    * line has fewer than five fields. */
  lemma {:induction false} LoadLociErr(lines: seq<string>)
    ensures Fold(lines, map[], LociStep).Err? <==> exists k :: 0 <= k < |lines| && ShortLine(lines[k])
    decreases |lines|
  {
    if lines != [] {
      var init := lines[..|lines| - 1];
      LoadLociErr(init);
      assert forall k :: 0 <= k < |init| ==> init[k] == lines[k];
    }
  }

  /** Otherwise it maps each gene to its rsids in file order, duplicates
    * kept, and holds a gene exactly when some line lists it. */
  lemma {:induction false} LoadLociOk(lines: seq<string>, g: string)
    requires Fold(lines, map[], LociStep).Ok?
    ensures Lookup(Fold(lines, map[], LociStep).value, g) == LociOf(lines, g)
    ensures g in Fold(lines, map[], LociStep).value <==> LociOf(lines, g) != []
    decreases |lines|
  {
    if lines != [] {
      var init := lines[..|lines| - 1];
      var last := lines[|lines| - 1];
      LoadLociOk(init, g);
      var m := Fold(init, map[], LociStep).value;
      if !StartsWith(last, "#") {
        var fields := Words(RStrip(last));
        var genes := Split(fields[4], ';');
        AddRsidLookup(m, genes, fields[0], g);
        AddRsidKeys(m, genes, fields[0]);
        assert g in genes <==> multiset(genes)[g] > 0;
      } else {
        assert LociOf(lines, g) == LociOf(init, g) + [];
      }
    }
  }

  /** `load_loci(loci_fname)` over the file's lines. */
  method LoadLoci(lines: seq<string>) returns (r: Result<Loci>)
    ensures r == Fold(lines, map[], LociStep)
  {
    var ensidToRsids: Loci := map[];
    var i := 0;
    while i < |lines|
      invariant 0 <= i <= |lines|
      invariant Fold(lines[..i], map[], LociStep) == Ok(ensidToRsids)
    {
      FoldSnoc(lines, i, map[], LociStep);
      var line := lines[i];
      if StartsWith(line, "#") {
        i := i + 1;
        continue;
      }
      var fields := Words(RStrip(line));
      if |fields| < 5 {
        FoldErrPersists(lines, i + 1, map[], LociStep);
        return Err(IndexError);
      }
      ensidToRsids := AddRsids(ensidToRsids, Split(fields[4], ';'), fields[0]);
      i := i + 1;
    }
    assert lines[..i] == lines;
    return Ok(ensidToRsids);
  }

  /** The inner loop of `load_loci`: each gene of the line gets the rsid. */
  method AddRsids(m: Loci, genes: seq<string>, rsid: string) returns (m': Loci)
    ensures m' == AddRsid(m, genes, rsid)
  {
    m' := m;
    var j := 0;
    while j < |genes|
      invariant 0 <= j <= |genes|
      invariant m' == AddRsid(m, genes[..j], rsid)
    {
      var gene := genes[j];
      assert genes[..j + 1][..j] == genes[..j];
      if gene !in m' {
        m' := m'[gene := []];
      }
      m' := m'[gene := m'[gene] + [rsid]];
      j := j + 1;
    }
    assert genes[..j] == genes;
  }

  // ---------------------------------------------------------------------------
  // A table keyed by one column, with every key asserted new

  /** Every line read as a (key, value) pair and entered into a map; a line
    * that fails to read, or a key seen before, ends the load. */
  function Index<K(==), V>(lines: seq<string>, parse: string -> Result<(K, V)>): (r: Result<map<K, V>>)
    decreases |lines|
  {
    if lines == [] then Ok(map[])
    else
      var m :- Index(lines[..|lines| - 1], parse);
      var kv :- parse(lines[|lines| - 1]);
      if kv.0 in m then Err(AssertionError) else Ok(m[kv.0 := kv.1])
  }

  lemma IndexSnoc<K, V>(lines: seq<string>, i: nat, parse: string -> Result<(K, V)>)
    requires i < |lines|
    ensures Index(lines[..i + 1], parse) ==
              (match Index(lines[..i], parse)
               case Err(f) => Err(f)
               case Ok(m) =>
                 match parse(lines[i])
                 case Err(f) => Err(f)
                 case Ok(kv) => if kv.0 in m then Err(AssertionError) else Ok(m[kv.0 := kv.1]))
  {
    assert lines[..i + 1][..i] == lines[..i];
  }

  lemma {:induction false} IndexErrPersists<K, V>(lines: seq<string>, k: nat, parse: string -> Result<(K, V)>)
    requires k <= |lines| && Index(lines[..k], parse).Err?
    ensures Index(lines, parse) == Index(lines[..k], parse)
    decreases |lines| - k
  {
    if k < |lines| {
      IndexSnoc(lines, k, parse);
      IndexErrPersists(lines, k + 1, parse);
    } else {
      assert lines[..k] == lines;
    }
  }

  predicate KeysDistinct<K(==), V>(pairs: seq<(K, V)>) {
    forall i, j :: 0 <= i < j < |pairs| ==> pairs[i].0 != pairs[j].0
  }

  /** The load succeeds exactly when every line reads and no key repeats;
    * the map then holds exactly the keys read, each with its line's value. */
  lemma {:induction false} IndexSpec<K, V>(lines: seq<string>, parse: string -> Result<(K, V)>)
    ensures Index(lines, parse).Ok? <==>
              ParseEach(lines, parse).Ok? && KeysDistinct(ParseEach(lines, parse).value)
    ensures Index(lines, parse).Ok? ==>
              var m := Index(lines, parse).value;
              var pairs := ParseEach(lines, parse).value;
              (forall i :: 0 <= i < |pairs| ==> pairs[i].0 in m && m[pairs[i].0] == pairs[i].1)
              && (forall k :: k in m ==> exists i :: 0 <= i < |pairs| && pairs[i].0 == k)
    decreases |lines|
  {
    if lines != [] {
      var init := lines[..|lines| - 1];
      IndexSpec(init, parse);
      var pe := ParseEach(init, parse);
      var ix := Index(init, parse);
      var last := parse(lines[|lines| - 1]);
      if ix.Err? {
        if pe.Ok? && last.Ok? {
          var pairs := pe.value + [last.value];
          assert ParseEach(lines, parse) == Ok(pairs);
          assert !KeysDistinct(pe.value);
          var i, j :| 0 <= i < j < |pe.value| && pe.value[i].0 == pe.value[j].0;
          assert pairs[i] == pe.value[i] && pairs[j] == pe.value[j];
        }
      } else if last.Ok? {
        var m := ix.value;
        var pairs := pe.value + [last.value];
        assert ParseEach(lines, parse) == Ok(pairs);
        var k := last.value.0;
        if k in m {
          var i :| 0 <= i < |pe.value| && pe.value[i].0 == k;
          assert pairs[i].0 == pairs[|pairs| - 1].0;
        } else {
          forall i, j | 0 <= i < j < |pairs| ensures pairs[i].0 != pairs[j].0 {
            assert pairs[i] == pe.value[i];
            if j < |pe.value| {
              assert pairs[j] == pe.value[j];
            }
          }
          forall i | 0 <= i < |pairs| ensures pairs[i].0 in m[k := last.value.1]
            && m[k := last.value.1][pairs[i].0] == pairs[i].1
          {
            if i < |pe.value| {
              assert pairs[i] == pe.value[i];
            }
          }
          var m' := m[k := last.value.1];
          forall x | x in m' ensures exists i :: 0 <= i < |pairs| && pairs[i].0 == x {
            if x != k {
              var i :| 0 <= i < |pe.value| && pe.value[i].0 == x;
              assert pairs[i] == pe.value[i];
            } else {
              assert pairs[|pairs| - 1].0 == x;
            }
          }
        }
      }
    }
  }

  // ---------------------------------------------------------------------------
  // load_rsid_map: rsid -> peak

  /** A peak: chromosome (every "chr" removed), start and end. */
  type Region = (string, int, int)

  /** The `chrom:start-end` field: the part before the first `:` names the
    * chromosome, the part after it must split on `-` into exactly two
    * integers. */
  function ParseRegionField(f: string): (r: Result<Region>)
    ensures r.Ok? ==> r.value.0 == RemoveAll(Split(f, ':')[0], "chr")
    ensures r.Ok? <==> |Split(f, ':')| >= 2 && |Split(Split(f, ':')[1], '-')| == 2
                       && ParseInt(Split(Split(f, ':')[1], '-')[0]).Some?
                       && ParseInt(Split(Split(f, ':')[1], '-')[1]).Some?
    ensures r.Ok? ==> var dash := Split(Split(f, ':')[1], '-');
                      Some(r.value.1) == ParseInt(dash[0]) && Some(r.value.2) == ParseInt(dash[1])
    ensures |Split(f, ':')| < 2 ==> r == Err(IndexError)
  {
    var colon := Split(f, ':');
    var chrom := RemoveAll(colon[0], "chr");
    if |colon| < 2 then Err(IndexError)
    else
      var dash := Split(colon[1], '-');
      if |dash| != 2 then Err(ValueError(colon[1]))
      else
        match ParseInt(dash[0])
        case None => Err(ValueError(dash[0]))
        case Some(start) =>
          match ParseInt(dash[1])
          case None => Err(ValueError(dash[1]))
          case Some(end) => Ok((chrom, start, end))
  }

  /** One line of the rsid map: field 0 the rsid, field 1 its peak. */
  function ParseRsidLine(line: string): Result<(string, Region)> {
    var fields := Words(RStrip(line));
    var rsid :- Field(fields, 0);
    var f1 :- Field(fields, 1);
    var region :- ParseRegionField(f1);
    Ok((rsid, region))
  }

  /** `load_rsid_map(rsid_map_fname)` over the file's lines. */
  method LoadRsidMap(lines: seq<string>) returns (r: Result<map<string, Region>>)
    ensures r == Index(lines, ParseRsidLine)
  {
    var rsidToPeak: map<string, Region> := map[];
    var i := 0;
    while i < |lines|
      invariant 0 <= i <= |lines|
      invariant Index(lines[..i], ParseRsidLine) == Ok(rsidToPeak)
    {
      IndexSnoc(lines, i, ParseRsidLine);
      var entry := ParseRsidLine(lines[i]);
      if entry.Err? {
        IndexErrPersists(lines, i + 1, ParseRsidLine);
        return Err(entry.fault);
      }
      var (rsid, peak) := entry.value;
      if rsid in rsidToPeak {
        IndexErrPersists(lines, i + 1, ParseRsidLine);
        return Err(AssertionError);
      }
      rsidToPeak := rsidToPeak[rsid := peak];
      i := i + 1;
    }
    assert lines[..i] == lines;
    return Ok(rsidToPeak);
  }

  // ---------------------------------------------------------------------------
  // load_pops: peak -> per-population values

  /** One line of the population table: the peak (its chromosome with every
    * "chr" removed) and the values from field 3 on, each of which must be a
    * float. The values are kept as the tokens read. */
  function ParsePopsLine(line: string): (r: Result<(Region, seq<string>)>)
    ensures r.Ok? ==> var fields := Words(RStrip(line));
              |fields| >= 3 && r.value.1 == fields[3..]
              && r.value.0.0 == RemoveAll(fields[0], "chr")
              && ParseInt(fields[1]) == Some(r.value.0.1) && ParseInt(fields[2]) == Some(r.value.0.2)
              && forall i :: 0 <= i < |r.value.1| ==> ParseFloat(r.value.1[i]).Some?
    ensures var fields := Words(RStrip(line));
            r.Ok? <==> |fields| >= 3 && ParseInt(fields[1]).Some? && ParseInt(fields[2]).Some?
                       && forall i :: 3 <= i < |fields| ==> ParseFloat(fields[i]).Some?
  {
    var fields := Words(RStrip(line));
    var f0 :- Field(fields, 0);
    var chrom := RemoveAll(f0, "chr");
    var start :- IntField(fields, 1);
    var end :- IntField(fields, 2);
    var values := fields[3..];
    var _ :- Floats(values);
    Ok(((chrom, start, end), values))
  }

  /** `load_pops(pops_fname)` over the file's lines. */
  method LoadPops(lines: seq<string>) returns (r: Result<map<Region, seq<string>>>)
    ensures r == Index(lines, ParsePopsLine)
  {
    var peakToPops: map<Region, seq<string>> := map[];
    var i := 0;
    while i < |lines|
      invariant 0 <= i <= |lines|
      invariant Index(lines[..i], ParsePopsLine) == Ok(peakToPops)
    {
      IndexSnoc(lines, i, ParsePopsLine);
      var entry := ParsePopsLine(lines[i]);
      if entry.Err? {
        IndexErrPersists(lines, i + 1, ParsePopsLine);
        return Err(entry.fault);
      }
      var (peak, pops) := entry.value;
      if peak in peakToPops {
        IndexErrPersists(lines, i + 1, ParsePopsLine);
        return Err(AssertionError);
      }
      peakToPops := peakToPops[peak := pops];
      i := i + 1;
    }
    assert lines[..i] == lines;
    return Ok(peakToPops);
  }

  // ---------------------------------------------------------------------------
  // The output join

  /** `'{}:{}-{}'.format(chrom, start, end)`. */
  function FormatRegion(peak: Region): string {
    peak.0 + ":" + ShowInt(peak.1) + "-" + ShowInt(peak.2)
  }

  /** The printed location cuts at its one `:` and then at its one `-`
    * back into its three parts. */
  lemma FormatRegionParts(peak: Region)
    requires ':' !in peak.0 && peak.1 >= 0 && peak.2 >= 0
    ensures Split(FormatRegion(peak), ':') == [peak.0, ShowInt(peak.1) + "-" + ShowInt(peak.2)]
    ensures Split(ShowInt(peak.1) + "-" + ShowInt(peak.2), '-') == [ShowInt(peak.1), ShowInt(peak.2)]
  {
    var (chrom, start, end) := peak;
    var s1, s2 := ShowInt(start), ShowInt(end);
    var tail := s1 + "-" + s2;
    assert forall c :: c in s1 ==> IsDigit(c);
    assert forall c :: c in s2 ==> IsDigit(c);
    assert FormatRegion(peak) == chrom + [':'] + tail;
    SplitCons(chrom, ':', tail);
    SplitNoSep(tail, ':');
    SplitCons(s1, '-', s2);
    SplitNoSep(s2, '-');
  }

  /** The printed location reads back through the rsid map's parser when the
    * chromosome holds no `:` and no "chr" and the coordinates are not
    * negative. */
  lemma RegionRoundTrip(peak: Region)
    requires ':' !in peak.0 && !Contains(peak.0, "chr") && peak.1 >= 0 && peak.2 >= 0
    ensures ParseRegionField(FormatRegion(peak)) == Ok(peak)
  {
    FormatRegionParts(peak);
    RemoveAllAbsent(peak.0, "chr");
    ParseShowInt(peak.1);
    ParseShowInt(peak.2);
  }

  /** One output row: gene, rsid, the peak, then the peak's values. */
  datatype Row = Row(ensid: string, rsid: string, peak: Region, values: seq<string>)

  /** The printed line of a row: its fields joined by tabs, the peak written
    * as its location. */
  function FormatRow(row: Row): string {
    Join([row.ensid, row.rsid, FormatRegion(row.peak), Join(row.values, '\t')], '\t')
  }

  /** A printed row splits on tabs back into the gene, the rsid, the peak's
    * location and the values; with no values the line ends in an empty
    * field. */
  lemma FormatRowFields(row: Row)
    requires '\t' !in row.ensid && '\t' !in row.rsid && '\t' !in row.peak.0
    requires forall k :: 0 <= k < |row.values| ==> '\t' !in row.values[k]
    ensures Split(FormatRow(row), '\t')
            == [row.ensid, row.rsid, FormatRegion(row.peak)] + (if row.values == [] then [""] else row.values)
  {
    var head := [row.ensid, row.rsid, FormatRegion(row.peak)];
    assert IsSpace('\t');
    assert '\t' !in FormatRegion(row.peak) by {
      assert FormatRegion(row.peak) == row.peak.0 + ":" + ShowInt(row.peak.1) + "-" + ShowInt(row.peak.2);
    }
    var tail := if row.values == [] then [""] else row.values;
    assert Join(tail, '\t') == Join(row.values, '\t');
    JoinAppend(head, [Join(tail, '\t')], '\t');
    JoinAppend(head, tail, '\t');
    assert head + [Join(row.values, '\t')] == [row.ensid, row.rsid, FormatRegion(row.peak), Join(row.values, '\t')];
    assert forall k :: 0 <= k < |head + tail| ==> '\t' !in (head + tail)[k] by {
      forall k | 0 <= k < |head + tail| ensures '\t' !in (head + tail)[k] {
        if k >= 3 {
          assert (head + tail)[k] == tail[k - 3];
        }
      }
    }
    SplitJoin(head + tail, '\t');
  }

  /** The row for one (gene, rsid): a missing rsid or peak raises KeyError. */
  function RsidRow(ensid: string, rsid: string, rsidToPeak: map<string, Region>,
                   peakToPops: map<Region, seq<string>>): (r: Result<Row>)
  {
    if rsid !in rsidToPeak then Err(KeyError(rsid))
    else
      var peak := rsidToPeak[rsid];
      if peak !in peakToPops then Err(KeyError(FormatRegion(peak)))
      else Ok(Row(ensid, rsid, peak, peakToPops[peak]))
  }

  /** The rows for a gene's rsids, in order. */
  function RsidRows(ensid: string, rsids: seq<string>, rsidToPeak: map<string, Region>,
                    peakToPops: map<Region, seq<string>>): Result<seq<Row>>
    decreases |rsids|
  {
    if rsids == [] then Ok([])
    else
      var rows :- RsidRows(ensid, rsids[..|rsids| - 1], rsidToPeak, peakToPops);
      var row :- RsidRow(ensid, rsids[|rsids| - 1], rsidToPeak, peakToPops);
      Ok(rows + [row])
  }

  /** The whole output: the genes in the given order, each with its rows; a
    * gene missing from the loci table raises KeyError. */
  function Report(ensids: seq<string>, loci: Loci, rsidToPeak: map<string, Region>,
                  peakToPops: map<Region, seq<string>>): Result<seq<Row>>
    decreases |ensids|
  {
    if ensids == [] then Ok([])
    else
      var e := ensids[|ensids| - 1];
      var rows :- Report(ensids[..|ensids| - 1], loci, rsidToPeak, peakToPops);
      if e !in loci then Err(KeyError(e))
      else
        var more :- RsidRows(e, loci[e], rsidToPeak, peakToPops);
        Ok(rows + more)
  }

  /** Every rsid of a gene has a peak, and every such peak has values. */
  predicate Resolves(rsids: seq<string>, rsidToPeak: map<string, Region>, peakToPops: map<Region, seq<string>>) {
    forall i :: 0 <= i < |rsids| ==> rsids[i] in rsidToPeak && rsidToPeak[rsids[i]] in peakToPops
  }

  /** A gene's rows succeed exactly when all its rsids resolve, and then row
    * `i` is the row of rsid `i`. */
  lemma {:induction false} RsidRowsSpec(ensid: string, rsids: seq<string>, rsidToPeak: map<string, Region>,
                                        peakToPops: map<Region, seq<string>>)
    ensures RsidRows(ensid, rsids, rsidToPeak, peakToPops).Ok? <==> Resolves(rsids, rsidToPeak, peakToPops)
    ensures RsidRows(ensid, rsids, rsidToPeak, peakToPops).Ok? ==>
              var rows := RsidRows(ensid, rsids, rsidToPeak, peakToPops).value;
              |rows| == |rsids|
              && forall i :: 0 <= i < |rsids| ==>
                   rows[i] == Row(ensid, rsids[i], rsidToPeak[rsids[i]], peakToPops[rsidToPeak[rsids[i]]])
    decreases |rsids|
  {
    if rsids != [] {
      var init := rsids[..|rsids| - 1];
      RsidRowsSpec(ensid, init, rsidToPeak, peakToPops);
      assert forall i :: 0 <= i < |init| ==> init[i] == rsids[i];
    }
  }

  /** The total number of rows the genes' rsid lists call for. */
  function RowCount(ensids: seq<string>, loci: Loci): nat
    decreases |ensids|
  {
    if ensids == [] then 0
    else RowCount(ensids[..|ensids| - 1], loci) + |Lookup(loci, ensids[|ensids| - 1])|
  }

  /** The join succeeds exactly when every gene is in the loci table and all
    * its rsids resolve, and then prints one row per (gene, rsid). */
  lemma {:induction false} ReportSpec(ensids: seq<string>, loci: Loci, rsidToPeak: map<string, Region>,
                                      peakToPops: map<Region, seq<string>>)
    ensures Report(ensids, loci, rsidToPeak, peakToPops).Ok? <==>
              forall i :: 0 <= i < |ensids| ==> ensids[i] in loci && Resolves(loci[ensids[i]], rsidToPeak, peakToPops)
    ensures Report(ensids, loci, rsidToPeak, peakToPops).Ok? ==>
              |Report(ensids, loci, rsidToPeak, peakToPops).value| == RowCount(ensids, loci)
    decreases |ensids|
  {
    if ensids != [] {
      var init := ensids[..|ensids| - 1];
      var e := ensids[|ensids| - 1];
      ReportSpec(init, loci, rsidToPeak, peakToPops);
      assert forall i :: 0 <= i < |init| ==> init[i] == ensids[i];
      if e in loci {
        RsidRowsSpec(e, loci[e], rsidToPeak, peakToPops);
      }
    }
  }

  /** The `__main__` loop: for each gene, for each of its rsids, one row. */
  method EnsidToPopPeaksMain(ensids: seq<string>, loci: Loci, rsidToPeak: map<string, Region>,
                             peakToPops: map<Region, seq<string>>) returns (r: Result<seq<Row>>)
    ensures r == Report(ensids, loci, rsidToPeak, peakToPops)
  {
    var out: seq<Row> := [];
    var i := 0;
    while i < |ensids|
      invariant 0 <= i <= |ensids|
      invariant Report(ensids[..i], loci, rsidToPeak, peakToPops) == Ok(out)
    {
      var ensid := ensids[i];
      assert ensids[..i + 1][..i] == ensids[..i];
      if ensid !in loci {
        ReportErrPersists(ensids, i + 1, loci, rsidToPeak, peakToPops);
        return Err(KeyError(ensid));
      }
      var rows := GeneRows(ensid, loci[ensid], rsidToPeak, peakToPops);
      if rows.Err? {
        ReportErrPersists(ensids, i + 1, loci, rsidToPeak, peakToPops);
        return Err(rows.fault);
      }
      out := out + rows.value;
      i := i + 1;
    }
    assert ensids[..i] == ensids;
    return Ok(out);
  }

  /** The inner loop of the `__main__` loop: the rows of one gene's rsids. */
  method GeneRows(ensid: string, rsids: seq<string>, rsidToPeak: map<string, Region>,
                  peakToPops: map<Region, seq<string>>) returns (r: Result<seq<Row>>)
    ensures r == RsidRows(ensid, rsids, rsidToPeak, peakToPops)
  {
    var rows: seq<Row> := [];
    var j := 0;
    while j < |rsids|
      invariant 0 <= j <= |rsids|
      invariant RsidRows(ensid, rsids[..j], rsidToPeak, peakToPops) == Ok(rows)
    {
      var rsid := rsids[j];
      assert rsids[..j + 1][..j] == rsids[..j];
      if rsid !in rsidToPeak {
        RsidRowsErrPersists(ensid, rsids, j + 1, rsidToPeak, peakToPops);
        return Err(KeyError(rsid));
      }
      var peak := rsidToPeak[rsid];
      if peak !in peakToPops {
        RsidRowsErrPersists(ensid, rsids, j + 1, rsidToPeak, peakToPops);
        return Err(KeyError(FormatRegion(peak)));
      }
      rows := rows + [Row(ensid, rsid, peak, peakToPops[peak])];
      j := j + 1;
    }
    assert rsids[..j] == rsids;
    return Ok(rows);
  }

  lemma {:induction false} RsidRowsErrPersists(ensid: string, rsids: seq<string>, k: nat,
                                               rsidToPeak: map<string, Region>, peakToPops: map<Region, seq<string>>)
    requires k <= |rsids| && RsidRows(ensid, rsids[..k], rsidToPeak, peakToPops).Err?
    ensures RsidRows(ensid, rsids, rsidToPeak, peakToPops) == RsidRows(ensid, rsids[..k], rsidToPeak, peakToPops)
    decreases |rsids| - k
  {
    if k < |rsids| {
      assert rsids[..k + 1][..k] == rsids[..k];
      RsidRowsErrPersists(ensid, rsids, k + 1, rsidToPeak, peakToPops);
    } else {
      assert rsids[..k] == rsids;
    }
  }

  lemma {:induction false} ReportErrPersists(ensids: seq<string>, k: nat, loci: Loci,
                                             rsidToPeak: map<string, Region>, peakToPops: map<Region, seq<string>>)
    requires k <= |ensids| && Report(ensids[..k], loci, rsidToPeak, peakToPops).Err?
    ensures Report(ensids, loci, rsidToPeak, peakToPops) == Report(ensids[..k], loci, rsidToPeak, peakToPops)
    decreases |ensids| - k
  {
    if k < |ensids| {
      assert ensids[..k + 1][..k] == ensids[..k];
      ReportErrPersists(ensids, k + 1, loci, rsidToPeak, peakToPops);
    } else {
      assert ensids[..k] == ensids;
    }
  }
}
