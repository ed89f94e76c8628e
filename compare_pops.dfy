/** Reading the per-population tables that the merge writes beside the
  * merged peaks: coordinates, then one value per population. */
module ComparePops {
  import opened Wrappers
  import opened Text
  import PeakMerge

  /** The African populations, sorted. */
  const AFRO_POPS: seq<string> := ["ESN", "GWD", "LWK", "YRI"]

  /** The European populations, sorted. */
  const EURO_POPS: seq<string> := ["CEU", "FIN", "IBS", "TSI"]

  /** Both groups are sorted, share no population and are drawn from the ten. */
  lemma PopGroups()
    ensures forall i :: 0 <= i < |AFRO_POPS| - 1 ==> StrLt(AFRO_POPS[i], AFRO_POPS[i + 1])
    ensures forall i :: 0 <= i < |EURO_POPS| - 1 ==> StrLt(EURO_POPS[i], EURO_POPS[i + 1])
    ensures forall p :: p in AFRO_POPS ==> p !in EURO_POPS
    ensures forall p :: p in AFRO_POPS ==> p in PeakMerge.ALL_POPS
    ensures forall p :: p in EURO_POPS ==> p in PeakMerge.ALL_POPS
  {
  }

  datatype Locus = Locus(chrom: string, start: int, end: int)

  /** What `iter_peaks` yields for one line. */
  datatype PopPeak = PopPeak(locus: Locus, popToVal: map<string, real>)

  /** The first population column. */
  const BASE_IDX: nat := 3

  /** `float(fields[BASE_IDX + i])`, the column of population `ALL_POPS[i]`. */
  function PopCol(fields: seq<string>, i: nat): Result<real> {
    FloatField(fields, BASE_IDX + i)
  }

  /** The columns of a line, one per population index. */
  function Cols(fields: seq<string>): nat -> Result<real> {
    (i: nat) => PopCol(fields, i)
  }

  /** The map built by the first `n` turns of the population loop over
    * `pops`: population `pops[i]` gets column `i`. */
  function PopVals(pops: seq<string>, col: nat -> Result<real>, n: nat): Result<map<string, real>>
    requires n <= |pops|
  {
    if n == 0 then Ok(map[])
    else
      var m :- PopVals(pops, col, n - 1);
      var v :- col(n - 1);
      Ok(m[pops[n - 1] := v])
  }

  /** The loop succeeds exactly when every one of its columns is a float. */
  lemma {:induction false} PopValsOk(pops: seq<string>, col: nat -> Result<real>, n: nat)
    requires n <= |pops|
    ensures PopVals(pops, col, n).Ok? <==> forall i :: 0 <= i < n ==> col(i).Ok?
    decreases n
  {
    if n > 0 {
      PopValsOk(pops, col, n - 1);
    }
  }

  /** A finished loop holds exactly the populations seen. */
  lemma {:induction false} PopValsKeys(pops: seq<string>, col: nat -> Result<real>, n: nat)
    requires n <= |pops| && PopVals(pops, col, n).Ok?
    ensures forall p :: p in PopVals(pops, col, n).value <==> p in pops[..n]
    decreases n
  {
    if n > 0 {
      PopValsKeys(pops, col, n - 1);
      assert pops[..n] == pops[..n - 1] + [pops[n - 1]];
    }
  }

  /** Each population seen holds its own column. */
  lemma {:induction false} PopValsAt(pops: seq<string>, col: nat -> Result<real>, n: nat)
    requires n <= |pops| && forall i, j :: 0 <= i < j < |pops| ==> pops[i] != pops[j]
    requires PopVals(pops, col, n).Ok?
    ensures forall i :: 0 <= i < n ==> col(i).Ok?
    ensures forall i :: 0 <= i < n ==> pops[i] in PopVals(pops, col, n).value
                                       && PopVals(pops, col, n).value[pops[i]] == col(i).value
    decreases n
  {
    PopValsOk(pops, col, n);
    if n > 0 {
      PopValsAt(pops, col, n - 1);
      var m := PopVals(pops, col, n - 1).value;
      var r := PopVals(pops, col, n).value;
      assert r == m[pops[n - 1] := col(n - 1).value];
      forall i | 0 <= i < n - 1 ensures pops[i] in r && r[pops[i]] == col(i).value {
        assert pops[i] != pops[n - 1];
      }
    }
  }

  /** A failed loop raises the exception of the first column that fails. */
  lemma {:induction false} PopValsErr(pops: seq<string>, col: nat -> Result<real>, n: nat)
    requires n <= |pops| && PopVals(pops, col, n).Err?
    ensures exists j :: 0 <= j < n && col(j) == Err(PopVals(pops, col, n).fault)
                        && forall i :: 0 <= i < j ==> col(i).Ok?
    decreases n
  {
    if PopVals(pops, col, n - 1).Err? {
      PopValsErr(pops, col, n - 1);
    } else {
      PopValsOk(pops, col, n - 1);
      assert col(n - 1) == Err(PopVals(pops, col, n).fault);
    }
  }

  /** A failed column ends the loop with its exception. */
  lemma {:induction false} PopValsErrPersists(pops: seq<string>, col: nat -> Result<real>, k: nat, n: nat)
    requires k <= n <= |pops| && PopVals(pops, col, k).Err?
    ensures PopVals(pops, col, n) == PopVals(pops, col, k)
    decreases n - k
  {
    if k < n {
      PopValsErrPersists(pops, col, k + 1, n);
    }
  }

  /** The population loop over one line: `col(i)` reads the column of
    * `pops[i]`. */
  method ReadPopVals(pops: seq<string>, col: nat -> Result<real>) returns (r: Result<map<string, real>>)
    ensures r == PopVals(pops, col, |pops|)
  {
    var popToVal: map<string, real> := map[];
    for i := 0 to |pops|
      invariant PopVals(pops, col, i) == Ok(popToVal)
    {
      var v := col(i);
      if v.Err? {
        PopValsErrPersists(pops, col, i + 1, |pops|);
        return Err(v.fault);
      }
      popToVal := popToVal[pops[i] := v.value];
    }
    r := Ok(popToVal);
  }

  /** One line of `iter_peaks` once split on tabs: the chromosome, `int` of
    * the next two fields, then the population loop. */
  function ParsePeakFields(fields: seq<string>): Result<PopPeak>
    requires |fields| >= 1
  {
    var start :- IntField(fields, 1);
    var end :- IntField(fields, 2);
    var vals :- PopVals(PeakMerge.ALL_POPS, Cols(fields), |PeakMerge.ALL_POPS|);
    Ok(PopPeak(Locus(fields[0], start, end), vals))
  }

  /** One line of `iter_peaks`: trailing whitespace stripped, split on tabs. */
  function ParsePeakLine(line: string): Result<PopPeak> {
    ParsePeakFields(Split(RStrip(line), '\t'))
  }

  /** A line reads exactly when its second and third fields are integers and
    * the next ten are floats. */
  lemma ParsePeakFieldsOk(fields: seq<string>)
    requires |fields| >= 1
    ensures ParsePeakFields(fields).Ok? <==>
              IntField(fields, 1).Ok? && IntField(fields, 2).Ok?
              && forall i :: 0 <= i < |PeakMerge.ALL_POPS| ==> PopCol(fields, i).Ok?
  {
    var pops := PeakMerge.ALL_POPS;
    PopValsOk(pops, Cols(fields), |pops|);
    assert forall i :: 0 <= i < |pops| ==> Cols(fields)(i) == PopCol(fields, i);
  }

  /** A line that reads gives the first three fields as its locus. */
  lemma ParsePeakFieldsLocus(fields: seq<string>)
    requires |fields| >= 1 && ParsePeakFields(fields).Ok?
    ensures IntField(fields, 1).Ok? && IntField(fields, 2).Ok?
    ensures ParsePeakFields(fields).value.locus
            == Locus(fields[0], IntField(fields, 1).value, IntField(fields, 2).value)
  {
  }

  /** A line that reads maps each population to its own column. */
  lemma ParsePeakFieldsVals(fields: seq<string>)
    requires |fields| >= 1 && ParsePeakFields(fields).Ok?
    ensures var m := ParsePeakFields(fields).value.popToVal;
            (forall p :: p in m <==> p in PeakMerge.ALL_POPS)
            && forall i :: 0 <= i < |PeakMerge.ALL_POPS| ==> PopCol(fields, i) == Ok(m[PeakMerge.ALL_POPS[i]])
  {
    var pops := PeakMerge.ALL_POPS;
    var vals := PopVals(pops, Cols(fields), |pops|);
    assert ParsePeakFields(fields).value.popToVal == vals.value;
    PeakMerge.AllPopsDistinct();
    PopValsKeys(pops, Cols(fields), |pops|);
    PopValsAt(pops, Cols(fields), |pops|);
    assert pops[..|pops|] == pops;
  }

  /** `iter_peaks` as a method over one line. */
  method ReadPeakLine(line: string) returns (r: Result<PopPeak>)
    ensures r == ParsePeakLine(line)
  {
    var fields := Split(RStrip(line), '\t');
    var start := IntField(fields, 1);
    if start.Err? {
      return Err(start.fault);
    }
    var end := IntField(fields, 2);
    if end.Err? {
      return Err(end.fault);
    }
    var vals := ReadPopVals(PeakMerge.ALL_POPS, Cols(fields));
    if vals.Err? {
      return Err(vals.fault);
    }
    r := Ok(PopPeak(Locus(fields[0], start.value, end.value), vals.value));
    assert r == ParsePeakFields(fields);
  }

  /** `iter_peaks` over a whole file. */
  method IterPeaks(lines: seq<string>) returns (r: Result<seq<PopPeak>>)
    ensures r == ParseEach(lines, ParsePeakLine)
  {
    var rows: seq<PopPeak> := [];
    var i := 0;
    while i < |lines|
      invariant 0 <= i <= |lines|
      invariant ParseEach(lines[..i], ParsePeakLine) == Ok(rows)
    {
      ParseEachSnoc(lines, i, ParsePeakLine);
      var row := ReadPeakLine(lines[i]);
      if row.Err? {
        ParseEachErrPersists(lines, i + 1, ParsePeakLine);
        assert lines[..|lines|] == lines;
        return Err(row.fault);
      }
      rows := rows + [row.value];
      i := i + 1;
    }
    assert lines[..|lines|] == lines;
    r := Ok(rows);
  }

  /** A line ending in a newline after a non-space character strips to the
    * line without its newline. */
  lemma StripNewline(line: string)
    requires |line| >= 2 && line[|line| - 1] == '\n' && !IsSpace(line[|line| - 2])
    ensures RStrip(line) == line[..|line| - 1]
  {
    assert IsSpace('\n');
    var body := line[..|line| - 1];
    assert body[|body| - 1] == line[|line| - 2];
    TrimEndKeeps(body, IsSpace);
  }

  /** A population line ends with the last character of its last value, then
    * the newline. */
  lemma PopRowEnd(chrom: string, start: int, end: int, texts: seq<string>)
    requires |texts| >= 1 && texts[|texts| - 1] != []
    ensures var row := PeakMerge.PopRow(chrom, start, end, texts);
            var last := texts[|texts| - 1];
            |row| >= 2 && row[|row| - 1] == '\n' && row[|row| - 2] == last[|last| - 1]
  {
    var vals := Join(texts, '\t');
    JoinLast(texts, '\t');
    var row := PeakMerge.PopRow(chrom, start, end, texts);
    var front := Join([chrom, ShowInt(start), ShowInt(end)], '\t') + "\t";
    assert row == front + vals + "\n";
    assert row[|row| - 2] == vals[|vals| - 1];
  }

  /** A population line whose values are float texts splits, once stripped,
    * into its coordinates and its values. */
  lemma PopRowFields(chrom: string, start: int, end: int, texts: seq<string>)
    requires '\t' !in chrom && |texts| >= 1
    requires forall i :: 0 <= i < |texts| ==> ParseFloat(texts[i]).Some?
    ensures Split(RStrip(PeakMerge.PopRow(chrom, start, end, texts)), '\t')
            == [chrom, ShowInt(start), ShowInt(end)] + texts
  {
    forall i | 0 <= i < |texts| ensures '\t' !in texts[i] {
      ParseFloatNoSpace(texts[i]);
      assert IsSpace('\t');
    }
    var last := texts[|texts| - 1];
    ParseFloatNoSpace(last);
    assert last[|last| - 1] in last;
    PopRowEnd(chrom, start, end, texts);
    StripNewline(PeakMerge.PopRow(chrom, start, end, texts));
    PeakMerge.PopRowReadBack(chrom, start, end, texts);
  }

  /** A population line reads back: the locus it was written for, and under
    * each population the value whose text was written in its column. */
  lemma PopRowReadBack(chrom: string, start: int, end: int, texts: seq<string>, xs: seq<real>)
    requires '\t' !in chrom && |texts| == |PeakMerge.ALL_POPS| == |xs|
    requires forall i :: 0 <= i < |texts| ==> ParseFloat(texts[i]) == Some(xs[i])
    ensures var r := ParsePeakLine(PeakMerge.PopRow(chrom, start, end, texts));
            r.Ok? && r.value.locus == Locus(chrom, start, end)
            && (forall p :: p in r.value.popToVal <==> p in PeakMerge.ALL_POPS)
            && forall i :: 0 <= i < |xs| ==> r.value.popToVal[PeakMerge.ALL_POPS[i]] == xs[i]
  {
    var line := PeakMerge.PopRow(chrom, start, end, texts);
    PopRowFields(chrom, start, end, texts);
    var fields := Split(RStrip(line), '\t');
    assert fields == [chrom, ShowInt(start), ShowInt(end)] + texts;
    ParseShowInt(start);
    ParseShowInt(end);
    forall i | 0 <= i < |PeakMerge.ALL_POPS| ensures PopCol(fields, i) == Ok(xs[i]) {
      assert fields[BASE_IDX + i] == texts[i];
    }
    ParsePeakFieldsOk(fields);
    ParsePeakFieldsLocus(fields);
    ParsePeakFieldsVals(fields);
  }

  /** A heights row whose cells each read back as the recorded height reads
    * back to the coordinates and those heights. */
  lemma HeightCellsRowReadBack(c: PeakMerge.ClusterVal, cells: seq<string>)
    requires PeakMerge.Keyed(c) && '\t' !in c.chrom && |cells| == |PeakMerge.ALL_POPS|
    requires forall i :: 0 <= i < |PeakMerge.ALL_POPS| ==>
               ParseFloat(cells[i]) == Some(c.popToMaxHeight[PeakMerge.ALL_POPS[i]])
    ensures var r := ParsePeakLine(PeakMerge.PopRow(c.chrom, c.start, c.end, cells));
            r.Ok? && r.value.locus == Locus(c.chrom, c.start, c.end)
            && forall p :: p in PeakMerge.ALL_POPS ==>
                 p in r.value.popToVal && r.value.popToVal[p] == c.popToMaxHeight[p]
  {
    var pops := PeakMerge.ALL_POPS;
    var xs := seq(|pops|, i requires 0 <= i < |pops| => c.popToMaxHeight[pops[i]]);
    PopRowReadBack(c.chrom, c.start, c.end, cells, xs);
  }

  /** The heights file reads back: for a well-formed cluster whose shown
    * heights float() reads back, each population's value is that
    * population's largest height ratio, the int "0" cells included. */
  lemma HeightRowReadBack(c: PeakMerge.ClusterVal, totals: map<string, real>, show: real -> string)
    requires PeakMerge.WellFormed(c, totals) && '\t' !in c.chrom
    requires forall i :: 0 <= i < |PeakMerge.ALL_POPS| ==>
               ParseFloat(show(c.popToMaxHeight[PeakMerge.ALL_POPS[i]]))
               == Some(c.popToMaxHeight[PeakMerge.ALL_POPS[i]])
    ensures var r := ParsePeakLine(PeakMerge.PopRow(c.chrom, c.start, c.end, PeakMerge.HeightCells(c, totals, show)));
            r.Ok? && r.value.locus == Locus(c.chrom, c.start, c.end)
            && forall p :: p in PeakMerge.ALL_POPS ==>
                 p in r.value.popToVal && r.value.popToVal[p] == c.popToMaxHeight[p]
  {
    var cells := PeakMerge.HeightCells(c, totals, show);
    forall i | 0 <= i < |PeakMerge.ALL_POPS|
      ensures ParseFloat(cells[i]) == Some(c.popToMaxHeight[PeakMerge.ALL_POPS[i]])
    {
      PeakMerge.HeightCellReadBack(c, totals, show, i);
    }
    HeightCellsRowReadBack(c, cells);
  }
}
