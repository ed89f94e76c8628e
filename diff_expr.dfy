/**
 * bin/diff_expr.py: the two table readers of the differential-expression
 * script, a single-column reader and the gene-by-individual expression
 * matrix loader.
 */
module DiffExpr {
  import opened Wrappers
  import opened Text

  // ---------------------------------------------------------------------------
  // load_col

  /** The whitespace-separated fields of a line. */
  function LineWords(line: string): seq<string> {
    Words(RStrip(line))
  }

  /** Field `colPos` of every line as `split` cuts it, in order; a line with
    * too few fields raises IndexError. */
  function ColumnOf(lines: seq<string>, colPos: nat, split: string -> seq<string>): Result<seq<string>>
    decreases |lines|
  {
    if lines == [] then Ok([])
    else
      var col :- ColumnOf(lines[..|lines| - 1], colPos, split);
      var f :- Field(split(lines[|lines| - 1]), colPos);
      Ok(col + [f])
  }

  /** Field `colPos` of every whitespace-split line, in order. */
  function Column(lines: seq<string>, colPos: nat): Result<seq<string>> {
    ColumnOf(lines, colPos, LineWords)
  }

  lemma {:induction false} ColumnOfSpec(lines: seq<string>, colPos: nat, split: string -> seq<string>)
    ensures ColumnOf(lines, colPos, split).Ok? <==> forall k :: 0 <= k < |lines| ==> colPos < |split(lines[k])|
    ensures ColumnOf(lines, colPos, split).Ok? ==>
              |ColumnOf(lines, colPos, split).value| == |lines|
              && forall k :: 0 <= k < |lines| ==> ColumnOf(lines, colPos, split).value[k] == split(lines[k])[colPos]
    decreases |lines|
  {
    if lines != [] {
      var n := |lines| - 1;
      var init := lines[..n];
      ColumnOfSpec(init, colPos, split);
      assert forall k :: 0 <= k < n ==> init[k] == lines[k];
    }
  }

  /** The column is read exactly when every line has field `colPos`, and then
    * holds one entry per line: that line's field. */
  lemma ColumnSpec(lines: seq<string>, colPos: nat)
    ensures Column(lines, colPos).Ok? <==> forall k :: 0 <= k < |lines| ==> colPos < |Words(RStrip(lines[k]))|
    ensures Column(lines, colPos).Ok? ==>
              |Column(lines, colPos).value| == |lines|
              && forall k :: 0 <= k < |lines| ==> Column(lines, colPos).value[k] == Words(RStrip(lines[k]))[colPos]
  {
    ColumnOfSpec(lines, colPos, LineWords);
  }

  /** `load_col(fname, col_pos)` over the file's lines, with the default
    * `col_type=str`. */
  method LoadCol(lines: seq<string>, colPos: nat) returns (r: Result<seq<string>>)
    ensures r == Column(lines, colPos)
  {
    var col: seq<string> := [];
    var i := 0;
    while i < |lines|
      invariant 0 <= i <= |lines|
      invariant Column(lines[..i], colPos) == Ok(col)
    {
      assert lines[..i + 1][..i] == lines[..i];
      var fields := Words(RStrip(lines[i]));
      if colPos >= |fields| {
        ColumnErrPersists(lines, i + 1, colPos);
        return Err(IndexError);
      }
      col := col + [fields[colPos]];
      i := i + 1;
    }
    assert lines[..i] == lines;
    return Ok(col);
  }

  lemma {:induction false} ColumnErrPersists(lines: seq<string>, k: nat, colPos: nat)
    requires k <= |lines| && Column(lines[..k], colPos).Err?
    ensures Column(lines, colPos) == Column(lines[..k], colPos)
    decreases |lines| - k
  {
    if k < |lines| {
      assert lines[..k + 1][..k] == lines[..k];
      ColumnErrPersists(lines, k + 1, colPos);
    } else {
      assert lines[..k] == lines;
    }
  }

  // ---------------------------------------------------------------------------
  // load_expr

  /** The gene id of an expression row: the gene column up to its first `.`
    * (a version suffix dropped). */
  function GeneId(gene: string): (id: string)
  {
    if Contains(gene, ".") then Head(gene, '.') else gene
  }

  /** The id is a prefix of the gene column without a `.`, and stops where
    * the column has a `.`; taking it twice changes nothing. */
  lemma GeneIdSpec(gene: string)
    ensures GeneId(gene) <= gene && '.' !in GeneId(gene)
    ensures GeneId(gene) == gene || gene[|GeneId(gene)|] == '.'
    ensures GeneId(GeneId(gene)) == GeneId(gene)
  {
    ContainsChar(gene, '.');
    ContainsChar(GeneId(gene), '.');
  }

  /** One data row's map: every header name except the gene column's to the
    * field at the same position; a header name seen twice keeps the later
    * field; a row shorter than the header raises IndexError. */
  function RowMap(header: seq<string>, fields: seq<string>, genePos: nat): Result<map<string, string>>
    decreases |header|
  {
    if header == [] then Ok(map[])
    else
      var pos := |header| - 1;
      var m :- RowMap(header[..pos], fields, genePos);
      if pos == genePos then Ok(m)
      else if pos >= |fields| then Err(IndexError)
      else Ok(m[header[pos] := fields[pos]])
  }

  /** The positions a row's map is taken from. */
  predicate Kept(header: seq<string>, genePos: nat, pos: int) {
    0 <= pos < |header| && pos != genePos
  }

  /** The map is built exactly when the row has a field at every kept
    * position. */
  lemma {:induction false} RowMapOk(header: seq<string>, fields: seq<string>, genePos: nat)
    ensures RowMap(header, fields, genePos).Ok? <==>
              forall pos :: Kept(header, genePos, pos) ==> pos < |fields|
    decreases |header|
  {
    if header != [] {
      var last := |header| - 1;
      RowMapOk(header[..last], fields, genePos);
      assert forall pos :: Kept(header[..last], genePos, pos) <==> Kept(header, genePos, pos) && pos < last;
      if RowMap(header[..last], fields, genePos).Err? {
        var pos :| Kept(header[..last], genePos, pos) && pos >= |fields|;
        assert Kept(header, genePos, pos);
      } else if last != genePos && last >= |fields| {
        assert Kept(header, genePos, last);
      }
    }
  }

  /** Its names are exactly the kept positions' names. */
  lemma {:induction false} RowMapKeys(header: seq<string>, fields: seq<string>, genePos: nat, h: string)
    requires RowMap(header, fields, genePos).Ok?
    ensures h in RowMap(header, fields, genePos).value <==>
              exists pos :: Kept(header, genePos, pos) && header[pos] == h
    decreases |header|
  {
    if header != [] {
      var last := |header| - 1;
      var init := header[..last];
      RowMapKeys(init, fields, genePos, h);
      if exists pos :: Kept(header, genePos, pos) && header[pos] == h {
        var pos :| Kept(header, genePos, pos) && header[pos] == h;
        if pos < last {
          assert Kept(init, genePos, pos) && init[pos] == h;
        }
      }
      if exists pos :: Kept(init, genePos, pos) && init[pos] == h {
        var pos :| Kept(init, genePos, pos) && init[pos] == h;
        assert Kept(header, genePos, pos) && header[pos] == h;
      }
    }
  }

  /** No later kept position carries the same name as `pos`. */
  predicate LastWithName(header: seq<string>, genePos: nat, pos: int)
    requires Kept(header, genePos, pos)
  {
    forall later :: pos < later < |header| && later != genePos ==> header[later] != header[pos]
  }

  /** Each name holds the field of the last kept position carrying it. */
  lemma {:induction false} RowMapLastWins(header: seq<string>, fields: seq<string>, genePos: nat, pos: nat)
    requires RowMap(header, fields, genePos).Ok?
    requires Kept(header, genePos, pos) && LastWithName(header, genePos, pos)
    ensures pos < |fields| && header[pos] in RowMap(header, fields, genePos).value
    ensures RowMap(header, fields, genePos).value[header[pos]] == fields[pos]
    decreases |header|
  {
    var last := |header| - 1;
    var init := header[..last];
    if pos < last {
      assert Kept(init, genePos, pos) && init[pos] == header[pos];
      assert LastWithName(init, genePos, pos) by {
        forall later | pos < later && Kept(init, genePos, later) ensures init[later] != init[pos] {
          assert init[later] == header[later];
        }
      }
      RowMapLastWins(init, fields, genePos, pos);
    }
  }

  /** The loader's state between lines: the gene column's position, the
    * header once read, and the map from gene id to its row's map. */
  datatype ExprLoad = ExprLoad(genePos: nat, header: Option<seq<string>>,
                               geneToExpr: map<string, map<string, string>>)

  /** One line: comments are skipped wherever they occur, the first other line
    * is the header, every later line is a data row whose map replaces any
    * earlier one for the same gene id. */
  function ExprStep(st: ExprLoad, line: string): (r: Result<ExprLoad>)
    ensures r.Ok? ==> r.value.genePos == st.genePos
  {
    if StartsWith(line, "#") then Ok(st)
    else if st.header.None? then Ok(st.(header := Some(Words(RStrip(line)))))
    else
      var fields := Words(RStrip(line));
      var gene :- Field(fields, st.genePos);
      var row :- RowMap(st.header.value, fields, st.genePos);
      Ok(st.(geneToExpr := st.geneToExpr[GeneId(gene) := row]))
  }

  /** Comment lines change nothing; the first other line is taken as the
    * header and adds no gene. */
  lemma ExprStepHeader(st: ExprLoad, line: string)
    ensures StartsWith(line, "#") ==> ExprStep(st, line) == Ok(st)
    ensures !StartsWith(line, "#") && st.header.None? ==>
              ExprStep(st, line) == Ok(ExprLoad(st.genePos, Some(Words(RStrip(line))), st.geneToExpr))
  {
  }

  /** A data row sets its gene id's map to the row's map, replacing an
    * earlier one wholesale, and leaves every other gene's map alone. */
  lemma ExprStepRow(st: ExprLoad, line: string, g: string)
    requires !StartsWith(line, "#") && st.header.Some? && ExprStep(st, line).Ok?
    ensures var fields := Words(RStrip(line));
            st.genePos < |fields|
            && var id := GeneId(fields[st.genePos]);
               RowMap(st.header.value, fields, st.genePos).Ok?
               && ExprStep(st, line).value.header == st.header
               && ExprStep(st, line).value.geneToExpr ==
                    st.geneToExpr[id := RowMap(st.header.value, fields, st.genePos).value]
  {
  }

  /** `load_expr(fname, gene_pos)` over the file's (decoded) lines. */
  method LoadExpr(lines: seq<string>, genePos: nat) returns (r: Result<map<string, map<string, string>>>)
    ensures Fold(lines, ExprLoad(genePos, None, map[]), ExprStep).Err? ==>
              r == Err(Fold(lines, ExprLoad(genePos, None, map[]), ExprStep).fault)
    ensures Fold(lines, ExprLoad(genePos, None, map[]), ExprStep).Ok? ==>
              r == Ok(Fold(lines, ExprLoad(genePos, None, map[]), ExprStep).value.geneToExpr)
  {
    var init := ExprLoad(genePos, None, map[]);
    var geneToExpr: map<string, map<string, string>> := map[];
    var header: Option<seq<string>> := None;
    var i := 0;
    while i < |lines|
      invariant 0 <= i <= |lines|
      invariant Fold(lines[..i], init, ExprStep) == Ok(ExprLoad(genePos, header, geneToExpr))
    {
      FoldSnoc(lines, i, init, ExprStep);
      var line := lines[i];
      if StartsWith(line, "#") {
        i := i + 1;
        continue;
      }
      if header == None {
        header := Some(Words(RStrip(line)));
        i := i + 1;
        continue;
      }
      var fields := Words(RStrip(line));
      if genePos >= |fields| {
        FoldErrPersists(lines, i + 1, init, ExprStep);
        return Err(IndexError);
      }
      var gene := fields[genePos];
      if Contains(gene, ".") {
        gene := Head(gene, '.');
      }
      var row := FillRow(header.value, fields, genePos);
      if row.Err? {
        FoldErrPersists(lines, i + 1, init, ExprStep);
        return Err(row.fault);
      }
      geneToExpr := geneToExpr[gene := row.value];
      i := i + 1;
    }
    assert lines[..i] == lines;
    return Ok(geneToExpr);
  }

  /** The inner loop over the header's positions for one data row. */
  method FillRow(header: seq<string>, fields: seq<string>, genePos: nat) returns (r: Result<map<string, string>>)
    ensures r == RowMap(header, fields, genePos)
  {
    var m: map<string, string> := map[];
    var pos := 0;
    while pos < |header|
      invariant 0 <= pos <= |header|
      invariant RowMap(header[..pos], fields, genePos) == Ok(m)
    {
      assert header[..pos + 1][..pos] == header[..pos];
      if pos == genePos {
        pos := pos + 1;
        continue;
      }
      if pos >= |fields| {
        RowMapErrPersists(header, pos + 1, fields, genePos);
        return Err(IndexError);
      }
      m := m[header[pos] := fields[pos]];
      pos := pos + 1;
    }
    assert header[..pos] == header;
    return Ok(m);
  }

  lemma {:induction false} RowMapErrPersists(header: seq<string>, k: nat, fields: seq<string>, genePos: nat)
    requires k <= |header| && RowMap(header[..k], fields, genePos).Err?
    ensures RowMap(header, fields, genePos) == RowMap(header[..k], fields, genePos)
    decreases |header| - k
  {
    if k < |header| {
      assert header[..k + 1][..k] == header[..k];
      RowMapErrPersists(header, k + 1, fields, genePos);
    } else {
      assert header[..k] == header;
    }
  }
}
