/**
 * bin/gtf_to_tss.py: reads a GTF2.2 (Gene Transfer Format) annotation and
 * writes one row per protein-coding start codon: the enclosing transcript's
 * chromosome, start, end and strand, the transcription start site, and the
 * gene's id and name.
 */
module GtfToTss {
  import opened Wrappers
  import opened Text
  import opened PeakToRsid
  import opened CorrelatePeakExpr

  // ---------------------------------------------------------------------------
  // parse_meta: the attribute column

  predicate IsSemicolon(c: char) {
    c == ';'
  }

  /** `meta_str.rstrip(';').split(';')`. */
  function AttrPieces(metaStr: string): seq<string> {
    Split(TrimEnd(metaStr, IsSemicolon), ';')
  }

  /** One `name "value"` piece: stripped of whitespace and split on single
    * spaces, which must give exactly two parts (else the unpacking raises);
    * the value loses its surrounding double quotes. */
  function ParseAttr(elem: string): (r: Result<(string, string)>)
  {
    var parts := Split(Strip(elem), ' ');
    if |parts| != 2 then Err(ValueError(elem))
    else Ok((parts[0], StripChar(parts[1], '"')))
  }

  /** The map `parse_meta` builds: every piece read as a pair, in order,
    * then entered into the map one after another. */
  function MetaOf(pieces: seq<string>): (r: Result<map<string, string>>)
    ensures r.Ok? <==> ParseEach(pieces, ParseAttr).Ok?
  {
    var attrs :- ParseEach(pieces, ParseAttr);
    Ok(MapOf(attrs))
  }

  /** Pairs entered into a map in order: a later pair with the same name
    * overwrites an earlier one. */
  function MapOf(attrs: seq<(string, string)>): map<string, string>
    decreases |attrs|
  {
    if attrs == [] then map[]
    else MapOf(attrs[..|attrs| - 1])[attrs[|attrs| - 1].0 := attrs[|attrs| - 1].1]
  }

  /** `parse_meta(meta_str)`. */
  method ParseMeta(metaStr: string) returns (r: Result<map<string, string>>)
    ensures r == MetaOf(AttrPieces(metaStr))
  {
    var pieces := Split(TrimEnd(metaStr, IsSemicolon), ';');
    var meta: map<string, string> := map[];
    ghost var attrs: seq<(string, string)> := [];
    var i := 0;
    while i < |pieces|
      invariant 0 <= i <= |pieces|
      invariant ParseEach(pieces[..i], ParseAttr) == Ok(attrs) && meta == MapOf(attrs)
    {
      var parts := Split(Strip(pieces[i]), ' ');
      if |parts| != 2 {
        ParseEachStepErr(pieces, i, ParseAttr, attrs);
        return Err(ValueError(pieces[i]));
      }
      var name, val := parts[0], parts[1];
      val := StripChar(val, '"');
      ParseEachStepOk(pieces, i, ParseAttr, attrs, (name, val));
      assert MapOf(attrs + [(name, val)]) == meta[name := val] by {
        assert (attrs + [(name, val)])[..|attrs|] == attrs;
      }
      meta := meta[name := val];
      attrs := attrs + [(name, val)];
      i := i + 1;
    }
    assert pieces[..i] == pieces;
    return Ok(meta);
  }

  /** The names of the map are exactly the names of the pairs. */
  lemma {:induction false} MapOfKeys(attrs: seq<(string, string)>)
    ensures forall k :: 0 <= k < |attrs| ==> attrs[k].0 in MapOf(attrs)
    ensures forall n :: n in MapOf(attrs) ==> exists k :: 0 <= k < |attrs| && attrs[k].0 == n
    decreases |attrs|
  {
    if attrs != [] {
      var init := attrs[..|attrs| - 1];
      MapOfKeys(init);
      forall k | 0 <= k < |init| ensures attrs[k].0 in MapOf(attrs) {
        assert init[k] == attrs[k];
      }
      forall n | n in MapOf(attrs) ensures exists k :: 0 <= k < |attrs| && attrs[k].0 == n {
        if n != attrs[|attrs| - 1].0 {
          var k :| 0 <= k < |init| && init[k].0 == n;
          assert init[k] == attrs[k];
        }
      }
    }
  }

  /** A name holds the value of the last pair that carries it. */
  lemma {:induction false} MapOfLastWins(attrs: seq<(string, string)>, k: nat)
    requires k < |attrs|
    requires forall j :: k < j < |attrs| ==> attrs[j].0 != attrs[k].0
    ensures attrs[k].0 in MapOf(attrs) && MapOf(attrs)[attrs[k].0] == attrs[k].1
    decreases |attrs|
  {
    var init := attrs[..|attrs| - 1];
    if k < |init| {
      assert init[k] == attrs[k];
      forall j | k < j < |init| ensures init[j].0 != init[k].0 {
        assert init[j] == attrs[j];
      }
      MapOfLastWins(init, k);
    }
  }

  // The attribute column as a GTF file writes it: `name "value"` pairs, each
  // followed by `;`, separated by a space.

  /** A name or value that survives the round trip: no space, `;` or `"`, and
    * a name is a non-empty run of non-whitespace. */
  predicate PlainValue(v: string) {
    ' ' !in v && ';' !in v && '"' !in v
  }

  predicate PlainName(n: string) {
    IsWord(n) && PlainValue(n)
  }

  function FormatAttr(first: bool, name: string, val: string): string {
    (if first then [] else [' ']) + name + [' '] + (['"'] + val + ['"'])
  }

  function FormatPieces(attrs: seq<(string, string)>): (pieces: seq<string>)
    ensures |pieces| == |attrs|
  {
    seq(|attrs|, k requires 0 <= k < |attrs| => FormatAttr(k == 0, attrs[k].0, attrs[k].1))
  }

  function FormatMeta(attrs: seq<(string, string)>): string {
    Join(FormatPieces(attrs), ';') + ";"
  }

  /** One formatted pair reads back as that pair. */
  lemma ParseFormatAttr(first: bool, name: string, val: string)
    requires PlainName(name) && PlainValue(val)
    ensures ParseAttr(FormatAttr(first, name, val)) == Ok((name, val))
  {
    var q := ['"'] + val + ['"'];
    var piece := FormatAttr(first, name, val);
    StripFormatAttr(first, name, val);
    SplitAttr(name, q);
    var parts := Split(Strip(piece), ' ');
    assert parts == [name, q];
    StripCharQuoted(val, '"');
  }

  lemma StripFormatAttr(first: bool, name: string, val: string)
    requires IsWord(name)
    ensures Strip(FormatAttr(first, name, val)) == name + [' '] + (['"'] + val + ['"'])
  {
    var core := name + [' '] + (['"'] + val + ['"']);
    assert FormatAttr(first, name, val) == (if first then [] else [' ']) + core;
    assert name[0] in name;
    assert core[0] == name[0] && core[|core| - 1] == '"';
    StripLeadingBlank(core);
  }

  lemma SplitAttr(name: string, q: string)
    requires ' ' !in name && ' ' !in q
    ensures Split(name + [' '] + q, ' ') == [name, q]
  {
    SplitCons(name, ' ', q);
    SplitNoSep(q, ' ');
  }

  /** `parse_meta` reads back the attribute column a GTF file writes. */
  lemma ParseFormatMeta(attrs: seq<(string, string)>)
    requires |attrs| >= 1
    requires forall k :: 0 <= k < |attrs| ==> PlainName(attrs[k].0) && PlainValue(attrs[k].1)
    ensures MetaOf(AttrPieces(FormatMeta(attrs))) == Ok(MapOf(attrs))
  {
    var pieces := FormatPieces(attrs);
    AttrPiecesFormat(attrs);
    forall k | 0 <= k < |pieces| ensures ParseAttr(pieces[k]) == Ok(attrs[k]) {
      ParseFormatAttr(k == 0, attrs[k].0, attrs[k].1);
    }
    ParseEachAll(pieces, ParseAttr, attrs);
  }

  /** Cutting the written column at its semicolons gives back the pieces. */
  lemma AttrPiecesFormat(attrs: seq<(string, string)>)
    requires |attrs| >= 1
    requires forall k :: 0 <= k < |attrs| ==> PlainName(attrs[k].0) && PlainValue(attrs[k].1)
    ensures AttrPieces(FormatMeta(attrs)) == FormatPieces(attrs)
  {
    var pieces := FormatPieces(attrs);
    var joined := Join(pieces, ';');
    JoinLast(pieces, ';');
    assert TrimEnd(joined + ";", IsSemicolon) == joined by {
      assert (joined + ";")[..|joined|] == joined;
      TrimEndKeeps(joined, IsSemicolon);
    }
    forall k | 0 <= k < |pieces| ensures ';' !in pieces[k] {
      assert pieces[k] == FormatAttr(k == 0, attrs[k].0, attrs[k].1);
    }
    SplitJoin(pieces, ';');
  }

  // ---------------------------------------------------------------------------
  // The main loop: transcripts set the carried state, start codons emit rows

  /** What a `transcript` line leaves behind for the start codons after it. */
  datatype Transcript = Transcript(chrom: string, start: int, end: int, strand: string,
                                   ensid: string, symbol: string)

  /** A `transcript` line: chromosome with every "chr" removed, start, end,
    * strand, and gene id and name from the attributes (a missing one raises
    * KeyError). */
  function ReadTranscript(fields: seq<string>): (r: Result<Transcript>)
    ensures r.Ok? ==> |fields| >= 9 && r.value.chrom == RemoveAll(fields[0], "chr")
                      && ParseInt(fields[3]) == Some(r.value.start)
                      && ParseInt(fields[4]) == Some(r.value.end)
                      && r.value.strand == fields[6]
                      && MetaOf(AttrPieces(fields[8])).Ok?
                      && var meta := MetaOf(AttrPieces(fields[8])).value;
                         "gene_id" in meta && "gene_name" in meta
                         && r.value.ensid == meta["gene_id"] && r.value.symbol == meta["gene_name"]
    ensures r.Ok? <==> |fields| >= 9 && ParseInt(fields[3]).Some? && ParseInt(fields[4]).Some?
                       && MetaOf(AttrPieces(fields[8])).Ok?
                       && "gene_id" in MetaOf(AttrPieces(fields[8])).value
                       && "gene_name" in MetaOf(AttrPieces(fields[8])).value
  {
    var f0 :- Field(fields, 0);
    var start :- IntField(fields, 3);
    var end :- IntField(fields, 4);
    var strand :- Field(fields, 6);
    var f8 :- Field(fields, 8);
    var meta :- MetaOf(AttrPieces(f8));
    if "gene_id" !in meta then Err(KeyError("gene_id"))
    else if "gene_name" !in meta then Err(KeyError("gene_name"))
    else Ok(Transcript(RemoveAll(f0, "chr"), start, end, strand, meta["gene_id"], meta["gene_name"]))
  }

  /** The output row: the seven columns, tab-separated. */
  function Row(t: Transcript, tss: int): string {
    Join([t.chrom, ShowInt(t.start), ShowInt(t.end), t.strand, ShowInt(tss), t.ensid, t.symbol], '\t')
  }

  /** A `start_codon` line: its own start on `+`, its end on `-`; any other
    * strand fails, as does a site outside the last transcript, and a start
    * codon before any transcript finds no `strand` to read. */
  function StartCodonRow(carried: Option<Transcript>, fields: seq<string>): (r: Result<string>)
    ensures r.Ok? ==> carried.Some? && |fields| >= 5 && ParseInt(fields[3]).Some? && ParseInt(fields[4]).Some?
    ensures r.Ok? ==> var t := carried.value;
              var tss := if t.strand == "+" then ParseInt(fields[3]).value else ParseInt(fields[4]).value;
              && (t.strand == "+" || t.strand == "-")
              && t.start <= tss <= t.end
              && r.value == Row(t, tss)
    ensures r.Ok? <==> carried.Some? && |fields| >= 5 && ParseInt(fields[3]).Some? && ParseInt(fields[4]).Some?
                       && var t := carried.value;
                          var tss := if t.strand == "+" then ParseInt(fields[3]).value else ParseInt(fields[4]).value;
                          (t.strand == "+" || t.strand == "-") && t.start <= tss <= t.end
    ensures carried.None? && |fields| >= 5 && ParseInt(fields[3]).Some? && ParseInt(fields[4]).Some? ==>
              r == Err(NameError("strand"))
    ensures carried.Some? && |fields| >= 5 && ParseInt(fields[3]).Some? && ParseInt(fields[4]).Some? && r.Err? ==>
              r == Err(AssertionError)
  {
    var codonStart :- IntField(fields, 3);
    var codonEnd :- IntField(fields, 4);
    if carried.None? then Err(NameError("strand"))
    else
      var t := carried.value;
      if t.strand != "+" && t.strand != "-" then Err(AssertionError)
      else
        var tss := if t.strand == "+" then codonStart else codonEnd;
        if !(t.start <= tss <= t.end) then Err(AssertionError)
        else Ok(Row(t, tss))
  }

  /** One line of the annotation: the carried transcript afterwards and the
    * rows printed. */
  function GtfStep(carried: Option<Transcript>, line: string): (r: Result<(Option<Transcript>, seq<string>)>)
  {
    if StartsWith(line, "#") then Ok((carried, []))
    else
      var fields := Split(RStrip(line), '\t');
      var kind :- Field(fields, 1);
      if !Contains(kind, "protein_coding") then Ok((carried, []))
      else
        var feature :- Field(fields, 2);
        if feature == "transcript" then
          var t :- ReadTranscript(fields);
          Ok((Some(t), []))
        else if feature == "start_codon" then
          var row :- StartCodonRow(carried, fields);
          Ok((carried, [row]))
        else Ok((carried, []))
  }

  /** Comment lines, lines that are not protein-coding and features other
    * than transcripts and start codons print nothing and leave the carried
    * transcript as it was. */
  lemma GtfSkips(carried: Option<Transcript>, line: string)
    requires StartsWith(line, "#")
             || (var fields := Split(RStrip(line), '\t');
                 |fields| >= 3 && (!Contains(fields[1], "protein_coding")
                                   || (fields[2] != "transcript" && fields[2] != "start_codon")))
    ensures GtfStep(carried, line) == Ok((carried, []))
  {
  }

  /** A protein-coding transcript line prints nothing and replaces the
    * carried transcript. */
  lemma GtfTranscript(carried: Option<Transcript>, line: string)
    requires !StartsWith(line, "#")
    requires var fields := Split(RStrip(line), '\t');
             |fields| >= 3 && Contains(fields[1], "protein_coding") && fields[2] == "transcript"
             && ReadTranscript(fields).Ok?
    ensures GtfStep(carried, line) == Ok((Some(ReadTranscript(Split(RStrip(line), '\t')).value), []))
  {
  }

  /** A protein-coding start codon line keeps the carried transcript and
    * prints exactly the row `StartCodonRow` makes of it, or raises what
    * `StartCodonRow` raises: NameError before any transcript, and
    * AssertionError on another strand or a site outside the transcript. */
  lemma GtfStartCodon(carried: Option<Transcript>, line: string)
    requires !StartsWith(line, "#")
    requires var fields := Split(RStrip(line), '\t');
             |fields| >= 5 && Contains(fields[1], "protein_coding") && fields[2] == "start_codon"
             && ParseInt(fields[3]).Some? && ParseInt(fields[4]).Some?
    ensures carried.None? ==> GtfStep(carried, line) == Err(NameError("strand"))
    ensures GtfStep(carried, line).Ok? ==>
              GtfStep(carried, line).value.0 == carried && |GtfStep(carried, line).value.1| == 1
    ensures var row := StartCodonRow(carried, Split(RStrip(line), '\t'));
            && (row.Ok? ==> GtfStep(carried, line) == Ok((carried, [row.value])))
            && (row.Err? ==> GtfStep(carried, line) == Err(row.fault))
  {
  }

  /** The `__main__` loop over the annotation's lines: the rows printed, or
    * the exception that ends it. */
  method GtfToTssMain(lines: seq<string>) returns (r: Result<seq<string>>)
    ensures Run(lines, None, GtfStep).Err? ==> r == Err(Run(lines, None, GtfStep).fault)
    ensures Run(lines, None, GtfStep).Ok? ==> r == Ok(Run(lines, None, GtfStep).value.1)
  {
    var carried: Option<Transcript> := None;
    var out: seq<string> := [];
    var i := 0;
    while i < |lines|
      invariant 0 <= i <= |lines|
      invariant Run(lines[..i], None, GtfStep) == Ok((carried, out))
    {
      RunSnoc(lines, i, None, GtfStep);
      var step := ProcessLine(carried, lines[i]);
      if step.Err? {
        RunErrPersists(lines, i + 1, None, GtfStep);
        return Err(step.fault);
      }
      carried, out := step.value.0, out + step.value.1;
      i := i + 1;
    }
    assert lines[..i] == lines;
    return Ok(out);
  }

  /** The body of the loop for one line: the carried transcript afterwards
    * and the row printed, if any. */
  method ProcessLine(carried: Option<Transcript>, line: string)
    returns (r: Result<(Option<Transcript>, seq<string>)>)
    ensures r == GtfStep(carried, line)
  {
    if StartsWith(line, "#") {
      return Ok((carried, []));
    }
    var fields := Split(RStrip(line), '\t');
    if |fields| < 2 {
      return Err(IndexError);
    }
    if !Contains(fields[1], "protein_coding") {
      return Ok((carried, []));
    }
    if |fields| < 3 {
      return Err(IndexError);
    }
    if fields[2] == "transcript" {
      var t := ReadTranscriptFields(fields);
      if t.Err? {
        return Err(t.fault);
      }
      return Ok((Some(t.value), []));
    } else if fields[2] == "start_codon" {
      var row := StartCodonRow(carried, fields);
      if row.Err? {
        return Err(row.fault);
      }
      return Ok((carried, [row.value]));
    }
    return Ok((carried, []));
  }

  /** The assignments of a `transcript` line, in the order the script makes
    * them. */
  method ReadTranscriptFields(fields: seq<string>) returns (r: Result<Transcript>)
    ensures r == ReadTranscript(fields)
  {
    if |fields| < 1 {
      return Err(IndexError);
    }
    var chrom := RemoveAll(fields[0], "chr");
    var start := IntField(fields, 3);
    if start.Err? {
      return Err(start.fault);
    }
    var end := IntField(fields, 4);
    if end.Err? {
      return Err(end.fault);
    }
    if |fields| < 7 {
      return Err(IndexError);
    }
    var strand := fields[6];
    if |fields| < 9 {
      return Err(IndexError);
    }
    var meta := ParseMeta(fields[8]);
    if meta.Err? {
      return Err(meta.fault);
    }
    if "gene_id" !in meta.value {
      return Err(KeyError("gene_id"));
    }
    var ensid := meta.value["gene_id"];
    if "gene_name" !in meta.value {
      return Err(KeyError("gene_name"));
    }
    var symbol := meta.value["gene_name"];
    return Ok(Transcript(chrom, start.value, end.value, strand, ensid, symbol));
  }

  // ---------------------------------------------------------------------------
  // The rows as the TSS index reads them

  /** `load_tsss` reads a printed row back: the chromosome from column 0, the
    * TSS from column 4 and the gene id and name from columns 5 and 6, as long
    * as those columns are single words. */
  lemma RowReadBack(t: Transcript, tss: int)
    requires IsWord(t.chrom) && IsWord(t.strand) && IsWord(t.ensid) && IsWord(t.symbol)
    ensures ParseTssLine(Row(t, tss)) == Ok((t.chrom, (tss, (t.ensid, t.symbol))))
  {
    var ws := [t.chrom, ShowInt(t.start), ShowInt(t.end), t.strand, ShowInt(tss), t.ensid, t.symbol];
    assert IsSpace('\t');
    WordsJoin(ws, '\t');
    JoinLast(ws, '\t');
    assert t.symbol[|t.symbol| - 1] in t.symbol;
    TrimEndKeeps(Row(t, tss), IsSpace);
    ParseShowInt(tss);
  }
}
