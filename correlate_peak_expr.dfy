/**
 * bin/correlate_peak_expr.py: the per-chromosome index of transcription
 * start sites (TSSs), the scan that pairs each peak with every TSS within
 * 50000 bases of the TSS closest to its middle, and the per-population
 * selection of expression values.
 */
module CorrelatePeakExpr {
  import opened Wrappers
  import opened Text
  import opened PeakToRsid

  /** Largest distance from a peak's middle at which a TSS is still paired. */
  const DIST_CUTOFF: int := 50000

  /** A TSS payload: `(ensid, symbol)`. */
  type Gene = (string, string)

  // ---------------------------------------------------------------------------
  // load_tsss

  /** Python's `<=` on `(ensid, symbol)` tuples. */
  predicate GeneLe(a: Gene, b: Gene) {
    StrLt(a.0, b.0) || (a.0 == b.0 && StrLe(a.1, b.1))
  }

  lemma GeneLeTotalPreorder()
    ensures TotalPreorder(GeneLe)
  {
    forall a: Gene, b: Gene ensures GeneLe(a, b) || GeneLe(b, a) {
      StrLeTotal(a.0, b.0);
      StrLeTotal(a.1, b.1);
    }
    forall a: Gene, b: Gene, c: Gene | GeneLe(a, b) && GeneLe(b, c) ensures GeneLe(a, c) {
      if a.0 == b.0 && b.0 == c.0 {
        StrLeTransitive(a.1, b.1, c.1);
      } else {
        StrLeReflexive(a.0);
        StrLeReflexive(b.0);
        StrLeTransitive(a.0, b.0, c.0);
        if a.0 == c.0 {
          StrLeAntisymmetric(a.0, b.0);
        }
      }
    }
  }

  /** One TSS line, split on whitespace: chromosome (kept as written), then
    * the TSS position from field 4 and `(ensid, symbol)` from fields 5 and 6,
    * read left to right. */
  function ParseTssLine(line: string): (r: Result<(string, Entry<Gene>)>)
    ensures r.Ok? ==> var f := Words(RStrip(line));
                      |f| >= 7 && ParseInt(f[4]) == Some(r.value.1.0)
                      && r.value == (f[0], (r.value.1.0, (f[5], f[6])))
    ensures var f := Words(RStrip(line));
            r.Ok? <==> |f| >= 7 && ParseInt(f[4]).Some?
    ensures var f := Words(RStrip(line));
            && (|f| < 5 ==> r == Err(IndexError))
            && (|f| >= 5 && ParseInt(f[4]).None? ==> r == Err(ValueError(f[4])))
            && (5 <= |f| < 7 && ParseInt(f[4]).Some? ==> r == Err(IndexError))
  {
    var f := Words(RStrip(line));
    if |f| < 1 then Err(IndexError)
    else if |f| < 5 then Err(IndexError)
    else match ParseInt(f[4])
      case None => Err(ValueError(f[4]))
      case Some(tss) =>
        if |f| < 7 then Err(IndexError)
        else Ok((f[0], (tss, (f[5], f[6]))))
  }

  /** `load_tsss`: each chromosome's `(tss, (ensid, symbol))` tuples, sorted,
    * so that equal positions are ordered by ensid and then symbol. */
  method LoadTsss(lines: seq<string>) returns (r: Result<map<string, seq<Entry<Gene>>>>)
    ensures ParseEach(lines, ParseTssLine).Err? ==> r == Err(ParseEach(lines, ParseTssLine).fault)
    ensures ParseEach(lines, ParseTssLine).Ok? ==>
              var parsed := ParseEach(lines, ParseTssLine).value;
              r.Ok? && r.value.Keys == Chroms(parsed)
              && forall c :: c in r.value ==>
                   SortedBy(r.value[c], GeneLe) && multiset(r.value[c]) == multiset(On(parsed, c))
  {
    GeneLeTotalPreorder();
    var tsss := GroupLines(lines, ParseTssLine);
    if tsss.Err? {
      return Err(tsss.fault);
    }
    var sorted := SortGroups(tsss.value, GeneLe);
    return Ok(sorted);
  }

  // ---------------------------------------------------------------------------
  // The scan around the closest TSS

  /** The indices the forward loop yields from `i` on: up the list while the
    * TSS lies at most `DIST_CUTOFF` past the middle `m`. */
  function Forward<P>(s: seq<Entry<P>>, i: nat, m: real): (r: seq<int>)
    requires i <= |s|
    ensures |r| <= |s| - i
    ensures forall t :: 0 <= t < |r| ==> r[t] == i + t
    decreases |s| - i
  {
    if i < |s| && s[i].0 as real - m <= DIST_CUTOFF as real then [i] + Forward(s, i + 1, m) else []
  }

  /** The forward scan is the longest run from `i` of TSSs at most the cutoff
    * past the middle. */
  lemma {:induction false} ForwardRun<P>(s: seq<Entry<P>>, i: nat, m: real)
    requires i <= |s|
    ensures var r := Forward(s, i, m);
            && (forall t :: 0 <= t < |r| ==> s[r[t]].0 as real - m <= DIST_CUTOFF as real)
            && (i + |r| == |s| || s[i + |r|].0 as real - m > DIST_CUTOFF as real)
    decreases |s| - i
  {
    if i < |s| && s[i].0 as real - m <= DIST_CUTOFF as real {
      ForwardRun(s, i + 1, m);
      var r := Forward(s, i, m);
      forall t | 0 <= t < |r| ensures s[r[t]].0 as real - m <= DIST_CUTOFF as real {
        if t > 0 {
          assert r[t] == Forward(s, i + 1, m)[t - 1];
        }
      }
    }
  }

  /** The indices the backward loop yields from `i` down: while the TSS lies
    * at most `DIST_CUTOFF` before the middle `m`. */
  function Backward<P>(s: seq<Entry<P>>, i: int, m: real): (r: seq<int>)
    requires -1 <= i < |s|
    ensures |r| <= i + 1
    ensures forall t :: 0 <= t < |r| ==> r[t] == i - t
    decreases i + 1
  {
    if i >= 0 && m - s[i].0 as real <= DIST_CUTOFF as real then [i] + Backward(s, i - 1, m) else []
  }

  /** The backward scan is the longest run down from `i` of TSSs at most the
    * cutoff before the middle. */
  lemma {:induction false} BackwardRun<P>(s: seq<Entry<P>>, i: int, m: real)
    requires -1 <= i < |s|
    ensures var r := Backward(s, i, m);
            && (forall t :: 0 <= t < |r| ==> m - s[r[t]].0 as real <= DIST_CUTOFF as real)
            && (i - |r| == -1 || m - s[i - |r|].0 as real > DIST_CUTOFF as real)
    decreases i + 1
  {
    if i >= 0 && m - s[i].0 as real <= DIST_CUTOFF as real {
      BackwardRun(s, i - 1, m);
      var r := Backward(s, i, m);
      forall t | 0 <= t < |r| ensures m - s[r[t]].0 as real <= DIST_CUTOFF as real {
        if t > 0 {
          assert r[t] == Backward(s, i - 1, m)[t - 1];
        }
      }
    }
  }

  /** The two while loops of `peak_to_tss` for one peak: the indices of the
    * TSSs yielded, forward scan first, then backward. */
  method ScanWindow<P>(s: seq<Entry<P>>, c: nat, m: real) returns (idxs: seq<int>)
    requires c < |s|
    ensures idxs == Forward(s, c, m) + Backward(s, c - 1, m)
  {
    idxs := [];
    var idx: int := c;
    while idx < |s| && s[idx].0 as real - m <= DIST_CUTOFF as real
      invariant c <= idx <= |s|
      invariant idxs + Forward(s, idx, m) == Forward(s, c, m)
      decreases |s| - idx
    {
      assert Forward(s, idx, m) == [idx] + Forward(s, idx + 1, m);
      assert idxs + [idx] + Forward(s, idx + 1, m) == idxs + Forward(s, idx, m);
      idxs := idxs + [idx];
      idx := idx + 1;
    }
    assert Forward(s, idx, m) == [];
    assert idxs + [] == idxs;
    ghost var forward := idxs;
    idx := c - 1;
    while idx >= 0 && m - s[idx].0 as real <= DIST_CUTOFF as real
      invariant -1 <= idx < c && forward == Forward(s, c, m)
      invariant idxs + Backward(s, idx, m) == forward + Backward(s, c - 1, m)
      decreases idx + 1
    {
      assert Backward(s, idx, m) == [idx] + Backward(s, idx - 1, m);
      assert idxs + [idx] + Backward(s, idx - 1, m) == idxs + Backward(s, idx, m);
      idxs := idxs + [idx];
      idx := idx - 1;
    }
    assert Backward(s, idx, m) == [];
    assert idxs + [] == idxs;
  }

  /** Over a sorted list, the forward scan from `c` yields exactly the
    * indices from `c` up whose TSS lies at most the cutoff past `m`. */
  lemma ForwardMembers<P>(s: seq<Entry<P>>, c: nat, m: real)
    requires SortedByPos(s) && c <= |s|
    ensures forall j :: j in Forward(s, c, m) <==> c <= j < |s| && s[j].0 as real - m <= DIST_CUTOFF as real
  {
    var f := Forward(s, c, m);
    ForwardRun(s, c, m);
    forall j | c <= j < |s| && s[j].0 as real - m <= DIST_CUTOFF as real ensures j in f {
      assert f[j - c] == j;
    }
  }

  /** Over a sorted list, the backward scan from `c - 1` yields exactly the
    * indices below `c` whose TSS lies at most the cutoff before `m`. */
  lemma BackwardMembers<P>(s: seq<Entry<P>>, c: nat, m: real)
    requires SortedByPos(s) && c <= |s|
    ensures forall j :: j in Backward(s, c - 1, m) <==> 0 <= j < c && m - s[j].0 as real <= DIST_CUTOFF as real
  {
    var b := Backward(s, c - 1, m);
    BackwardRun(s, c - 1, m);
    forall j | 0 <= j < c && m - s[j].0 as real <= DIST_CUTOFF as real ensures j in b {
      assert b[c - 1 - j] == j;
    }
  }

  /** Over a sorted list, the scan yields exactly: every index from `c` up
    * whose TSS lies at most the cutoff past the middle, and every index
    * below `c` whose TSS lies at most the cutoff before it. Nothing is
    * yielded twice; forward indices come first, ascending, then backward
    * ones, descending. */
  lemma ScanExact<P>(s: seq<Entry<P>>, c: nat, m: real)
    requires SortedByPos(s) && c < |s|
    ensures var f, b := Forward(s, c, m), Backward(s, c - 1, m);
            && (forall j :: j in f <==> c <= j < |s| && s[j].0 as real - m <= DIST_CUTOFF as real)
            && (forall j :: j in b <==> 0 <= j < c && m - s[j].0 as real <= DIST_CUTOFF as real)
            && (forall t, u :: 0 <= t < u < |f| ==> f[t] < f[u])
            && (forall t, u :: 0 <= t < u < |b| ==> b[t] > b[u])
            && (forall t, u :: 0 <= t < |f| && 0 <= u < |b| ==> f[t] != b[u])
  {
    ForwardMembers(s, c, m);
    BackwardMembers(s, c, m);
  }

  /** The forward test bounds only one side: a lone TSS far before a peak is
    * still paired with it, here a TSS at 0 with a middle of 200005. */
  lemma ForwardOneSided()
    ensures var s: seq<Entry<Gene>> := [(0, ("ENSG0", "G"))];
            Forward(s, 0, 200005.0) == [0] && Dist(200005.0, s[0].0) > DIST_CUTOFF as real
  {
    var s: seq<Entry<Gene>> := [(0, ("ENSG0", "G"))];
    assert Forward(s, 1, 200005.0) == [];
  }

  // ---------------------------------------------------------------------------
  // peak_to_tss

  /** What the generator yields for one pairing: the peak's chromosome (leading
    * "chr" dropped), start, end and values read with `float()`, then the
    * TSS position, ensid and symbol. */
  datatype Pairing = Pairing(chrom: string, start: int, end: int, values: seq<real>,
                             tss: int, ensid: string, symbol: string)

  predicate AllTssSorted(tsss: map<string, seq<Entry<Gene>>>) {
    forall c :: c in tsss ==> SortedByPos(tsss[c])
  }

  /** The peak paired with the TSSs at `idxs`, in that order. */
  function Pairings(chrom: string, start: int, end: int, values: seq<real>,
                    s: seq<Entry<Gene>>, idxs: seq<int>): (r: seq<Pairing>)
    requires forall k :: 0 <= k < |idxs| ==> 0 <= idxs[k] < |s|
    ensures |r| == |idxs|
    ensures forall k :: 0 <= k < |idxs| ==>
              r[k] == Pairing(chrom, start, end, values, s[idxs[k]].0, s[idxs[k]].1.0, s[idxs[k]].1.1)
    decreases |idxs|
  {
    if idxs == [] then []
    else
      var j := idxs[|idxs| - 1];
      Pairings(chrom, start, end, values, s, idxs[..|idxs| - 1])
      + [Pairing(chrom, start, end, values, s[j].0, s[j].1.0, s[j].1.1)]
  }

  /** The pairings of one peak line, or the exception it raises: bad fields,
    * a chromosome absent from the index, or an empty list. */
  function PeakPairings(tsss: map<string, seq<Entry<Gene>>>, line: string): (r: Result<seq<Pairing>>)
    requires AllTssSorted(tsss)
  {
    var (chrom, start, end) :- ParseRegion(line);
    var values :- Floats(Split(RStrip(line), '\t')[3..]);
    RegionPairings(tsss, chrom, start, end, values)
  }

  /** The pairings of a parsed peak. */
  function RegionPairings(tsss: map<string, seq<Entry<Gene>>>, chrom: string, start: int, end: int,
                          values: seq<real>): (r: Result<seq<Pairing>>)
    requires AllTssSorted(tsss)
    ensures chrom !in tsss ==> r == Err(KeyError(chrom))
    ensures chrom in tsss && tsss[chrom] == [] ==> r == Err(AssertionError)
    ensures chrom in tsss && tsss[chrom] != [] ==> r.Ok?
  {
    if chrom !in tsss then Err(KeyError(chrom))
    else
      var s := tsss[chrom];
      var m := Middle(start, end);
      var h := Search(m, s);
      if h.closest.None? then Err(AssertionError)
      else
        Ok(Pairings(chrom, start, end, values, s, Forward(s, h.index, m) + Backward(s, h.index - 1, m)))
  }

  /** Every TSS the scan around the search's answer yields lies at most the
    * cutoff above the middle. (Below the middle there is no such bound: see
    * `ForwardOneSided`.) */
  lemma ScanBelowCutoff<P>(s: seq<Entry<P>>, m: real, c: nat, idxs: seq<int>)
    requires SortedByPos(s) && s != [] && c == Search(m, s).index
    requires idxs == Forward(s, c, m) + Backward(s, c - 1, m)
    ensures forall t :: 0 <= t < |idxs| ==> 0 <= idxs[t] < |s| && s[idxs[t]].0 as real - m <= DIST_CUTOFF as real
  {
    SearchFirstAbove(m, s, 0, |s|);
    ForwardRun(s, c, m);
    var f, b := Forward(s, c, m), Backward(s, c - 1, m);
    forall t | 0 <= t < |idxs| ensures s[idxs[t]].0 as real - m <= DIST_CUTOFF as real {
      var j := idxs[t];
      if t < |f| {
        assert j == f[t];
      } else {
        assert j == b[t - |f|] && j < c;
        if s[c].0 as real > m {
          assert s[j].0 <= s[c - 1].0 by {
            if j < c - 1 {
              assert j < c - 1;
            }
          }
        } else {
          assert s[j].0 <= s[c].0;
        }
      }
    }
  }

  /** Every pairing of a peak is with a TSS of that peak's chromosome lying
    * at most the cutoff above the peak's middle. */
  lemma RegionPairingsBelowCutoff(tsss: map<string, seq<Entry<Gene>>>, chrom: string, start: int, end: int,
                                  values: seq<real>)
    requires AllTssSorted(tsss) && RegionPairings(tsss, chrom, start, end, values).Ok?
    ensures chrom in tsss
    ensures var ps := RegionPairings(tsss, chrom, start, end, values).value;
            forall k :: 0 <= k < |ps| ==>
              && ps[k].chrom == chrom && ps[k].start == start && ps[k].end == end && ps[k].values == values
              && (ps[k].tss, (ps[k].ensid, ps[k].symbol)) in tsss[chrom]
              && ps[k].tss as real - Middle(start, end) <= DIST_CUTOFF as real
  {
    var s := tsss[chrom];
    var m := Middle(start, end);
    var c := Search(m, s).index;
    var idxs := Forward(s, c, m) + Backward(s, c - 1, m);
    ScanBelowCutoff(s, m, c, idxs);
    var ps := RegionPairings(tsss, chrom, start, end, values).value;
    assert ps == Pairings(chrom, start, end, values, s, idxs);
    forall k | 0 <= k < |ps|
      ensures (ps[k].tss, (ps[k].ensid, ps[k].symbol)) in s
      ensures ps[k].tss as real - m <= DIST_CUTOFF as real
    {
      assert (ps[k].tss, (ps[k].ensid, ps[k].symbol)) == s[idxs[k]];
      assert s[idxs[k]].0 as real - m <= DIST_CUTOFF as real;
    }
  }

  /** The pairings of the lines, peak by peak, or the first exception. */
  function AllPairings(tsss: map<string, seq<Entry<Gene>>>, lines: seq<string>): (r: Result<seq<Pairing>>)
    requires AllTssSorted(tsss)
    decreases |lines|
  {
    if lines == [] then Ok([])
    else
      var init :- AllPairings(tsss, lines[..|lines| - 1]);
      var last :- PeakPairings(tsss, lines[|lines| - 1]);
      Ok(init + last)
  }

  lemma AllPairingsSnoc(tsss: map<string, seq<Entry<Gene>>>, lines: seq<string>, i: nat)
    requires AllTssSorted(tsss) && i < |lines|
    ensures AllPairings(tsss, lines[..i + 1]) ==
              (match AllPairings(tsss, lines[..i])
               case Err(f) => Err(f)
               case Ok(init) =>
                 match PeakPairings(tsss, lines[i])
                 case Err(f) => Err(f)
                 case Ok(last) => Ok(init + last))
  {
    assert lines[..i + 1][..i] == lines[..i];
  }

  lemma {:induction false} AllPairingsErrPersists(tsss: map<string, seq<Entry<Gene>>>, lines: seq<string>, k: nat)
    requires AllTssSorted(tsss) && k <= |lines| && AllPairings(tsss, lines[..k]).Err?
    ensures AllPairings(tsss, lines) == AllPairings(tsss, lines[..k])
    decreases |lines| - k
  {
    if k < |lines| {
      AllPairingsSnoc(tsss, lines, k);
      AllPairingsErrPersists(tsss, lines, k + 1);
    } else {
      assert lines[..k] == lines;
    }
  }

  /** The body of `peak_to_tss` for one peak line: what it yields for that
    * peak, or the exception it raises. */
  method PairPeak(tsss: map<string, seq<Entry<Gene>>>, line: string) returns (r: Result<seq<Pairing>>)
    requires AllTssSorted(tsss)
    ensures r == PeakPairings(tsss, line)
  {
    var region := ParseRegion(line);
    if region.Err? {
      return Err(region.fault);
    }
    var (chrom, start, end) := region.value;
    var values := Floats(Split(RStrip(line), '\t')[3..]);
    if values.Err? {
      return Err(values.fault);
    }
    r := PairRegion(tsss, chrom, start, end, values.value);
  }

  /** The same for a peak already read: its chromosome's TSSs are searched
    * and scanned around the peak's middle. */
  method PairRegion(tsss: map<string, seq<Entry<Gene>>>, chrom: string, start: int, end: int,
                    values: seq<real>) returns (r: Result<seq<Pairing>>)
    requires AllTssSorted(tsss)
    ensures r == RegionPairings(tsss, chrom, start, end, values)
  {
    if chrom !in tsss {
      return Err(KeyError(chrom));
    }
    var s := tsss[chrom];
    var middle := Middle(start, end);
    var h := Search(middle, s);
    if h.closest.None? {
      return Err(AssertionError);
    }
    var idxs := ScanWindow(s, h.index, middle);
    var out := PairAll(chrom, start, end, values, s, idxs);
    return Ok(out);
  }

  /** The yields of `peak_to_tss` for the TSSs at `idxs`, in order. */
  method PairAll(chrom: string, start: int, end: int, values: seq<real>,
                 s: seq<Entry<Gene>>, idxs: seq<int>) returns (out: seq<Pairing>)
    requires forall k :: 0 <= k < |idxs| ==> 0 <= idxs[k] < |s|
    ensures out == Pairings(chrom, start, end, values, s, idxs)
  {
    out := [];
    var k := 0;
    while k < |idxs|
      invariant 0 <= k <= |idxs|
      invariant out == Pairings(chrom, start, end, values, s, idxs[..k])
    {
      assert idxs[..k + 1][..k] == idxs[..k];
      var j := idxs[k];
      var (ensid, symbol) := s[j].1;
      out := out + [Pairing(chrom, start, end, values, s[j].0, ensid, symbol)];
      k := k + 1;
    }
    assert idxs[..k] == idxs;
  }

  /** `peak_to_tss` over the lines of a peak file: everything it yields, or
    * the exception that ends it. */
  method PeakToTss(tsss: map<string, seq<Entry<Gene>>>, lines: seq<string>) returns (r: Result<seq<Pairing>>)
    requires AllTssSorted(tsss)
    ensures r == AllPairings(tsss, lines)
  {
    var out: seq<Pairing> := [];
    var i := 0;
    while i < |lines|
      invariant 0 <= i <= |lines|
      invariant AllPairings(tsss, lines[..i]) == Ok(out)
    {
      AllPairingsSnoc(tsss, lines, i);
      var pairs := PairPeak(tsss, lines[i]);
      if pairs.Err? {
        AllPairingsErrPersists(tsss, lines, i + 1);
        return Err(pairs.fault);
      }
      out := out + pairs.value;
      i := i + 1;
    }
    assert lines[..i] == lines;
    return Ok(out);
  }

  // ---------------------------------------------------------------------------
  // pop_expr

  /** The individuals of a population that have an expression value, in the
    * population's order. */
  function Present(indivs: seq<string>, expr: map<string, string>): (r: seq<string>)
    ensures |r| <= |indivs|
    ensures forall x :: x in r <==> x in indivs && x in expr
  {
    if indivs == [] then []
    else (if indivs[0] in expr then [indivs[0]] else []) + Present(indivs[1..], expr)
  }

  /** Selection keeps order: the individuals of a concatenation are those of
    * each part, in turn. */
  lemma {:induction false} PresentAppend(a: seq<string>, b: seq<string>, expr: map<string, string>)
    ensures Present(a + b, expr) == Present(a, expr) + Present(b, expr)
    decreases |a|
  {
    if a != [] {
      assert (a + b)[1..] == a[1..] + b;
      PresentAppend(a[1..], b, expr);
    } else {
      assert a + b == b;
    }
  }

  /** With every individual present, nothing is skipped. */
  lemma {:induction false} PresentAll(indivs: seq<string>, expr: map<string, string>)
    requires forall x :: x in indivs ==> x in expr
    ensures Present(indivs, expr) == indivs
    decreases |indivs|
  {
    if indivs != [] {
      PresentAll(indivs[1..], expr);
    }
  }

  /** The texts `expr` holds for `keys`, in order. */
  function ValuesOf(keys: seq<string>, expr: map<string, string>): (texts: seq<string>)
    requires forall x :: x in keys ==> x in expr
    ensures |texts| == |keys| && forall k :: 0 <= k < |keys| ==> texts[k] == expr[keys[k]]
  {
    seq(|keys|, k requires 0 <= k < |keys| => expr[keys[k]])
  }

  /** `pop_expr`: the expression values of the population's individuals that
    * have one, in the population's order, each read with `float()`; an
    * unknown population raises KeyError and a value that is not a float
    * raises ValueError (`PopExprSpec`). */
  function PopExpr(geneExpr: map<string, string>, pops: map<string, seq<string>>, popName: string)
    : (r: Result<seq<real>>)
    ensures popName !in pops ==> r == Err(KeyError(popName))
    ensures r.Ok? ==> popName in pops && |r.value| <= |pops[popName]|
  {
    if popName !in pops then Err(KeyError(popName))
    else Floats(ValuesOf(Present(pops[popName], geneExpr), geneExpr))
  }

  /** A known population's values are read exactly when every present
    * individual's text is a float, and are then those floats in order. */
  lemma PopExprSpec(geneExpr: map<string, string>, pops: map<string, seq<string>>, popName: string)
    requires popName in pops
    ensures var kept := Present(pops[popName], geneExpr);
            var r := PopExpr(geneExpr, pops, popName);
            (r.Ok? <==> forall k :: 0 <= k < |kept| ==> ParseFloat(geneExpr[kept[k]]).Some?)
            && (r.Ok? ==> |r.value| == |kept|
                          && forall k :: 0 <= k < |kept| ==> ParseFloat(geneExpr[kept[k]]) == Some(r.value[k]))
  {
  }
}
