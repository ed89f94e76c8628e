/**
 * bin/peak_to_rsid.py: a per-chromosome index of `(position, payload)`
 * pairs, the recursive closest-position search over it, and the script that
 * maps each peak to the variant nearest its middle, drawing variants without
 * replacement.
 */
module PeakToRsid {
  import opened Wrappers
  import opened Text

  /** A `(position, payload)` tuple of an index. */
  type Entry<P> = (int, P)

  /** `abs(q - p)` for a query that may fall between integer positions. */
  function Dist(q: real, p: int): real {
    if q >= p as real then q - p as real else p as real - q
  }

  // ---------------------------------------------------------------------------
  // Building the index: tuples sorted as Python sorts them

  /** Python's `<=` on `(pos, payload)` tuples, given `<=` on payloads. */
  predicate EntryLe<P>(x: Entry<P>, y: Entry<P>, le: (P, P) -> bool) {
    x.0 < y.0 || (x.0 == y.0 && le(x.1, y.1))
  }

  /** A payload order under which any two payloads compare and which is
    * transitive, as Python's `<` on strings and tuples is. */
  ghost predicate TotalPreorder<P(!new)>(le: (P, P) -> bool) {
    && (forall a, b :: le(a, b) || le(b, a))
    && (forall a, b, c :: le(a, b) && le(b, c) ==> le(a, c))
  }

  predicate SortedBy<P>(s: seq<Entry<P>>, le: (P, P) -> bool) {
    forall i, j :: 0 <= i < j < |s| ==> EntryLe(s[i], s[j], le)
  }

  /** Positions do not decrease over `s[lo..hi]`. */
  predicate SortedRange<P>(s: seq<Entry<P>>, lo: int, hi: int)
    requires 0 <= lo <= hi <= |s|
  {
    forall i, j :: lo <= i < j < hi ==> s[i].0 <= s[j].0
  }

  predicate SortedByPos<P>(s: seq<Entry<P>>) {
    SortedRange(s, 0, |s|)
  }

  lemma EntryLeTransitive<P(!new)>(x: Entry<P>, y: Entry<P>, z: Entry<P>, le: (P, P) -> bool)
    requires TotalPreorder(le) && EntryLe(x, y, le) && EntryLe(y, z, le)
    ensures EntryLe(x, z, le)
  {
  }

  /** An entry no greater than the head of a sorted list can go in front. */
  lemma InsertFront<P(!new)>(x: Entry<P>, s: seq<Entry<P>>, le: (P, P) -> bool)
    requires TotalPreorder(le) && SortedBy(s, le) && (s == [] || EntryLe(x, s[0], le))
    ensures SortedBy([x] + s, le)
  {
    var r := [x] + s;
    forall j | 0 < j < |r| ensures EntryLe(x, r[j], le) {
      assert r[j] == s[j - 1];
      if j > 1 {
        EntryLeTransitive(x, s[0], s[j - 1], le);
      }
    }
  }

  /** An entry above the head of a sorted list goes into its tail, and the
    * head stays in front. */
  lemma InsertBehind<P(!new)>(x: Entry<P>, s: seq<Entry<P>>, rest: seq<Entry<P>>, le: (P, P) -> bool)
    requires TotalPreorder(le) && SortedBy(s, le) && s != [] && !EntryLe(x, s[0], le)
    requires multiset(rest) == multiset(s[1..]) + multiset{x} && SortedBy(rest, le)
    ensures SortedBy([s[0]] + rest, le)
    ensures multiset([s[0]] + rest) == multiset(s) + multiset{x}
  {
    assert s == [s[0]] + s[1..];
    assert EntryLe(s[0], x, le) by {
      assert le(x.1, s[0].1) || le(s[0].1, x.1);
    }
    forall j | 0 <= j < |rest| ensures EntryLe(s[0], rest[j], le) {
      assert rest[j] in multiset(rest);
      if rest[j] != x {
        assert rest[j] in multiset(s[1..]);
        var k :| 0 <= k < |s[1..]| && s[1..][k] == rest[j];
        assert s[k + 1] == rest[j];
      }
    }
    var r := [s[0]] + rest;
    forall a, b | 0 <= a < b < |r| ensures EntryLe(r[a], r[b], le) {
      if a > 0 {
        assert r[a] == rest[a - 1] && r[b] == rest[b - 1];
      } else {
        assert r[b] == rest[b - 1];
      }
    }
  }

  function Insert<P(!new)>(x: Entry<P>, s: seq<Entry<P>>, le: (P, P) -> bool): (r: seq<Entry<P>>)
    requires TotalPreorder(le) && SortedBy(s, le)
    ensures multiset(r) == multiset(s) + multiset{x}
    ensures SortedBy(r, le)
    decreases |s|
  {
    if s == [] || EntryLe(x, s[0], le) then
      InsertFront(x, s, le);
      [x] + s
    else
      var rest := Insert(x, s[1..], le);
      InsertBehind(x, s, rest, le);
      [s[0]] + rest
  }

  /** `sorted(entries)`: the entries in ascending tuple order. */
  function Sort<P(!new)>(s: seq<Entry<P>>, le: (P, P) -> bool): (r: seq<Entry<P>>)
    requires TotalPreorder(le)
    ensures multiset(r) == multiset(s)
    ensures SortedBy(r, le)
    decreases |s|
  {
    if s == [] then []
    else
      assert s == [s[0]] + s[1..];
      Insert(s[0], Sort(s[1..], le), le)
  }

  /** Tuple order puts positions in ascending order. */
  lemma SortedByPositions<P>(s: seq<Entry<P>>, le: (P, P) -> bool)
    requires SortedBy(s, le)
    ensures SortedByPos(s)
  {
    forall i, j | 0 <= i < j < |s| ensures s[i].0 <= s[j].0 {
      assert EntryLe(s[i], s[j], le);
    }
  }

  /** Variant payloads (rsids) compare as strings. */
  predicate RsidLe(a: string, b: string) {
    StrLe(a, b)
  }

  lemma RsidLeTotalPreorder()
    ensures TotalPreorder(RsidLe)
  {
    forall a, b ensures RsidLe(a, b) || RsidLe(b, a) {
      StrLeTotal(a, b);
    }
    forall a, b, c | RsidLe(a, b) && RsidLe(b, c) ensures RsidLe(a, c) {
      StrLeTransitive(a, b, c);
    }
  }

  // ---------------------------------------------------------------------------
  // closest_dist and search_closest

  /** `closest_dist(a, b, q)`: `(a, 0)` when `a` is strictly nearer to `q`,
    * otherwise `(b, 1)`. */
  function ClosestDist<P>(a: Entry<P>, b: Entry<P>, q: real): (r: (Entry<P>, nat))
    ensures r == (a, 0) || r == (b, 1)
    ensures Dist(q, r.0.0) <= Dist(q, a.0) && Dist(q, r.0.0) <= Dist(q, b.0)
    ensures Dist(q, a.0) == Dist(q, b.0) ==> r == (b, 1)
  {
    if Dist(q, a.0) < Dist(q, b.0) then (a, 0) else (b, 1)
  }

  /** What `search_closest` returns: the entry (or `None`) and its index. */
  datatype Hit<P> = Hit(closest: Option<Entry<P>>, index: int)

  /** `search_closest(q, s, base, length)`, over `s[base..base + length]`. */
  function SearchClosest<P>(q: real, s: seq<Entry<P>>, base: nat, length: nat): (h: Hit<P>)
    requires base + length <= |s|
    requires SortedRange(s, base, base + length)
    ensures length == 0 ==> h == Hit(None, base)
    ensures length > 0 ==> base <= h.index < base + length && h.closest == Some(s[h.index])
    decreases length
  {
    if length == 0 then Hit(None, base)
    else if length == 1 then Hit(Some(s[base]), base)
    else if length == 2 then
      var pick :=
        if s[base].0 as real <= q && q >= s[base + 1].0 as real then ClosestDist(s[base], s[base + 1], q)
        else if q < s[base].0 as real then (s[base], 0)
        else (s[base + 1], 1);
      Hit(Some(pick.0), base + pick.1)
    else
      var split := length / 2;
      if s[base + split - 1].0 as real <= q && s[base + split].0 as real >= q then
        var pick := ClosestDist(s[base + split - 1], s[base + split], q);
        if pick.1 == 0 then Hit(Some(pick.0), base + split - 1)
        else Hit(Some(pick.0), base + split)
      else if q < s[base + split - 1].0 as real then
        SearchClosest(q, s, base, split)
      else
        SearchClosest(q, s, base + split, length - split)
  }

  /** The search as callers start it, over the whole list. */
  function Search<P>(q: real, s: seq<Entry<P>>): (h: Hit<P>)
    requires SortedByPos(s)
    ensures h.closest.None? <==> s == []
    ensures s != [] ==> 0 <= h.index < |s| && h.closest == Some(s[h.index])
  {
    SearchClosest(q, s, 0, |s|)
  }

  /** A query below the first position returns the first entry. */
  lemma {:induction false} SearchBelowFirst<P>(q: real, s: seq<Entry<P>>, base: nat, length: nat)
    requires base + length <= |s| && SortedRange(s, base, base + length)
    requires length > 0 && q < s[base].0 as real
    ensures SearchClosest(q, s, base, length).index == base
    decreases length
  {
    if length > 2 {
      var split := length / 2;
      assert s[base].0 <= s[base + split - 1].0 by {
        if split > 1 {
          assert base < base + split - 1;
        }
      }
      SearchBelowFirst(q, s, base, split);
    }
  }

  /** A query above the last position returns the last entry. */
  lemma {:induction false} SearchAboveLast<P>(q: real, s: seq<Entry<P>>, base: nat, length: nat)
    requires base + length <= |s| && SortedRange(s, base, base + length)
    requires length > 0 && q > s[base + length - 1].0 as real
    ensures SearchClosest(q, s, base, length).index == base + length - 1
    decreases length
  {
    if length == 2 {
      assert s[base].0 <= s[base + 1].0;
    } else if length > 2 {
      var split := length / 2;
      assert s[base + split].0 <= s[base + length - 1].0 by {
        if split < length - 1 {
          assert base + split < base + length - 1;
        }
      }
      assert s[base + split - 1].0 <= s[base + split].0;
      SearchAboveLast(q, s, base + split, length - split);
    }
  }

  /** When the query lies on or between the two entries either side of the
    * split, the answer is the nearer of those two, without recursion. */
  lemma SearchAtSplit<P>(q: real, s: seq<Entry<P>>, base: nat, length: nat)
    requires base + length <= |s| && SortedRange(s, base, base + length)
    requires length > 2
    requires s[base + length / 2 - 1].0 as real <= q <= s[base + length / 2].0 as real
    ensures var h := SearchClosest(q, s, base, length);
            var pick := ClosestDist(s[base + length / 2 - 1], s[base + length / 2], q);
            h.closest == Some(pick.0) && h.index == base + length / 2 - 1 + pick.1
  {
  }

  /** The two-entry case tests `q >= s[base + 1]` before comparing
    * distances: a query on or above the lower entry and below the upper one
    * gets the upper entry whatever the distances. */
  lemma SearchPairPrefersUpper<P>(q: real, s: seq<Entry<P>>, base: nat)
    requires base + 2 <= |s| && SortedRange(s, base, base + 2)
    requires s[base].0 as real <= q < s[base + 1].0 as real
    ensures SearchClosest(q, s, base, 2).index == base + 1
  {
  }

  /** Consequently the search is not a nearest-position search: querying 0
    * over positions 0, 10, 20, 30 returns index 1 (position 10), although
    * index 0 holds the query itself. */
  lemma SearchNotNearest()
    ensures var s: seq<Entry<string>> := [(0, "a"), (10, "b"), (20, "c"), (30, "d")];
            var h := Search(0.0, s);
            h.index == 1 && Dist(0.0, s[h.index].0) > Dist(0.0, s[0].0)
  {
    var s: seq<Entry<string>> := [(0, "a"), (10, "b"), (20, "c"), (30, "d")];
    assert SortedByPos(s);
    assert SearchClosest(0.0, s, 0, 4) == SearchClosest(0.0, s, 0, 2);
  }

  /** `x` lies strictly between `q` and `y`, on either side. */
  predicate StrictlyBetween(q: real, x: int, y: int) {
    (q < x as real && x < y) || (y < x && x as real < q)
  }

  /** Entries at or above `m`, with `q` below `m`, are not strictly between
    * `q` and an answer at or below `m`. */
  lemma NoneBetweenAbove<P>(q: real, s: seq<Entry<P>>, lo: int, hi: int, m: int, y: int)
    requires 0 <= lo <= hi <= |s|
    requires q < m as real && y <= m
    requires forall j :: lo <= j < hi ==> m <= s[j].0
    ensures forall j :: lo <= j < hi ==> !StrictlyBetween(q, s[j].0, y)
  {
  }

  /** Entries at or below `m`, with `q` above `m`, are not strictly between
    * `q` and an answer at or above `m`. */
  lemma NoneBetweenBelow<P>(q: real, s: seq<Entry<P>>, lo: int, hi: int, m: int, y: int)
    requires 0 <= lo <= hi <= |s|
    requires q > m as real && y >= m
    requires forall j :: lo <= j < hi ==> s[j].0 <= m
    ensures forall j :: lo <= j < hi ==> !StrictlyBetween(q, s[j].0, y)
  {
  }

  /** No entry of `s[base..base + length]` lies strictly between `q` and
    * `s[i]`. */
  predicate NothingBetween<P>(q: real, s: seq<Entry<P>>, base: nat, length: nat, i: int)
    requires base + length <= |s| && 0 <= i < |s|
  {
    forall j :: base <= j < base + length ==> !StrictlyBetween(q, s[j].0, s[i].0)
  }

  lemma NeighbourPair<P>(q: real, s: seq<Entry<P>>, base: nat)
    requires base + 2 <= |s| && SortedRange(s, base, base + 2)
    ensures NothingBetween(q, s, base, 2, SearchClosest(q, s, base, 2).index)
  {
    assert s[base].0 <= s[base + 1].0;
  }

  lemma NeighbourAtSplit<P>(q: real, s: seq<Entry<P>>, base: nat, length: nat, i: int)
    requires base + length <= |s| && SortedRange(s, base, base + length)
    requires length > 2
    requires s[base + length / 2 - 1].0 as real <= q <= s[base + length / 2].0 as real
    requires i == base + length / 2 - 1 || i == base + length / 2
    ensures NothingBetween(q, s, base, length, i)
  {
    var split := length / 2;
    var lo, hi := s[base + split - 1].0, s[base + split].0;
    assert forall j :: base <= j < base + split - 1 ==> s[j].0 <= lo;
    assert forall j :: base + split < j < base + length ==> hi <= s[j].0;
  }

  lemma NeighbourLeft<P>(q: real, s: seq<Entry<P>>, base: nat, length: nat, i: int)
    requires base + length <= |s| && SortedRange(s, base, base + length)
    requires length > 2
    requires q < s[base + length / 2 - 1].0 as real
    requires base <= i < base + length / 2 && NothingBetween(q, s, base, length / 2, i)
    ensures NothingBetween(q, s, base, length, i)
  {
    var split := length / 2;
    var lo := s[base + split - 1].0;
    assert s[i].0 <= lo by {
      if i < base + split - 1 {
        assert s[i].0 <= s[base + split - 1].0;
      }
    }
    assert forall j :: base + split <= j < base + length ==> lo <= s[j].0;
    NoneBetweenAbove(q, s, base + split, base + length, lo, s[i].0);
  }

  lemma NeighbourRight<P>(q: real, s: seq<Entry<P>>, base: nat, length: nat, i: int)
    requires base + length <= |s| && SortedRange(s, base, base + length)
    requires length > 2
    requires q > s[base + length / 2].0 as real
    requires base + length / 2 <= i < base + length
    requires NothingBetween(q, s, base + length / 2, length - length / 2, i)
    ensures NothingBetween(q, s, base, length, i)
  {
    var split := length / 2;
    var hi := s[base + split].0;
    assert hi <= s[i].0 by {
      if i > base + split {
        assert s[base + split].0 <= s[i].0;
      }
    }
    assert forall j :: base <= j < base + split ==> s[j].0 <= hi;
    NoneBetweenBelow(q, s, base, base + split, hi, s[i].0);
  }

  /** Below the two middle entries the search continues in the lower half. */
  lemma SearchGoesLeft<P>(q: real, s: seq<Entry<P>>, base: nat, length: nat)
    requires base + length <= |s| && SortedRange(s, base, base + length)
    requires length > 2 && q < s[base + length / 2 - 1].0 as real
    ensures SortedRange(s, base, base + length / 2)
    ensures SearchClosest(q, s, base, length) == SearchClosest(q, s, base, length / 2)
  {
  }

  /** Above the two middle entries the search continues in the upper half. */
  lemma SearchGoesRight<P>(q: real, s: seq<Entry<P>>, base: nat, length: nat)
    requires base + length <= |s| && SortedRange(s, base, base + length)
    requires length > 2 && !(q < s[base + length / 2 - 1].0 as real)
    requires !(s[base + length / 2].0 as real >= q)
    ensures SortedRange(s, base + length / 2, base + length)
    ensures SearchClosest(q, s, base, length)
            == SearchClosest(q, s, base + length / 2, length - length / 2)
  {
  }

  /** The search over `s[base..base + length]` returns an entry with nothing
    * strictly between it and the query. */
  predicate ReturnsNeighbour<P>(q: real, s: seq<Entry<P>>, base: nat, length: nat)
    requires base + length <= |s| && SortedRange(s, base, base + length)
    requires length > 0
  {
    NothingBetween(q, s, base, length, SearchClosest(q, s, base, length).index)
  }

  lemma NeighbourLeftStep<P>(q: real, s: seq<Entry<P>>, base: nat, length: nat)
    requires base + length <= |s| && SortedRange(s, base, base + length)
    requires length > 2 && q < s[base + length / 2 - 1].0 as real
    requires SortedRange(s, base, base + length / 2)
    requires ReturnsNeighbour(q, s, base, length / 2)
    ensures ReturnsNeighbour(q, s, base, length)
  {
    SearchGoesLeft(q, s, base, length);
    NeighbourLeft(q, s, base, length, SearchClosest(q, s, base, length / 2).index);
  }

  lemma NeighbourRightStep<P>(q: real, s: seq<Entry<P>>, base: nat, length: nat, split: nat)
    requires base + length <= |s| && SortedRange(s, base, base + length)
    requires length > 2 && split == length / 2
    requires !(q < s[base + split - 1].0 as real) && !(s[base + split].0 as real >= q)
    requires SortedRange(s, base + split, base + length)
    requires ReturnsNeighbour(q, s, base + split, length - split)
    ensures ReturnsNeighbour(q, s, base, length)
  {
    SearchGoesRight(q, s, base, length);
    var i := SearchClosest(q, s, base + split, length - split).index;
    assert base + split <= i < base + length;
    NeighbourRight(q, s, base, length, i);
  }

  lemma NeighbourMiddleStep<P>(q: real, s: seq<Entry<P>>, base: nat, length: nat)
    requires base + length <= |s| && SortedRange(s, base, base + length)
    requires length > 2
    requires s[base + length / 2 - 1].0 as real <= q && s[base + length / 2].0 as real >= q
    ensures ReturnsNeighbour(q, s, base, length)
  {
    NeighbourAtSplit(q, s, base, length, SearchClosest(q, s, base, length).index);
  }

  lemma {:induction false} NeighbourByHalves<P>(q: real, s: seq<Entry<P>>, base: nat, length: nat)
    requires base + length <= |s| && SortedRange(s, base, base + length)
    requires length > 0
    ensures ReturnsNeighbour(q, s, base, length)
    decreases length
  {
    var split := length / 2;
    if length == 1 {
      assert SearchClosest(q, s, base, length).index == base;
    } else if length == 2 {
      NeighbourPair(q, s, base);
    } else if s[base + split - 1].0 as real <= q && s[base + split].0 as real >= q {
      NeighbourMiddleStep(q, s, base, length);
    } else if q < s[base + split - 1].0 as real {
      assert SortedRange(s, base, base + split);
      NeighbourByHalves(q, s, base, split);
      NeighbourLeftStep(q, s, base, length);
    } else {
      assert SortedRange(s, base + split, base + length);
      NeighbourByHalves(q, s, base + split, length - split);
      assert !(q < s[base + split - 1].0 as real);
      assert !(s[base + split].0 as real >= q);
      assert ReturnsNeighbour(q, s, base + split, length - split);
      NeighbourRightStep(q, s, base, length, split);
    }
  }

  /** What the search does guarantee: no entry of the range lies strictly
    * between the query and the returned entry. The answer is the nearest
    * entry at or below the query or the nearest at or above it. */
  lemma SearchNeighbour<P>(q: real, s: seq<Entry<P>>, base: nat, length: nat)
    requires base + length <= |s| && SortedRange(s, base, base + length)
    requires length > 0
    ensures NothingBetween(q, s, base, length, SearchClosest(q, s, base, length).index)
  {
    NeighbourByHalves(q, s, base, length);
  }

  /** Entry `i` of the range starting at `base` is at or below the query, is
    * the first of the range, or follows an entry at or below the query. */
  predicate FirstAbove<P>(q: real, s: seq<Entry<P>>, base: nat, i: int)
    requires base <= i < |s|
  {
    s[i].0 as real > q && i > base ==> s[i - 1].0 as real <= q
  }

  lemma FirstAbovePair<P>(q: real, s: seq<Entry<P>>, base: nat)
    requires base + 2 <= |s| && SortedRange(s, base, base + 2)
    ensures FirstAbove(q, s, base, SearchClosest(q, s, base, 2).index)
  {
    var i := SearchClosest(q, s, base, 2).index;
    if s[base].0 as real <= q && q >= s[base + 1].0 as real {
      assert s[i].0 as real <= q;
    } else if q < s[base].0 as real {
      assert i == base;
    } else {
      assert i == base + 1 && s[base].0 as real <= q;
    }
  }

  lemma FirstAboveMiddle<P>(q: real, s: seq<Entry<P>>, base: nat, length: nat)
    requires base + length <= |s| && SortedRange(s, base, base + length) && length > 2
    requires s[base + length / 2 - 1].0 as real <= q && s[base + length / 2].0 as real >= q
    ensures FirstAbove(q, s, base, SearchClosest(q, s, base, length).index)
  {
    var i := SearchClosest(q, s, base, length).index;
    assert i == base + length / 2 - 1 || i == base + length / 2;
  }

  /** An entry first above the query within the upper part of a range is
    * first above it in the whole range when the lower part ends at or below
    * the query. */
  lemma FirstAboveUpper<P>(q: real, s: seq<Entry<P>>, base: nat, split: nat, i: int)
    requires 0 < split && base + split <= i < |s|
    requires s[base + split - 1].0 as real <= q
    requires FirstAbove(q, s, base + split, i)
    ensures FirstAbove(q, s, base, i)
  {
  }

  /** An answer above the query is the first entry of the range or follows
    * an entry at or below the query: among equal positions above the query
    * the search returns the lowest index. */
  lemma {:induction false} SearchFirstAbove<P>(q: real, s: seq<Entry<P>>, base: nat, length: nat)
    requires base + length <= |s| && SortedRange(s, base, base + length)
    requires length > 0
    ensures FirstAbove(q, s, base, SearchClosest(q, s, base, length).index)
    decreases length
  {
    if length == 1 {
      assert SearchClosest(q, s, base, length).index == base;
    } else if length == 2 {
      FirstAbovePair(q, s, base);
    } else {
      var split := length / 2;
      if s[base + split - 1].0 as real <= q && s[base + split].0 as real >= q {
        FirstAboveMiddle(q, s, base, length);
      } else if q < s[base + split - 1].0 as real {
        SearchGoesLeft(q, s, base, length);
        SearchFirstAbove(q, s, base, split);
      } else {
        SearchGoesRight(q, s, base, length);
        SearchFirstAbove(q, s, base + split, length - split);
        FirstAboveUpper(q, s, base, split, SearchClosest(q, s, base + split, length - split).index);
      }
    }
  }

  // ---------------------------------------------------------------------------
  // load_snps: group by chromosome, then sort each group

  /** One variant line: chromosome (one leading "chr" dropped), position and
    * rsid from the first three tab-separated fields, read left to right. */
  function ParseSnpLine(line: string): Result<(string, Entry<string>)> {
    var fields := Split(RStrip(line), '\t');
    if |fields| < 2 then Err(IndexError)
    else match ParseInt(fields[1])
      case None => Err(ValueError(fields[1]))
      case Some(pos) =>
        if |fields| < 3 then Err(IndexError)
        else Ok((DropPrefix(fields[0], "chr"), (pos, fields[2])))
  }

  /** The entries of `parsed` on chromosome `c`, in file order. */
  function On<P>(parsed: seq<(string, Entry<P>)>, c: string): (r: seq<Entry<P>>)
    ensures |r| <= |parsed|
  {
    if parsed == [] then []
    else On(parsed[..|parsed| - 1], c)
         + (if parsed[|parsed| - 1].0 == c then [parsed[|parsed| - 1].1] else [])
  }

  /** The chromosomes that occur in `parsed`. */
  function Chroms<P>(parsed: seq<(string, Entry<P>)>): set<string> {
    set k | 0 <= k < |parsed| :: parsed[k].0
  }

  /** Appending one parsed line to the per-chromosome lists. */
  lemma OnSnoc<P>(parsed: seq<(string, Entry<P>)>, x: (string, Entry<P>), c: string)
    ensures On(parsed + [x], c) == On(parsed, c) + (if x.0 == c then [x.1] else [])
  {
    assert (parsed + [x])[..|parsed|] == parsed;
  }

  /** What one more line does to the grouping: its chromosome is now present
    * and its entry goes to the end of that chromosome's list, which was empty
    * if the chromosome was new. */
  lemma GroupSnoc<P>(parsed: seq<(string, Entry<P>)>, x: (string, Entry<P>))
    ensures Chroms(parsed + [x]) == Chroms(parsed) + {x.0}
    ensures forall c :: On(parsed + [x], c) == On(parsed, c) + (if x.0 == c then [x.1] else [])
    ensures x.0 !in Chroms(parsed) ==> On(parsed, x.0) == []
  {
    var parsed' := parsed + [x];
    forall c ensures On(parsed', c) == On(parsed, c) + (if x.0 == c then [x.1] else []) {
      OnSnoc(parsed, x, c);
    }
    forall c | c in Chroms(parsed') ensures c in Chroms(parsed) + {x.0} {
      var k :| 0 <= k < |parsed'| && parsed'[k].0 == c;
      if k < |parsed| {
        assert parsed[k].0 == c;
      }
    }
    forall c | c in Chroms(parsed) ensures c in Chroms(parsed') {
      var k :| 0 <= k < |parsed| && parsed[k].0 == c;
      assert parsed'[k].0 == c;
    }
    assert parsed'[|parsed|].0 == x.0;
    if On(parsed, x.0) != [] {
      OnWitness(parsed, x.0);
    }
  }

  /** `groups` holds, for each chromosome of `parsed`, its entries in order. */
  ghost predicate Grouped<P>(groups: map<string, seq<Entry<P>>>, parsed: seq<(string, Entry<P>)>) {
    groups.Keys == Chroms(parsed) && forall c :: c in groups ==> groups[c] == On(parsed, c)
  }

  /** One more parsed line appended to its chromosome's list, which is
    * created empty first when missing. */
  lemma GroupedSnoc<P>(groups: map<string, seq<Entry<P>>>, parsed: seq<(string, Entry<P>)>,
                       x: (string, Entry<P>))
    requires Grouped(groups, parsed)
    ensures Grouped(groups[x.0 := (if x.0 in groups then groups[x.0] else []) + [x.1]], parsed + [x])
  {
    GroupSnoc(parsed, x);
  }

  /** The reading loop shared by `load_snps` and `load_tsss`: each line read
    * with `parse` into a chromosome and an entry, appended to that
    * chromosome's list; the first line that fails to read ends the load. */
  method GroupLines<P>(lines: seq<string>, parse: string -> Result<(string, Entry<P>)>)
    returns (r: Result<map<string, seq<Entry<P>>>>)
    ensures ParseEach(lines, parse).Err? ==> r == Err(ParseEach(lines, parse).fault)
    ensures ParseEach(lines, parse).Ok? ==> r.Ok? && Grouped(r.value, ParseEach(lines, parse).value)
  {
    var groups: map<string, seq<Entry<P>>> := map[];
    ghost var parsed: seq<(string, Entry<P>)> := [];
    var i := 0;
    while i < |lines|
      invariant 0 <= i <= |lines|
      invariant ParseEach(lines[..i], parse) == Ok(parsed)
      invariant Grouped(groups, parsed)
    {
      var p := parse(lines[i]);
      ParseEachSnoc(lines, i, parse);
      if p.Err? {
        ParseEachErrPersists(lines, i + 1, parse);
        return Err(p.fault);
      }
      var (chrom, entry) := p.value;
      GroupedSnoc(groups, parsed, (chrom, entry));
      ghost var next := groups[chrom := (if chrom in groups then groups[chrom] else []) + [entry]];
      parsed := parsed + [(chrom, entry)];
      if chrom !in groups {
        groups := groups[chrom := []];
      }
      groups := groups[chrom := groups[chrom] + [entry]];
      assert groups == next;
      i := i + 1;
    }
    assert lines[..i] == lines;
    return Ok(groups);
  }

  /** `load_snps` without its cache: a map from chromosome (leading "chr"
    * dropped) to that chromosome's `(pos, rsid)` tuples, sorted. */
  method LoadSnps(lines: seq<string>) returns (r: Result<map<string, seq<Entry<string>>>>)
    ensures ParseEach(lines, ParseSnpLine).Err? ==> r == Err(ParseEach(lines, ParseSnpLine).fault)
    ensures ParseEach(lines, ParseSnpLine).Ok? ==>
              var parsed := ParseEach(lines, ParseSnpLine).value;
              r.Ok? && r.value.Keys == Chroms(parsed)
              && forall c :: c in r.value ==>
                   SortedBy(r.value[c], RsidLe) && multiset(r.value[c]) == multiset(On(parsed, c))
  {
    RsidLeTotalPreorder();
    var groups := GroupLines(lines, ParseSnpLine);
    if groups.Err? {
      return Err(groups.fault);
    }
    var sorted := SortGroups(groups.value, RsidLe);
    return Ok(sorted);
  }

  /** A non-empty list for `c` means `c` occurs. */
  lemma {:induction false} OnWitness<P>(parsed: seq<(string, Entry<P>)>, c: string)
    requires On(parsed, c) != []
    ensures c in Chroms(parsed)
    decreases |parsed|
  {
    var last := parsed[|parsed| - 1];
    if last.0 != c {
      OnWitness(parsed[..|parsed| - 1], c);
      var k :| 0 <= k < |parsed| - 1 && parsed[..|parsed| - 1][k].0 == c;
      assert parsed[k].0 == c;
    }
  }

  /** `for chrom in d: d[chrom] = sorted(d[chrom])`. */
  method SortGroups<P(!new)>(groups: map<string, seq<Entry<P>>>, le: (P, P) -> bool)
    returns (sorted: map<string, seq<Entry<P>>>)
    requires TotalPreorder(le)
    ensures sorted.Keys == groups.Keys
    ensures forall c :: c in sorted ==> SortedBy(sorted[c], le) && multiset(sorted[c]) == multiset(groups[c])
  {
    sorted := groups;
    var todo := groups.Keys;
    while todo != {}
      invariant todo <= groups.Keys && sorted.Keys == groups.Keys
      invariant forall c :: c in groups && c !in todo ==>
                  SortedBy(sorted[c], le) && multiset(sorted[c]) == multiset(groups[c])
      invariant forall c :: c in todo ==> sorted[c] == groups[c]
      decreases todo
    {
      var c :| c in todo;
      sorted := sorted[c := Sort(sorted[c], le)];
      todo := todo - {c};
    }
  }

  // ---------------------------------------------------------------------------
  // The script: closest variant to each peak's middle, drawn without replacement

  /** A peak line: chromosome (one leading "chr" dropped), start and end. */
  function ParseRegion(line: string): Result<(string, int, int)> {
    var fields := Split(RStrip(line), '\t');
    if |fields| < 2 then Err(IndexError)
    else match ParseInt(fields[1])
      case None => Err(ValueError(fields[1]))
      case Some(start) =>
        if |fields| < 3 then Err(IndexError)
        else match ParseInt(fields[2])
          case None => Err(ValueError(fields[2]))
          case Some(end) => Ok((DropPrefix(fields[0], "chr"), start, end))
  }

  /** `(start + end) / 2`, true division. */
  function Middle(start: int, end: int): real {
    (start + end) as real / 2.0
  }

  /** A variant is reported when it lies inside the peak or within 200 bases
    * of the peak's middle. */
  predicate InWindow(start: int, end: int, pos: int) {
    (start <= pos <= end) || Dist(Middle(start, end), pos) <= 200.0
  }

  predicate AllSorted<P>(table: map<string, seq<Entry<P>>>) {
    forall c :: c in table ==> SortedByPos(table[c])
  }

  /** Dropping one element keeps the rest of the multiset. */
  lemma DropCounts<P>(s: seq<Entry<P>>, i: nat)
    requires i < |s|
    ensures multiset(s[..i] + s[i + 1..]) + multiset{s[i]} == multiset(s)
  {
    assert s == s[..i] + [s[i]] + s[i + 1..];
  }

  /** Dropping one element keeps a list sorted. */
  lemma DropSorted<P>(s: seq<Entry<P>>, i: nat)
    requires i < |s|
    ensures SortedByPos(s) ==> SortedByPos(s[..i] + s[i + 1..])
  {
    var r := s[..i] + s[i + 1..];
    forall a, b | SortedByPos(s) && 0 <= a < b < |r| ensures r[a].0 <= r[b].0 {
      var sa := if a < i then a else a + 1;
      var sb := if b < i then b else b + 1;
      assert r[a] == s[sa] && r[b] == s[sb];
    }
  }

  /** `list.pop(i)`: the list without its `i`-th element. */
  function RemoveAt<P>(s: seq<Entry<P>>, i: nat): (r: seq<Entry<P>>)
    requires i < |s|
    ensures |r| == |s| - 1
    ensures forall k :: 0 <= k < i ==> r[k] == s[k]
    ensures forall k :: i <= k < |r| ==> r[k] == s[k + 1]
    ensures multiset(r) + multiset{s[i]} == multiset(s)
    ensures SortedByPos(s) ==> SortedByPos(r)
  {
    DropCounts(s, i);
    DropSorted(s, i);
    s[..i] + s[i + 1..]
  }

  /** What one peak line does: the variant taken (if any) and the new table. */
  datatype Draw = Draw(taken: Option<(string, Entry<string>)>, table: map<string, seq<Entry<string>>>)

  /** One iteration of the script's loop: the peak's middle is looked up on
    * its chromosome; the closest variant is taken (and removed from the
    * table) only when it lies in the peak's window. */
  function DrawOne(table: map<string, seq<Entry<string>>>, line: string): (r: Result<Draw>)
    requires AllSorted(table)
    ensures r.Ok? ==> r.value.table.Keys == table.Keys && AllSorted(r.value.table)
  {
    var (chrom, start, end) :- ParseRegion(line);
    if chrom !in table then Err(KeyError(chrom))
    else
      var s := table[chrom];
      var h := Search(Middle(start, end), s);
      if h.closest.None? then Err(AssertionError)
      else if InWindow(start, end, s[h.index].0) then
        Ok(Draw(Some((chrom, s[h.index])), table[chrom := RemoveAt(s, h.index)]))
      else
        Ok(Draw(None, table))
  }

  /** A line fails exactly when its fields do not parse, its chromosome has
    * no list, or that list is empty; a variant taken lies in the peak's
    * window and leaves its own chromosome's list, and nothing else changes. */
  lemma DrawOneFacts(table: map<string, seq<Entry<string>>>, line: string)
    requires AllSorted(table)
    ensures var r := DrawOne(table, line);
            r.Ok? <==> (ParseRegion(line).Ok? && ParseRegion(line).value.0 in table
                        && table[ParseRegion(line).value.0] != [])
    ensures var r := DrawOne(table, line);
            r.Ok? && r.value.taken.None? ==> r.value.table == table
    ensures var r := DrawOne(table, line);
            r.Ok? && r.value.taken.Some? ==>
              var (c, e) := r.value.taken.value;
              var (chrom, start, end) := ParseRegion(line).value;
              && c == chrom
              && InWindow(start, end, e.0)
              && (forall d :: d in table && d != c ==> r.value.table[d] == table[d])
              && multiset(r.value.table[c]) + multiset{e} == multiset(table[c])
    ensures var r := DrawOne(table, line);
            r.Ok? ==>
              var (chrom, start, end) := ParseRegion(line).value;
              var s := table[chrom];
              var h := Search(Middle(start, end), s);
              && (r.value.taken.Some? <==> InWindow(start, end, s[h.index].0))
              && (r.value.taken.Some? ==>
                    r.value.taken == Some((chrom, s[h.index]))
                    && r.value.table == table[chrom := RemoveAt(s, h.index)])
  {
  }

  /** The variants one line takes: none or one. */
  function TakenBy(d: Draw): seq<(string, Entry<string>)> {
    if d.taken.Some? then [d.taken.value] else []
  }

  /** Variants taken earlier, ahead of what a later run of lines yields. */
  function Prepend(taken: seq<(string, Entry<string>)>,
                   r: Result<(seq<(string, Entry<string>)>, map<string, seq<Entry<string>>>)>)
    : Result<(seq<(string, Entry<string>)>, map<string, seq<Entry<string>>>)>
  {
    match r
    case Err(f) => Err(f)
    case Ok((later, table)) => Ok((taken + later, table))
  }

  lemma PrependPrepend(a: seq<(string, Entry<string>)>, b: seq<(string, Entry<string>)>,
                       r: Result<(seq<(string, Entry<string>)>, map<string, seq<Entry<string>>>)>)
    ensures Prepend(a, Prepend(b, r)) == Prepend(a + b, r)
  {
    if r.Ok? {
      assert a + (b + r.value.0) == (a + b) + r.value.0;
    }
  }

  lemma PrependNil(r: Result<(seq<(string, Entry<string>)>, map<string, seq<Entry<string>>>)>)
    ensures Prepend([], r) == r
  {
    if r.Ok? {
      assert [] + r.value.0 == r.value.0;
    }
  }

  /** The loop over peak lines: the variants taken, in order, and the table
    * left afterwards. */
  function DrawAll(table: map<string, seq<Entry<string>>>, lines: seq<string>)
    : (r: Result<(seq<(string, Entry<string>)>, map<string, seq<Entry<string>>>)>)
    requires AllSorted(table)
    decreases |lines|
  {
    if lines == [] then Ok(([], table))
    else
      var d :- DrawOne(table, lines[0]);
      Prepend(TakenBy(d), DrawAll(d.table, lines[1..]))
  }

  /** The rsids printed for the variants taken. */
  function Rsids(taken: seq<(string, Entry<string>)>): (out: seq<string>)
    ensures |out| == |taken|
    ensures forall k :: 0 <= k < |taken| ==> out[k] == taken[k].1.1
  {
    if taken == [] then [] else [taken[0].1.1] + Rsids(taken[1..])
  }

  lemma RsidsSnoc(taken: seq<(string, Entry<string>)>, x: (string, Entry<string>))
    ensures Rsids(taken + [x]) == Rsids(taken) + [x.1.1]
  {
  }

  /** The `__main__` loop of the script over a loaded table: the rsids it
    * prints and the table left afterwards. */
  method DrawSnps(table0: map<string, seq<Entry<string>>>, lines: seq<string>)
    returns (r: Result<(seq<string>, map<string, seq<Entry<string>>>)>)
    requires AllSorted(table0)
    ensures DrawAll(table0, lines).Err? ==> r == Err(DrawAll(table0, lines).fault)
    ensures DrawAll(table0, lines).Ok? ==>
              var (taken, table) := DrawAll(table0, lines).value;
              r == Ok((Rsids(taken), table))
  {
    var table := table0;
    ghost var taken: seq<(string, Entry<string>)> := [];
    var printed: seq<string> := [];
    var i := 0;
    assert lines[i..] == lines;
    PrependNil(DrawAll(table0, lines));
    while i < |lines|
      invariant 0 <= i <= |lines| && AllSorted(table)
      invariant Prepend(taken, DrawAll(table, lines[i..])) == DrawAll(table0, lines)
      invariant printed == Rsids(taken)
    {
      ghost var rest := lines[i..];
      ghost var old_taken := taken;
      assert rest[0] == lines[i] && rest[1..] == lines[i + 1..];
      var region := ParseRegion(lines[i]);
      if region.Err? {
        assert DrawAll(table, rest) == Err(region.fault);
        return Err(region.fault);
      }
      var (chrom, start, end) := region.value;
      if chrom !in table {
        assert DrawAll(table, rest) == Err(KeyError(chrom));
        return Err(KeyError(chrom));
      }
      var middle := Middle(start, end);
      var h := Search(middle, table[chrom]);
      if h.closest.None? {
        assert DrawAll(table, rest) == Err(AssertionError);
        return Err(AssertionError);
      }
      var closest := h.closest.value;
      ghost var d := DrawOne(table, lines[i]).value;
      ghost var next := DrawAll(d.table, lines[i + 1..]);
      assert DrawAll(table, rest) == Prepend(TakenBy(d), next);
      PrependPrepend(taken, TakenBy(d), next);
      assert Prepend(taken + TakenBy(d), next) == DrawAll(table0, lines);
      if InWindow(start, end, closest.0) {
        assert d == Draw(Some((chrom, closest)), table[chrom := RemoveAt(table[chrom], h.index)]);
        printed := printed + [closest.1];
        RsidsSnoc(taken, (chrom, closest));
        taken := taken + [(chrom, closest)];
        table := table[chrom := RemoveAt(table[chrom], h.index)];
      } else {
        assert d == Draw(None, table);
        assert taken + TakenBy(d) == taken;
      }
      assert taken == old_taken + TakenBy(d) && table == d.table;
      assert Prepend(taken, DrawAll(table, lines[i + 1..])) == DrawAll(table0, lines);
      i := i + 1;
    }
    assert DrawAll(table, lines[i..]) == Ok(([], table));
    assert taken + [] == taken;
    return Ok((printed, table));
  }

  lemma {:induction false} OnAppend<P>(a: seq<(string, Entry<P>)>, b: seq<(string, Entry<P>)>, c: string)
    ensures On(a + b, c) == On(a, c) + On(b, c)
    decreases |b|
  {
    if b == [] {
      assert a + b == a;
    } else {
      var b' := b[..|b| - 1];
      var last := b[|b| - 1];
      OnAppend(a, b', c);
      var x := if last.0 == c then [last.1] else [];
      assert On(b, c) == On(b', c) + x;
      assert On(a + b, c) == On(a + b', c) + x by {
        assert (a + b)[..|a + b| - 1] == a + b' && (a + b)[|a + b| - 1] == last;
      }
      assert On(a, c) + On(b', c) + x == On(a, c) + (On(b', c) + x);
    }
  }

  /** A draw that leaves the table alone or moves one variant out of it. */
  predicate Drawn(table: map<string, seq<Entry<string>>>, d: Draw) {
    && d.table.Keys == table.Keys
    && (d.taken.None? ==> d.table == table)
    && (d.taken.Some? ==>
          var (c, e) := d.taken.value;
          && c in table
          && (forall x :: x in table && x != c ==> d.table[x] == table[x])
          && multiset(d.table[c]) + multiset{e} == multiset(table[c]))
  }

  lemma DrawnConserves(table: map<string, seq<Entry<string>>>, d: Draw, c: string)
    requires Drawn(table, d) && c in table
    ensures multiset(table[c]) == multiset(d.table[c]) + multiset(On(TakenBy(d), c))
  {
    if d.taken.Some? {
      assert On(TakenBy(d), c) == On([], c) + (if d.taken.value.0 == c then [d.taken.value.1] else []);
    }
  }

  /** One line's share of the bookkeeping on chromosome `c`. */
  lemma DrawOneConserves(table: map<string, seq<Entry<string>>>, line: string, c: string)
    requires AllSorted(table) && DrawOne(table, line).Ok? && c in table
    ensures var d := DrawOne(table, line).value;
            multiset(table[c]) == multiset(d.table[c]) + multiset(On(TakenBy(d), c))
  {
    DrawOneFacts(table, line);
    DrawnConserves(table, DrawOne(table, line).value, c);
  }

  /** Draw without replacement: on every chromosome, the variants of the
    * starting table are those left in the final table plus those taken,
    * each exactly once; the final lists stay sorted. */
  lemma {:induction false} DrawConserves(table: map<string, seq<Entry<string>>>, lines: seq<string>)
    requires AllSorted(table)
    requires DrawAll(table, lines).Ok?
    ensures DrawAll(table, lines).value.1.Keys == table.Keys
    ensures AllSorted(DrawAll(table, lines).value.1)
    ensures forall c :: c in table ==>
              multiset(table[c]) == multiset(DrawAll(table, lines).value.1[c])
                                    + multiset(On(DrawAll(table, lines).value.0, c))
    decreases |lines|
  {
    if lines != [] {
      var d := DrawOne(table, lines[0]).value;
      DrawConserves(d.table, lines[1..]);
      var later := DrawAll(d.table, lines[1..]).value.0;
      var final := DrawAll(d.table, lines[1..]).value.1;
      assert DrawAll(table, lines) == Ok((TakenBy(d) + later, final));
      forall c | c in table
        ensures multiset(table[c]) == multiset(final[c]) + multiset(On(TakenBy(d) + later, c))
      {
        OnAppend(TakenBy(d), later, c);
        DrawOneConserves(table, lines[0], c);
      }
    }
  }
}
