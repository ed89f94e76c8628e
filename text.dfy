/**
 * The handful of Python string operations the scripts rely on, written out
 * over `string` (a sequence of code points): `split(sep)`, `split()`,
 * `join`, `strip`/`rstrip`, `startswith`, `in`, `replace(w, '')`, `int()`,
 * `str()` of an integer, and the code-point ordering `sorted` uses.
 */
module Text {
  import opened Wrappers

  /** Python's `str.isspace()` for a single character. */
  predicate IsSpace(c: char) {
    var n := c as int;
    n == 0x20 || 0x09 <= n <= 0x0D || 0x1C <= n <= 0x1F || n == 0x85 || n == 0xA0
    || n == 0x1680 || 0x2000 <= n <= 0x200A || n == 0x2028 || n == 0x2029
    || n == 0x202F || n == 0x205F || n == 0x3000
  }

  // ---------------------------------------------------------------------------
  // split(sep) and join

  /** `s.split(sep)` for a one-character separator: every piece between two
    * separators, empty pieces included; never an empty list. */
  function Split(s: string, sep: char): (parts: seq<string>)
    ensures |parts| >= 1
    ensures forall k :: 0 <= k < |parts| ==> sep !in parts[k]
    decreases |s|
  {
    if s == [] then [[]]
    else
      var rest := Split(s[1..], sep);
      if s[0] == sep then [[]] + rest
      else [[s[0]] + rest[0]] + rest[1..]
  }

  /** `sep.join(parts)`. */
  function Join(parts: seq<string>, sep: char): string
    decreases |parts|
  {
    if |parts| == 0 then []
    else if |parts| == 1 then parts[0]
    else parts[0] + [sep] + Join(parts[1..], sep)
  }

  /** A character in none of the parts, other than the separator, is not in
    * their join. */
  lemma {:induction false} JoinAvoids(parts: seq<string>, sep: char, c: char)
    requires c != sep && forall k :: 0 <= k < |parts| ==> c !in parts[k]
    ensures c !in Join(parts, sep)
    decreases |parts|
  {
    if |parts| > 1 {
      JoinAvoids(parts[1..], sep, c);
    }
  }

  /** Joining two non-empty lists is joining each and putting a separator
    * between them. */
  lemma {:induction false} JoinAppend(a: seq<string>, b: seq<string>, sep: char)
    requires |a| >= 1 && |b| >= 1
    ensures Join(a + b, sep) == Join(a, sep) + [sep] + Join(b, sep)
    decreases |a|
  {
    if |a| > 1 {
      JoinAppend(a[1..], b, sep);
      assert (a + b)[1..] == a[1..] + b;
    } else {
      assert (a + b)[1..] == b;
    }
  }

  /** The last character of a join is that of its last part. */
  lemma {:induction false} JoinLast(parts: seq<string>, sep: char)
    requires |parts| >= 1 && parts[|parts| - 1] != []
    ensures var j := Join(parts, sep); j != [] && j[|j| - 1] == parts[|parts| - 1][|parts[|parts| - 1]| - 1]
    decreases |parts|
  {
    if |parts| > 1 {
      JoinLast(parts[1..], sep);
    }
  }

  /** Splitting text without the separator gives the text back as the only piece. */
  lemma {:induction false} SplitNoSep(s: string, sep: char)
    requires sep !in s
    ensures Split(s, sep) == [s]
    decreases |s|
  {
    if s != [] {
      assert s[0] in s;
      assert sep !in s[1..] by {
        forall x | x in s[1..] ensures x != sep {
          assert x in s;
        }
      }
      SplitNoSep(s[1..], sep);
      assert [s[0]] + s[1..] == s;
    }
  }

  /** A piece followed by the separator splits off as the first piece. */
  lemma {:induction false} SplitCons(p: string, sep: char, t: string)
    requires sep !in p
    ensures Split(p + [sep] + t, sep) == [p] + Split(t, sep)
    decreases |p|
  {
    if p == [] {
      assert p + [sep] + t == [sep] + t;
      assert ([sep] + t)[1..] == t;
    } else {
      SplitCons(p[1..], sep, t);
      assert (p + [sep] + t)[1..] == p[1..] + [sep] + t;
      assert [p[0]] + p[1..] == p;
    }
  }

  /** split inverts join when no piece holds the separator. */
  lemma {:induction false} SplitJoin(parts: seq<string>, sep: char)
    requires |parts| >= 1
    requires forall k :: 0 <= k < |parts| ==> sep !in parts[k]
    ensures Split(Join(parts, sep), sep) == parts
    decreases |parts|
  {
    if |parts| == 1 {
      SplitNoSep(parts[0], sep);
    } else {
      SplitJoin(parts[1..], sep);
      SplitCons(parts[0], sep, Join(parts[1..], sep));
      assert [parts[0]] + parts[1..] == parts;
    }
  }

  /** join inverts split: no character is lost or added. */
  lemma {:induction false} JoinSplit(s: string, sep: char)
    ensures Join(Split(s, sep), sep) == s
    decreases |s|
  {
    if s != [] {
      var rest := Split(s[1..], sep);
      JoinSplit(s[1..], sep);
      if s[0] == sep {
        assert ([[]] + rest)[1..] == rest;
      } else if |rest| > 1 {
        var parts := [[s[0]] + rest[0]] + rest[1..];
        assert parts[1..] == rest[1..];
        assert Join(rest, sep) == rest[0] + [sep] + Join(rest[1..], sep);
      }
    }
  }

  /** The first piece of `s.split(sep)`, as `s.split(sep)[0]` gives it: the
    * text before the first separator, or all of it when there is none. */
  function Head(s: string, sep: char): (h: string)
    ensures h <= s && sep !in h
    ensures h == s || s[|h|] == sep
  {
    SplitHeadFacts(s, sep);
    Split(s, sep)[0]
  }

  lemma {:induction false} SplitHeadFacts(s: string, sep: char)
    ensures Split(s, sep)[0] <= s && sep !in Split(s, sep)[0]
    ensures Split(s, sep)[0] == s || s[|Split(s, sep)[0]|] == sep
    decreases |s|
  {
    if s != [] && s[0] != sep {
      SplitHeadFacts(s[1..], sep);
    }
  }

  // ---------------------------------------------------------------------------
  // split() on whitespace

  /** A token of `str.split()`: non-empty and free of whitespace. */
  predicate IsWord(w: string) {
    w != [] && forall c :: c in w ==> !IsSpace(c)
  }

  /** `s.split()`: the maximal runs of non-whitespace characters, in order. */
  function Words(s: string): (ws: seq<string>)
    ensures forall k :: 0 <= k < |ws| ==> IsWord(ws[k])
    ensures s != [] && !IsSpace(s[0]) ==> |ws| > 0
    decreases |s|
  {
    if s == [] then []
    else
      var rest := Words(s[1..]);
      if IsSpace(s[0]) then rest
      else if |s| > 1 && !IsSpace(s[1]) then [[s[0]] + rest[0]] + rest[1..]
      else [[s[0]]] + rest
  }

  /** A word followed by a whitespace character is split off whole. */
  lemma {:induction false} WordsCons(w: string, c: char, t: string)
    requires IsWord(w) && IsSpace(c)
    ensures Words(w + [c] + t) == [w] + Words(t)
    decreases |w|
  {
    var s := w + [c] + t;
    assert s[1..] == w[1..] + [c] + t;
    if |w| == 1 {
      assert w[1..] + [c] + t == [c] + t;
      assert ([c] + t)[1..] == t;
      assert [s[0]] == w;
    } else {
      assert IsWord(w[1..]) by {
        forall x | x in w[1..] ensures !IsSpace(x) {
          assert x in w;
        }
      }
      WordsCons(w[1..], c, t);
      assert s[1] == w[1];
      assert [s[0]] + w[1..] == w;
    }
  }

  lemma {:induction false} WordsSingle(w: string)
    requires IsWord(w)
    ensures Words(w) == [w]
    decreases |w|
  {
    assert w[0] in w;
    if |w| == 1 {
      assert [w[0]] == w;
    } else {
      assert w[1] in w;
      assert IsWord(w[1..]) by {
        forall x | x in w[1..] ensures !IsSpace(x) {
          assert x in w;
        }
      }
      WordsSingle(w[1..]);
      assert [w[0]] + w[1..] == w;
    }
  }

  /** `split()` reads back words that were joined by a whitespace character. */
  lemma {:induction false} WordsJoin(ws: seq<string>, c: char)
    requires IsSpace(c)
    requires forall k :: 0 <= k < |ws| ==> IsWord(ws[k])
    ensures Words(Join(ws, c)) == ws
    decreases |ws|
  {
    if |ws| == 1 {
      WordsSingle(ws[0]);
    } else if |ws| > 1 {
      WordsJoin(ws[1..], c);
      WordsCons(ws[0], c, Join(ws[1..], c));
      assert [ws[0]] + ws[1..] == ws;
    }
  }

  // ---------------------------------------------------------------------------
  // strip

  /** `s.rstrip(chars)`: drop trailing characters that `drop` selects. */
  function TrimEnd(s: string, drop: char -> bool): (r: string)
    ensures r <= s
    ensures r == [] || !drop(r[|r| - 1])
    ensures forall k :: |r| <= k < |s| ==> drop(s[k])
    decreases |s|
  {
    if s != [] && drop(s[|s| - 1]) then TrimEnd(s[..|s| - 1], drop) else s
  }

  /** `s.lstrip(chars)`: drop leading characters that `drop` selects. */
  function TrimStart(s: string, drop: char -> bool): (r: string)
    ensures |r| <= |s|
    ensures r == [] || !drop(r[0])
    decreases |s|
  {
    if s != [] && drop(s[0]) then TrimStart(s[1..], drop) else s
  }

  /** `s.rstrip()`. */
  function RStrip(s: string): string {
    TrimEnd(s, IsSpace)
  }

  /** `s.strip()`. */
  function Strip(s: string): string {
    TrimStart(TrimEnd(s, IsSpace), IsSpace)
  }

  /** `s.strip(c)` for a single character `c`. */
  function StripChar(s: string, c: char): string {
    TrimStart(TrimEnd(s, x => x == c), x => x == c)
  }

  /** rstrip leaves text alone when it does not end in a dropped character. */
  lemma TrimEndKeeps(s: string, drop: char -> bool)
    requires s == [] || !drop(s[|s| - 1])
    ensures TrimEnd(s, drop) == s
  {
  }

  /** lstrip leaves text alone when it does not start with a dropped character. */
  lemma TrimStartKeeps(s: string, drop: char -> bool)
    requires s == [] || !drop(s[0])
    ensures TrimStart(s, drop) == s
  {
  }

  /** strip removes exactly one leading blank from text that has none at
    * either end. */
  lemma StripLeadingBlank(s: string)
    requires s != [] && !IsSpace(s[0]) && !IsSpace(s[|s| - 1])
    ensures Strip(s) == s && Strip([' '] + s) == s
  {
    var t := [' '] + s;
    assert t[|t| - 1] == s[|s| - 1];
    TrimEndKeeps(t, IsSpace);
    TrimEndKeeps(s, IsSpace);
    assert t[1..] == s;
    TrimStartKeeps(s, IsSpace);
  }

  /** `('"' + v + '"').strip('"') == v` when `v` holds no quote. */
  lemma StripCharQuoted(v: string, c: char)
    requires c !in v
    ensures StripChar([c] + v + [c], c) == v
  {
    var q := [c] + v + [c];
    assert q[..|q| - 1] == [c] + v;
    if v == [] {
      assert TrimEnd([c], x => x == c) == [];
    } else {
      assert v[|v| - 1] in v;
      assert ([c] + v)[|[c] + v| - 1] == v[|v| - 1];
      assert TrimEnd([c] + v, x => x == c) == [c] + v;
      assert v[0] in v;
      assert ([c] + v)[1..] == v;
      assert TrimStart(v, x => x == c) == v;
    }
  }

  // ---------------------------------------------------------------------------
  // startswith, in, replace

  predicate StartsWith(s: string, p: string) {
    |p| <= |s| && s[..|p|] == p
  }

  /** `w in s` for strings: `w` occurs in `s` as a contiguous piece. */
  predicate Contains(s: string, w: string)
    decreases |s|
  {
    StartsWith(s, w) || (s != [] && Contains(s[1..], w))
  }

  /** A one-character piece occurs exactly when the character does. */
  lemma {:induction false} ContainsChar(s: string, c: char)
    ensures Contains(s, [c]) <==> c in s
    decreases |s|
  {
    if s != [] {
      ContainsChar(s[1..], c);
      assert s == [s[0]] + s[1..];
    }
  }

  /** `s[len(p):] if s.startswith(p) else s`. */
  function DropPrefix(s: string, p: string): (r: string)
    ensures StartsWith(s, p) ==> s == p + r
    ensures !StartsWith(s, p) ==> r == s
  {
    if StartsWith(s, p) then s[|p|..] else s
  }

  /** `s.replace(w, '')`: remove the non-overlapping occurrences of `w` found
    * scanning from the left; text brought together by a removal is not
    * scanned again. */
  function RemoveAll(s: string, w: string): (r: string)
    requires w != []
    ensures |r| <= |s|
    decreases |s|
  {
    if StartsWith(s, w) then RemoveAll(s[|w|..], w)
    else if s == [] then []
    else [s[0]] + RemoveAll(s[1..], w)
  }

  /** Text without an occurrence of `w` comes back unchanged. */
  lemma {:induction false} RemoveAllAbsent(s: string, w: string)
    requires w != [] && !Contains(s, w)
    ensures RemoveAll(s, w) == s
    decreases |s|
  {
    if s != [] {
      RemoveAllAbsent(s[1..], w);
      assert [s[0]] + s[1..] == s;
    }
  }

  /** Removal does not reach a fixed point in one pass: "cchrhr" loses its
    * inner "chr" and the two halves form a new one. */
  lemma RemoveAllNotIdempotent()
    ensures RemoveAll("cchrhr", "chr") == "chr"
  {
    assert !StartsWith("cchrhr", "chr");
    assert "cchrhr"[1..] == "chrhr";
    assert StartsWith("chrhr", "chr");
    assert "chrhr"[3..] == "hr";
    assert !StartsWith("hr", "chr") && "hr"[1..] == "r";
    assert !StartsWith("r", "chr") && "r"[1..] == "";
  }

  // ---------------------------------------------------------------------------
  // int() and str() of integers

  predicate IsDigit(c: char) {
    '0' <= c <= '9'
  }

  predicate AllDigits(s: string) {
    forall c :: c in s ==> IsDigit(c)
  }

  function DigitChar(d: nat): (c: char)
    requires d < 10
    ensures IsDigit(c) && c as int - '0' as int == d
  {
    ('0' as int + d) as char
  }

  /** The value of a non-empty run of decimal digits (leading zeros allowed). */
  function DigitsValue(s: string): nat
    requires |s| > 0 && AllDigits(s)
    decreases |s|
  {
    assert s[|s| - 1] in s;
    var last := (s[|s| - 1] as int - '0' as int) as nat;
    if |s| == 1 then last
    else
      assert AllDigits(s[..|s| - 1]) by {
        forall c | c in s[..|s| - 1] ensures IsDigit(c) {
          assert c in s;
        }
      }
      DigitsValue(s[..|s| - 1]) * 10 + last
  }

  /** `int(s)` for text that is an optional sign followed by decimal digits;
    * `None` where Python raises ValueError. */
  function ParseInt(s: string): Option<int> {
    if s != [] && (s[0] == '-' || s[0] == '+') then
      var digits := s[1..];
      if digits != [] && AllDigits(digits) then
        var v: int := DigitsValue(digits);
        Some(if s[0] == '-' then -v else v)
      else None
    else if s != [] && AllDigits(s) then Some(DigitsValue(s))
    else None
  }

  /** `str(n)` for a natural number. */
  function ShowNat(n: nat): (s: string)
    ensures |s| > 0 && AllDigits(s)
    decreases n
  {
    if n < 10 then [DigitChar(n)] else ShowNat(n / 10) + [DigitChar(n % 10)]
  }

  /** `str(n)` for an integer. */
  function ShowInt(n: int): (s: string)
    ensures IsWord(s)
    ensures n >= 0 ==> AllDigits(s)
  {
    var s := if n < 0 then "-" + ShowNat(-n) else ShowNat(n);
    assert forall c :: c in s ==> c == '-' || IsDigit(c);
    s
  }

  lemma {:induction false} DigitsShowNat(n: nat)
    ensures DigitsValue(ShowNat(n)) == n
    decreases n
  {
    if n >= 10 {
      DigitsShowNat(n / 10);
      var s := ShowNat(n);
      assert s[..|s| - 1] == ShowNat(n / 10);
    }
  }

  /** `int(str(n)) == n`. */
  lemma ParseShowInt(n: int)
    ensures ParseInt(ShowInt(n)) == Some(n)
  {
    if n < 0 {
      DigitsShowNat(-n);
      assert ShowInt(n)[1..] == ShowNat(-n);
    } else {
      DigitsShowNat(n);
      assert ShowNat(n)[0] in ShowNat(n);
    }
  }

  // float() of decimal text

  function Pow10(n: nat): (p: nat)
    ensures p >= 1
  {
    if n == 0 then 1 else 10 * Pow10(n - 1)
  }

  /** The value of a possibly empty run of digits. */
  function DigitsValueOrZero(s: string): nat
    requires AllDigits(s)
  {
    if s == [] then 0 else DigitsValue(s)
  }

  /** The value of the digits `whole` followed by a point and the digits
    * `frac`. */
  function DecimalValue(whole: string, frac: string): real
    requires AllDigits(whole) && AllDigits(frac)
  {
    DigitsValueOrZero(whole) as real + DigitsValueOrZero(frac) as real / Pow10(|frac|) as real
  }

  /** `float(s)` for the decimal forms an optional sign followed by digits,
    * a point and digits, where either run of digits may be empty but not
    * both; `None` where Python raises ValueError. */
  function ParseFloat(s: string): Option<real> {
    var signed := s != [] && (s[0] == '-' || s[0] == '+');
    var body := if signed then s[1..] else s;
    var whole := Head(body, '.');
    var frac := if whole == body then [] else body[|whole| + 1..];
    if AllDigits(whole) && AllDigits(frac) && (whole != [] || frac != []) then
      var v := DecimalValue(whole, frac);
      Some(if signed && s[0] == '-' then -v else v)
    else None
  }

  /** A non-empty run of digits is read as its value. */
  lemma ParseFloatNat(d: string)
    requires d != [] && AllDigits(d)
    ensures ParseFloat(d) == Some(DigitsValue(d) as real)
  {
    assert d[0] in d;
    assert Head(d, '.') == d by {
      SplitNoSep(d, '.');
    }
    assert DecimalValue(d, []) == DigitsValue(d) as real;
  }

  /** A minus sign in front of unsigned text float() accepts negates its
    * value. */
  lemma ParseFloatMinus(s: string)
    requires s != [] && s[0] != '-' && s[0] != '+' && ParseFloat(s).Some?
    ensures ParseFloat(['-'] + s) == Some(-ParseFloat(s).value)
  {
    assert (['-'] + s)[1..] == s;
  }

  /** Digits, a point and digits are read as the whole part plus the
    * fraction over the power of ten of its length. */
  lemma ParseFloatPoint(w: string, f: string)
    requires AllDigits(w) && AllDigits(f) && (w != [] || f != [])
    ensures ParseFloat(w + "." + f) == Some(DecimalValue(w, f))
  {
    var s := w + "." + f;
    assert !(s != [] && (s[0] == '-' || s[0] == '+')) by {
      if w != [] {
        assert s[0] == w[0] && w[0] in w;
      } else {
        assert s[0] == '.';
      }
    }
    var whole := Head(s, '.');
    assert whole == w by {
      SplitCons(w, '.', f);
      assert s == w + ['.'] + f;
    }
    var frac := if whole == s then [] else s[|whole| + 1..];
    assert frac == f by {
      assert |s| == |w| + 1 + |f|;
      assert s[|w| + 1..] == f;
    }
  }

  /** Text that float() accepts is a sign, digits and a point, and ends in a
    * digit or the point. */
  lemma ParseFloatToken(s: string)
    requires ParseFloat(s).Some?
    ensures s != []
    ensures forall c :: c in s ==> IsDigit(c) || c == '.' || c == '-' || c == '+'
    ensures IsDigit(s[|s| - 1]) || s[|s| - 1] == '.'
  {
    var signed := s != [] && (s[0] == '-' || s[0] == '+');
    var body := if signed then s[1..] else s;
    var whole := Head(body, '.');
    var frac := if whole == body then [] else body[|whole| + 1..];
    assert AllDigits(whole) && AllDigits(frac) && (whole != [] || frac != []);
    DecimalToken(body, whole, frac);
    if signed {
      assert s == [s[0]] + body;
    }
  }

  lemma DecimalToken(body: string, whole: string, frac: string)
    requires whole == Head(body, '.')
    requires frac == if whole == body then [] else body[|whole| + 1..]
    requires AllDigits(whole) && AllDigits(frac) && (whole != [] || frac != [])
    ensures body != []
    ensures forall c :: c in body ==> IsDigit(c) || c == '.'
    ensures IsDigit(body[|body| - 1]) || body[|body| - 1] == '.'
  {
    if whole != body {
      assert body == whole + ['.'] + frac;
      if frac != [] {
        assert body[|body| - 1] == frac[|frac| - 1];
        assert frac[|frac| - 1] in frac;
      }
    } else {
      assert body[|body| - 1] in whole;
    }
  }

  /** Text that float() accepts holds no whitespace. */
  lemma ParseFloatNoSpace(s: string)
    requires ParseFloat(s).Some?
    ensures s != [] && forall c :: c in s ==> !IsSpace(c)
  {
    ParseFloatToken(s);
  }

  /** A fractional example: `float("2.50") == 2.5`. */
  lemma ParseFloatPointExample()
    ensures ParseFloat("2.50") == Some(2.5)
  {
    assert "2" + "." + "50" == "2.50";
    ParseFloatPoint("2", "50");
    assert DigitsValue("50") == 50 by {
      assert "50"[..1] == "5";
    }
  }

  /** A signed example: `float("-2.50") == -2.5`. */
  lemma ParseFloatExample()
    ensures ParseFloat("-2.50") == Some(-2.5)
  {
    assert ['-'] + "2.50" == "-2.50";
    ParseFloatPointExample();
    ParseFloatMinus("2.50");
  }

  // ---------------------------------------------------------------------------
  // ordering of strings, as Python compares them

  /** `a <= b` on strings: code point by code point, a proper prefix first. */
  predicate StrLe(a: string, b: string)
    decreases |a|
  {
    a == [] || (b != [] && (a[0] < b[0] || (a[0] == b[0] && StrLe(a[1..], b[1..]))))
  }

  /** `a < b` on strings. */
  predicate StrLt(a: string, b: string) {
    StrLe(a, b) && a != b
  }

  /** Any two strings are comparable. */
  lemma {:induction false} StrLeTotal(a: string, b: string)
    ensures StrLe(a, b) || StrLe(b, a)
    decreases |a|
  {
    if a != [] && b != [] && a[0] == b[0] {
      StrLeTotal(a[1..], b[1..]);
    }
  }

  /** Two strings each at most the other are equal. */
  lemma {:induction false} StrLeAntisymmetric(a: string, b: string)
    requires StrLe(a, b) && StrLe(b, a)
    ensures a == b
    decreases |a|
  {
    if a != [] {
      StrLeAntisymmetric(a[1..], b[1..]);
      assert a == [a[0]] + a[1..] && b == [b[0]] + b[1..];
    }
  }

  /** String order is reflexive. */
  lemma {:induction false} StrLeReflexive(a: string)
    ensures StrLe(a, a)
    decreases |a|
  {
    if a != [] {
      StrLeReflexive(a[1..]);
    }
  }

  /** String order is transitive. */
  lemma {:induction false} StrLeTransitive(a: string, b: string, c: string)
    requires StrLe(a, b) && StrLe(b, c)
    ensures StrLe(a, c)
    decreases |a|
  {
    if a != [] && a[0] == b[0] && b[0] == c[0] {
      StrLeTransitive(a[1..], b[1..], c[1..]);
    }
  }

  // ---------------------------------------------------------------------------
  // Indexing a list of fields

  /** `fields[k]`, raising IndexError past the end. */
  function Field(fields: seq<string>, k: nat): (r: Result<string>)
    ensures r.Ok? <==> k < |fields|
    ensures r.Ok? ==> r.value == fields[k]
  {
    if k < |fields| then Ok(fields[k]) else Err(IndexError)
  }

  /** `int(fields[k])`. */
  function IntField(fields: seq<string>, k: nat): (r: Result<int>)
    ensures r.Ok? <==> k < |fields| && ParseInt(fields[k]).Some?
    ensures r.Ok? ==> ParseInt(fields[k]) == Some(r.value)
  {
    var f :- Field(fields, k);
    match ParseInt(f)
    case None => Err(ValueError(f))
    case Some(n) => Ok(n)
  }

  /** `float(fields[k])`. */
  function FloatField(fields: seq<string>, k: nat): (r: Result<real>)
    ensures r.Ok? <==> k < |fields| && ParseFloat(fields[k]).Some?
    ensures r.Ok? ==> ParseFloat(fields[k]) == Some(r.value)
  {
    var f :- Field(fields, k);
    match ParseFloat(f)
    case None => Err(ValueError(f))
    case Some(x) => Ok(x)
  }

  /** `[float(t) for t in tokens]`: the values, or the ValueError of the
    * first token that is not a float. */
  function Floats(tokens: seq<string>): (r: Result<seq<real>>)
    ensures r.Ok? <==> forall i :: 0 <= i < |tokens| ==> ParseFloat(tokens[i]).Some?
    ensures r.Ok? ==> |r.value| == |tokens|
                      && forall i :: 0 <= i < |tokens| ==> ParseFloat(tokens[i]) == Some(r.value[i])
    ensures r.Err? ==> exists i :: 0 <= i < |tokens| && r == Err(ValueError(tokens[i]))
                                   && ParseFloat(tokens[i]).None?
                                   && forall j :: 0 <= j < i ==> ParseFloat(tokens[j]).Some?
    decreases |tokens|
  {
    if tokens == [] then Ok([])
    else
      match ParseFloat(tokens[0])
      case None => Err(ValueError(tokens[0]))
      case Some(x) =>
        var rest := Floats(tokens[1..]);
        assert forall i :: 1 <= i < |tokens| ==> tokens[i] == tokens[1..][i - 1];
        if rest.Err? then
          Err(rest.fault)
        else
          Ok([x] + rest.value)
  }

  // ---------------------------------------------------------------------------
  // Reading a file line by line

  /** Every line read by `parse`, or the exception of the first line that
    * fails. */
  function ParseEach<T>(lines: seq<string>, parse: string -> Result<T>): (r: Result<seq<T>>)
    ensures r.Ok? ==> |r.value| == |lines|
    decreases |lines|
  {
    if lines == [] then Ok([])
    else
      var init :- ParseEach(lines[..|lines| - 1], parse);
      var last :- parse(lines[|lines| - 1]);
      Ok(init + [last])
  }

  /** A successful read holds each line's value, in order. */
  lemma {:induction false} ParseEachOk<T>(lines: seq<string>, parse: string -> Result<T>)
    requires ParseEach(lines, parse).Ok?
    ensures forall k :: 0 <= k < |lines| ==> parse(lines[k]) == Ok(ParseEach(lines, parse).value[k])
    decreases |lines|
  {
    if lines != [] {
      ParseEachOk(lines[..|lines| - 1], parse);
    }
  }

  /** A failed read reports the exception of the first line that fails. */
  lemma {:induction false} ParseEachErr<T>(lines: seq<string>, parse: string -> Result<T>)
    requires ParseEach(lines, parse).Err?
    ensures exists k :: 0 <= k < |lines| && parse(lines[k]) == Err(ParseEach(lines, parse).fault)
                        && forall j :: 0 <= j < k ==> parse(lines[j]).Ok?
    decreases |lines|
  {
    var prefix := lines[..|lines| - 1];
    var init := ParseEach(prefix, parse);
    if init.Err? {
      ParseEachErr(prefix, parse);
      var k :| 0 <= k < |prefix| && parse(prefix[k]) == Err(init.fault)
               && forall j :: 0 <= j < k ==> parse(prefix[j]).Ok?;
      assert parse(lines[k]) == Err(init.fault);
      assert forall j :: 0 <= j < k ==> parse(lines[j]).Ok? by {
        forall j | 0 <= j < k ensures parse(lines[j]).Ok? {
          assert prefix[j] == lines[j];
        }
      }
    } else {
      ParseEachOk(prefix, parse);
      assert forall j :: 0 <= j < |prefix| ==> parse(lines[j]).Ok? by {
        forall j | 0 <= j < |prefix| ensures parse(lines[j]).Ok? {
          assert prefix[j] == lines[j];
        }
      }
    }
  }

  /** Lines that each read as the given value are read as those values. */
  lemma {:induction false} ParseEachAll<T>(lines: seq<string>, parse: string -> Result<T>, vals: seq<T>)
    requires |vals| == |lines|
    requires forall k :: 0 <= k < |lines| ==> parse(lines[k]) == Ok(vals[k])
    ensures ParseEach(lines, parse) == Ok(vals)
    decreases |lines|
  {
    if lines != [] {
      var n := |lines| - 1;
      ParseEachAll(lines[..n], parse, vals[..n]);
      assert vals[..n] + [vals[n]] == vals;
    }
  }

  /** One more line read. */
  lemma ParseEachSnoc<T>(lines: seq<string>, i: nat, parse: string -> Result<T>)
    requires i < |lines|
    ensures ParseEach(lines[..i + 1], parse) ==
              (match ParseEach(lines[..i], parse)
               case Err(f) => Err(f)
               case Ok(init) =>
                 match parse(lines[i])
                 case Err(f) => Err(f)
                 case Ok(last) => Ok(init + [last]))
  {
    assert lines[..i + 1][..i] == lines[..i];
  }

  /** One more line read successfully extends the values read. */
  lemma ParseEachStepOk<T>(lines: seq<string>, i: nat, parse: string -> Result<T>, acc: seq<T>, v: T)
    requires i < |lines| && ParseEach(lines[..i], parse) == Ok(acc) && parse(lines[i]) == Ok(v)
    ensures ParseEach(lines[..i + 1], parse) == Ok(acc + [v])
  {
    ParseEachSnoc(lines, i, parse);
  }

  /** The first line that fails to read decides the failure of the whole. */
  lemma ParseEachStepErr<T>(lines: seq<string>, i: nat, parse: string -> Result<T>, acc: seq<T>)
    requires i < |lines| && ParseEach(lines[..i], parse) == Ok(acc) && parse(lines[i]).Err?
    ensures ParseEach(lines, parse) == Err(parse(lines[i]).fault)
  {
    ParseEachSnoc(lines, i, parse);
    ParseEachErrPersists(lines, i + 1, parse);
  }

  /** Once a prefix fails, the whole file fails with the same exception. */
  lemma {:induction false} ParseEachErrPersists<T>(lines: seq<string>, k: nat, parse: string -> Result<T>)
    requires k <= |lines| && ParseEach(lines[..k], parse).Err?
    ensures ParseEach(lines, parse) == ParseEach(lines[..k], parse)
    decreases |lines| - k
  {
    if k < |lines| {
      ParseEachSnoc(lines, k, parse);
      ParseEachErrPersists(lines, k + 1, parse);
    } else {
      assert lines[..k] == lines;
    }
  }

  /** A loop over lines that carries a state and emits output as it goes:
    * the final state and everything emitted, or the exception of the first
    * line that raises. */
  function Run<S, T>(lines: seq<string>, init: S, step: (S, string) -> Result<(S, seq<T>)>): (r: Result<(S, seq<T>)>)
    ensures lines == [] ==> r == Ok((init, []))
    decreases |lines|
  {
    if lines == [] then Ok((init, []))
    else
      var (state, out) :- Run(lines[..|lines| - 1], init, step);
      var (state', more) :- step(state, lines[|lines| - 1]);
      Ok((state', out + more))
  }

  /** One more line run. */
  lemma RunSnoc<S, T>(lines: seq<string>, i: nat, init: S, step: (S, string) -> Result<(S, seq<T>)>)
    requires i < |lines|
    ensures Run(lines[..i + 1], init, step) ==
              (match Run(lines[..i], init, step)
               case Err(f) => Err(f)
               case Ok((state, out)) =>
                 match step(state, lines[i])
                 case Err(f) => Err(f)
                 case Ok((state', more)) => Ok((state', out + more)))
  {
    assert lines[..i + 1][..i] == lines[..i];
  }

  /** Once a prefix raises, the whole run raises the same exception. */
  lemma {:induction false} RunErrPersists<S, T>(lines: seq<string>, k: nat, init: S,
                                                step: (S, string) -> Result<(S, seq<T>)>)
    requires k <= |lines| && Run(lines[..k], init, step).Err?
    ensures Run(lines, init, step) == Run(lines[..k], init, step)
    decreases |lines| - k
  {
    if k < |lines| {
      RunSnoc(lines, k, init, step);
      RunErrPersists(lines, k + 1, init, step);
    } else {
      assert lines[..k] == lines;
    }
  }

  /** A loop over lines that only updates a state: the final state, or the
    * exception of the first line that raises. */
  function Fold<S>(lines: seq<string>, init: S, step: (S, string) -> Result<S>): (r: Result<S>)
    ensures lines == [] ==> r == Ok(init)
    decreases |lines|
  {
    if lines == [] then Ok(init)
    else
      var state :- Fold(lines[..|lines| - 1], init, step);
      step(state, lines[|lines| - 1])
  }

  /** One more line folded. */
  lemma FoldSnoc<S>(lines: seq<string>, i: nat, init: S, step: (S, string) -> Result<S>)
    requires i < |lines|
    ensures Fold(lines[..i + 1], init, step) ==
              (match Fold(lines[..i], init, step)
               case Err(f) => Err(f)
               case Ok(state) => step(state, lines[i]))
  {
    assert lines[..i + 1][..i] == lines[..i];
  }

  /** Once a prefix raises, the whole fold raises the same exception. */
  lemma {:induction false} FoldErrPersists<S>(lines: seq<string>, k: nat, init: S, step: (S, string) -> Result<S>)
    requires k <= |lines| && Fold(lines[..k], init, step).Err?
    ensures Fold(lines, init, step) == Fold(lines[..k], init, step)
    decreases |lines| - k
  {
    if k < |lines| {
      FoldSnoc(lines, k, init, step);
      FoldErrPersists(lines, k + 1, init, step);
    } else {
      assert lines[..k] == lines;
    }
  }
}
