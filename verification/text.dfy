/** The string operations of Rust's standard library that the narinfo core
    uses (`strip_prefix`, `strip_suffix`, `split_once`, `join`, `Display` for
    integers), and the text order of the catalog's `path` column. */
module Text {
  import opened Results

  predicate StartsWith(s: string, p: string)
  {
    |p| <= |s| && s[..|p|] == p
  }

  predicate EndsWith(s: string, p: string)
  {
    |p| <= |s| && s[|s| - |p|..] == p
  }

  /** `str::strip_prefix`: the rest of `s` when it starts with `p`. */
  function StripPrefix(s: string, p: string): (r: Option<string>)
    ensures r.Some? <==> StartsWith(s, p)
    ensures r.Some? ==> s == p + r.value
  {
    if StartsWith(s, p) then Some(s[|p|..]) else None
  }

  /** `str::strip_suffix`: the front of `s` when it ends with `p`. */
  function StripSuffix(s: string, p: string): (r: Option<string>)
    ensures r.Some? <==> EndsWith(s, p)
    ensures r.Some? ==> s == r.value + p
  {
    if EndsWith(s, p) then Some(s[..|s| - |p|]) else None
  }

  /** `str::split_once` with a one-character pattern: the text before and
      the text after the first occurrence of `c`. */
  function SplitOnce(s: string, c: char): (r: Option<(string, string)>)
    ensures r.None? <==> c !in s
    ensures r.Some? ==> s == r.value.0 + [c] + r.value.1 && c !in r.value.0
  {
    if |s| == 0 then None
    else if s[0] == c then Some(([], s[1..]))
    else
      match SplitOnce(s[1..], c)
      case None => None
      case Some((a, b)) => Some(([s[0]] + a, b))
  }

  /** The first occurrence is the one `SplitOnce` cuts at, whatever follows. */
  lemma SplitOnceAt(a: string, c: char, b: string)
    requires c !in a
    ensures SplitOnce(a + [c] + b, c) == Some((a, b))
  {
    var s := a + [c] + b;
    assert s[|a|] == c;
    var r := SplitOnce(s, c);
    var a', b' := r.value.0, r.value.1;
    assert forall k :: 0 <= k < |a| ==> s[k] == a[k] != c;
    assert forall k :: 0 <= k < |a'| ==> s[k] == a'[k] != c;
    assert s[|a'|] == c;
    assert |a'| == |a|;
    assert a' == s[..|a|] == a;
    assert b' == s[|a| + 1..] == b;
  }

  /** `[String]::join`. */
  function Join(sep: string, xs: seq<string>): string
  {
    if |xs| == 0 then ""
    else if |xs| == 1 then xs[0]
    else xs[0] + sep + Join(sep, xs[1..])
  }

  /** `str::split` with a one-character pattern: the pieces between the
      occurrences of `c`; a text without `c` is one piece. */
  function Split(s: string, c: char): (parts: seq<string>)
    ensures |parts| >= 1
    ensures forall k :: 0 <= k < |parts| ==> c !in parts[k]
    decreases |s|
  {
    match SplitOnce(s, c)
    case None => [s]
    case Some((a, b)) => [a] + Split(b, c)
  }

  /** Splitting undoes joining, so a joined list keeps its order and its
      count, provided no element contains the separator. */
  lemma {:induction false} SplitJoin(xs: seq<string>, c: char)
    requires |xs| >= 1
    requires forall k :: 0 <= k < |xs| ==> c !in xs[k]
    ensures Split(Join([c], xs), c) == xs
  {
    if |xs| > 1 {
      SplitOnceAt(xs[0], c, Join([c], xs[1..]));
      SplitJoin(xs[1..], c);
    }
  }

  /** A character found in neither the separator nor the elements is not in
      the joined text. */
  lemma {:induction false} JoinAvoids(sep: string, xs: seq<string>, c: char)
    requires c !in sep
    requires forall k :: 0 <= k < |xs| ==> c !in xs[k]
    ensures c !in Join(sep, xs)
  {
    if |xs| > 1 {
      JoinAvoids(sep, xs[1..], c);
    }
  }

  predicate IsDigit(c: char)
  {
    '0' <= c <= '9'
  }

  function DecimalDigitValue(c: char): nat
    requires IsDigit(c)
  {
    c as int - 48
  }

  /** Decimal digits of a natural number, most significant first, with no
      leading zero. */
  function DigitsOf(n: nat): (s: string)
    ensures |s| >= 1
    ensures forall k :: 0 <= k < |s| ==> IsDigit(s[k])
    ensures |s| > 1 ==> s[0] != '0'
    decreases n
  {
    if n < 10 then [(48 + n) as char]
    else DigitsOf(n / 10) + [(48 + n % 10) as char]
  }

  /** The number a digit string denotes. */
  function DigitsValue(s: string): nat
    requires forall k :: 0 <= k < |s| ==> IsDigit(s[k])
  {
    if |s| == 0 then 0
    else 10 * DigitsValue(s[..|s| - 1]) + DecimalDigitValue(s[|s| - 1])
  }

  lemma {:induction false} DigitsRoundTrip(n: nat)
    ensures DigitsValue(DigitsOf(n)) == n
    decreases n
  {
    if n >= 10 {
      var s := DigitsOf(n);
      assert s[..|s| - 1] == DigitsOf(n / 10);
      DigitsRoundTrip(n / 10);
    }
  }

  /** Rust's `Display` for a signed integer: an optional minus sign, then the
      decimal digits of the magnitude. */
  function Decimal(n: int): (s: string)
    ensures |s| >= 1
    ensures forall k :: 0 <= k < |s| ==> s[k] == '-' || IsDigit(s[k])
    ensures n >= 0 ==> (forall k :: 0 <= k < |s| ==> IsDigit(s[k])) && DigitsValue(s) == n
    ensures n < 0 ==> |s| >= 2 && s[0] == '-'
                      && (forall k :: 0 <= k < |s[1..]| ==> IsDigit(s[1..][k]))
                      && DigitsValue(s[1..]) == -n
    ensures n >= 0 && |s| > 1 ==> s[0] != '0'
    ensures n < 0 ==> s[1] != '0'
  {
    if n < 0 then
      DigitsRoundTrip(-n);
      assert ("-" + DigitsOf(-n))[1..] == DigitsOf(-n);
      "-" + DigitsOf(-n)
    else
      DigitsRoundTrip(n);
      DigitsOf(n)
  }

  /** `a` and `b` agree before index `i` and `a` has the smaller character
      there. */
  predicate DifferAt(a: string, b: string, i: nat)
  {
    i < |a| && i < |b| && a[..i] == b[..i] && a[i] < b[i]
  }

  /** `a` sorts before or equal to `b` in the lexicographic sense: `a` is a
      prefix of `b`, or the first character where they differ is smaller in
      `a`. */
  ghost predicate Lexicographic(a: string, b: string)
  {
    StartsWith(b, a) || exists i: nat :: DifferAt(a, b, i)
  }

  /** Lexicographic order of two non-empty texts is decided by their first
      characters, or by their tails when those agree. */
  lemma {:induction false} LexicographicStep(a: string, b: string)
    requires |a| > 0 && |b| > 0
    ensures Lexicographic(a, b)
            <==> a[0] < b[0] || (a[0] == b[0] && Lexicographic(a[1..], b[1..]))
  {
    if a[0] == b[0] {
      if StartsWith(b[1..], a[1..]) {
        assert b[..|a|] == [b[0]] + b[1..][..|a| - 1];
      }
      if StartsWith(b, a) {
        assert b[1..][..|a| - 1] == b[..|a|][1..];
      }
      if i: nat :| DifferAt(a[1..], b[1..], i) {
        assert a[..i + 1] == [a[0]] + a[1..][..i];
        assert b[..i + 1] == [b[0]] + b[1..][..i];
        assert DifferAt(a, b, i + 1);
      }
      if i: nat :| DifferAt(a, b, i) {
        assert i > 0;
        assert a[1..][..i - 1] == a[..i][1..];
        assert b[1..][..i - 1] == b[..i][1..];
        assert DifferAt(a[1..], b[1..], i - 1);
      }
    } else if a[0] < b[0] {
      assert DifferAt(a, b, 0);
    } else {
      assert !StartsWith(b, a);
      forall i: nat | 0 < i < |a| && i < |b|
        ensures a[..i] != b[..i]
      {
        assert a[..i][0] == a[0] && b[..i][0] == b[0];
      }
    }
  }

  /** The text order of SQLite's default BINARY collation, character by
      character; a proper prefix sorts first. */
  predicate Le(a: string, b: string)
    ensures Le(a, b) <==> Lexicographic(a, b)
  {
    if |a| == 0 then assert StartsWith(b, a); true
    else if |b| == 0 then assert !Lexicographic(a, b); false
    else
      LexicographicStep(a, b);
      a[0] < b[0] || (a[0] == b[0] && Le(a[1..], b[1..]))
  }

  lemma {:induction false} LeReflexive(a: string)
    ensures Le(a, a)
    decreases |a|
  {
    if |a| > 0 {
      LeReflexive(a[1..]);
    }
  }

  lemma {:induction false} LeTransitive(a: string, b: string, c: string)
    requires Le(a, b) && Le(b, c)
    ensures Le(a, c)
  {
    if |a| > 0 && a[0] == b[0] && b[0] == c[0] {
      LeTransitive(a[1..], b[1..], c[1..]);
    }
  }

  lemma {:induction false} LeTotal(a: string, b: string)
    ensures Le(a, b) || Le(b, a)
  {
    if |a| > 0 && |b| > 0 && a[0] == b[0] {
      LeTotal(a[1..], b[1..]);
    }
  }

  lemma {:induction false} PrefixLe(p: string, s: string)
    requires StartsWith(s, p)
    ensures Le(p, s)
  {
    if |p| > 0 {
      assert s[1..][..|p| - 1] == p[1..];
      PrefixLe(p[1..], s[1..]);
    }
  }

  /** A text that sorts between `w` and a text starting with `w` starts with
      `w` too: the texts starting with `w` form one contiguous run of the
      order. */
  lemma {:induction false} PrefixRunContiguous(w: string, f: string, r: string)
    requires Le(w, f) && Le(f, r)
    requires StartsWith(r, w)
    ensures StartsWith(f, w)
  {
    if |w| > 0 {
      assert r[0] == w[0];
      assert f[0] == w[0];
      assert r[1..][..|w| - 1] == w[1..];
      PrefixRunContiguous(w[1..], f[1..], r[1..]);
      assert f[..|w|] == [f[0]] + f[1..][..|w| - 1];
    }
  }
}
