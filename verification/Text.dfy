/** The Python string built-ins the scripts rely on: `str.strip()`, the
    code-point order used by `sorted` on strings, `sep.join`, the decimal
    rendering of an `int` in an f-string, and `os.path.splitext`. */
module Text {
  import opened Seqs

  /** The characters for which Python's `str.isspace()` holds, which are the
      ones `str.strip()` removes when given no argument. */
  predicate IsSpace(c: char)
  {
    ('\t' <= c <= '\r') || ('\U{1C}' <= c <= ' ') || c == '\U{85}' || c == '\U{A0}' ||
    c == '\U{1680}' || ('\U{2000}' <= c <= '\U{200A}') || c == '\U{2028}' || c == '\U{2029}' ||
    c == '\U{202F}' || c == '\U{205F}' || c == '\U{3000}'
  }

  function TrimStart(s: string): string
  {
    if s != [] && IsSpace(s[0]) then TrimStart(s[1..]) else s
  }

  function TrimEnd(s: string): string
  {
    if s != [] && IsSpace(s[|s| - 1]) then TrimEnd(s[..|s| - 1]) else s
  }

  /** Python's `s.strip()` with no argument. */
  function Strip(s: string): string
  {
    TrimEnd(TrimStart(s))
  }

  /** `TrimStart` removes exactly the leading whitespace. */
  lemma {:induction false} TrimStartRemovesLeadingSpace(s: string)
    ensures |TrimStart(s)| <= |s| && TrimStart(s) == s[|s| - |TrimStart(s)|..]
    ensures TrimStart(s) == [] || !IsSpace(TrimStart(s)[0])
    ensures forall i :: 0 <= i < |s| - |TrimStart(s)| ==> IsSpace(s[i])
  {
    if s != [] && IsSpace(s[0]) {
      var t := s[1..];
      TrimStartRemovesLeadingSpace(t);
      assert TrimStart(s) == TrimStart(t);
      forall i | 0 <= i < |s| - |TrimStart(s)|
        ensures IsSpace(s[i])
      {
        if i > 0 {
          assert s[i] == t[i - 1];
        }
      }
    }
  }

  /** `TrimEnd` removes exactly the trailing whitespace. */
  lemma {:induction false} TrimEndRemovesTrailingSpace(s: string)
    ensures TrimEnd(s) <= s
    ensures TrimEnd(s) == [] || !IsSpace(TrimEnd(s)[|TrimEnd(s)| - 1])
    ensures forall i :: |TrimEnd(s)| <= i < |s| ==> IsSpace(s[i])
  {
    if s != [] && IsSpace(s[|s| - 1]) {
      TrimEndRemovesTrailingSpace(s[..|s| - 1]);
    }
  }

  /** `s.strip()` is the longest slice of `s` that neither starts nor ends
      with whitespace and has only whitespace around it. */
  lemma StripRemovesOuterSpace(s: string)
    ensures Strip(s) == [] || (!IsSpace(Strip(s)[0]) && !IsSpace(Strip(s)[|Strip(s)| - 1]))
    ensures exists k :: 0 <= k <= |s| - |Strip(s)| && Strip(s) <= s[k..] &&
                        (forall i :: 0 <= i < k ==> IsSpace(s[i])) &&
                        (forall i :: k + |Strip(s)| <= i < |s| ==> IsSpace(s[i]))
  {
    var t := TrimStart(s);
    var r := TrimEnd(t);
    TrimStartRemovesLeadingSpace(s);
    TrimEndRemovesTrailingSpace(t);
    var k := |s| - |t|;
    assert r <= s[k..];
    assert r != [] ==> r[0] == t[0];
  }

  lemma StripIdempotent(s: string)
    ensures Strip(Strip(s)) == Strip(s)
  {
    StripRemovesOuterSpace(s);
  }

  /** Python's `a < b` on `str`: lexicographic order on code points, a proper
      prefix coming first. */
  predicate LexLess(a: string, b: string)
  {
    if a == [] then b != []
    else if b == [] then false
    else if a[0] != b[0] then a[0] < b[0]
    else LexLess(a[1..], b[1..])
  }

  lemma {:induction false} LexLessIrreflexive(a: string)
    ensures !LexLess(a, a)
  {
    if a != [] {
      LexLessIrreflexive(a[1..]);
    }
  }

  lemma {:induction false} LexLessTransitive(a: string, b: string, c: string)
    requires LexLess(a, b) && LexLess(b, c)
    ensures LexLess(a, c)
  {
    if a != [] && a[0] == b[0] && b[0] == c[0] {
      LexLessTransitive(a[1..], b[1..], c[1..]);
    }
  }

  lemma {:induction false} LexLessTotal(a: string, b: string)
    requires a != b
    ensures LexLess(a, b) || LexLess(b, a)
  {
    if a != [] && b != [] && a[0] == b[0] {
      assert a == [a[0]] + a[1..] && b == [b[0]] + b[1..];
      LexLessTotal(a[1..], b[1..]);
    }
  }

  lemma LexLessAsymmetric(a: string, b: string)
    requires LexLess(a, b)
    ensures !LexLess(b, a)
  {
    if LexLess(b, a) {
      LexLessTransitive(a, b, a);
      LexLessIrreflexive(a);
    }
  }

  /** A code that is a proper prefix of another sorts before it, so in the
      master list every code comes before the longer codes it prefixes. */
  lemma {:induction false} ProperPrefixSortsFirst(a: string, b: string)
    requires a < b
    ensures LexLess(a, b)
  {
    if a != [] {
      assert a[1..] < b[1..];
      ProperPrefixSortsFirst(a[1..], b[1..]);
    }
  }

  ghost predicate StrictlySorted(s: seq<string>)
  {
    forall i, j :: 0 <= i < j < |s| ==> LexLess(s[i], s[j])
  }

  lemma SortedIsDistinct(s: seq<string>)
    requires StrictlySorted(s)
    ensures Distinct(s)
  {
    forall i, j | 0 <= i < j < |s|
      ensures s[i] != s[j]
    {
      LexLessIrreflexive(s[i]);
    }
  }

  /** Inserts `x` into a strictly sorted list unless it is already there. */
  function Insert(x: string, s: seq<string>): (r: seq<string>)
    requires StrictlySorted(s)
    ensures StrictlySorted(r)
    ensures Elems(r) == Elems(s) + {x}
  {
    if s == [] then [x]
    else if x == s[0] then
      assert Elems(s) == Elems(s) + {x};
      s
    else if LexLess(x, s[0]) then
      assert forall j :: 0 < j < |s| ==> LexLess(x, s[j]) by {
        forall j | 0 < j < |s| ensures LexLess(x, s[j]) {
          LexLessTransitive(x, s[0], s[j]);
        }
      }
      assert Elems([x] + s) == Elems(s) + {x};
      [x] + s
    else
      LexLessTotal(x, s[0]);
      var t := Insert(x, s[1..]);
      assert s == [s[0]] + s[1..];
      assert Elems(s) == {s[0]} + Elems(s[1..]);
      assert forall y :: y in t ==> LexLess(s[0], y) by {
        forall y | y in t
          ensures LexLess(s[0], y)
        {
          assert y in Elems(t);
          if y != x {
            assert y in Elems(s[1..]);
            var j :| 0 <= j < |s| - 1 && s[1..][j] == y;
            assert s[j + 1] == y;
          }
        }
      }
      assert Elems([s[0]] + t) == {s[0]} + Elems(t);
      [s[0]] + t
  }

  /** The distinct strings of `xs` in ascending order: `Insert` drops a
      string that is already present, so repeats collapse. On distinct
      strings this is Python's `sorted`; the series grouping calls it on
      keys that repeat and relies on the deduplication, as `groupby` does. */
  function Sort(xs: seq<string>): (r: seq<string>)
    ensures StrictlySorted(r)
    ensures Elems(r) == Elems(xs)
  {
    if xs == [] then []
    else
      assert xs == xs[..|xs| - 1] + [xs[|xs| - 1]];
      assert Elems(xs) == Elems(xs[..|xs| - 1]) + {xs[|xs| - 1]};
      Insert(xs[|xs| - 1], Sort(xs[..|xs| - 1]))
  }

  lemma {:induction false} SortedUnique(a: seq<string>, b: seq<string>)
    requires StrictlySorted(a) && StrictlySorted(b)
    requires Elems(a) == Elems(b)
    ensures a == b
  {
    ElemsEmpty(a);
    ElemsEmpty(b);
    if a != [] && b != [] {
      assert a[0] in Elems(b) && b[0] in Elems(a);
      if a[0] != b[0] {
        var k :| 0 <= k < |b| && b[k] == a[0];
        var l :| 0 <= l < |a| && a[l] == b[0];
        assert LexLess(b[0], a[0]) && LexLess(a[0], b[0]);
        LexLessAsymmetric(a[0], b[0]);
      }
      SortedIsDistinct(a);
      SortedIsDistinct(b);
      assert a == [a[0]] + a[1..] && b == [b[0]] + b[1..];
      assert Elems(a) == {a[0]} + Elems(a[1..]) && a[0] !in Elems(a[1..]);
      assert Elems(b) == {b[0]} + Elems(b[1..]) && b[0] !in Elems(b[1..]);
      assert Elems(a[1..]) == Elems(b[1..]);
      SortedUnique(a[1..], b[1..]);
    }
  }

  ghost function SomeOrderOf(s: set<string>): (r: seq<string>)
    ensures Elems(r) == s
  {
    if s == {} then []
    else
      var x :| x in s;
      var r := SomeOrderOf(s - {x}) + [x];
      assert Elems(r) == Elems(SomeOrderOf(s - {x})) + {x};
      r
  }

  /** `sorted(s)` for a set `s`: the one strictly ascending list of its
      elements. */
  ghost function SortedOf(s: set<string>): (r: seq<string>)
    ensures StrictlySorted(r) && Elems(r) == s
  {
    Sort(SomeOrderOf(s))
  }

  /** Python's `sorted(s)` on a set of strings. */
  method SortSet(s: set<string>) returns (r: seq<string>)
    ensures StrictlySorted(r) && Elems(r) == s
    ensures r == SortedOf(s)
  {
    var items: seq<string> := [];
    var rest := s;
    while rest != {}
      invariant rest <= s
      invariant Elems(items) + rest == s
      decreases rest
    {
      var x :| x in rest;
      assert Elems(items + [x]) == Elems(items) + {x};
      items := items + [x];
      rest := rest - {x};
    }
    r := Sort(items);
    SortedUnique(r, SortedOf(s));
  }

  /** Python's `sep.join(xs)`. */
  function Join(sep: string, xs: seq<string>): (r: string)
    ensures xs == [] ==> r == ""
    ensures |xs| == 1 ==> r == xs[0]
    ensures |xs| >= 2 ==> xs[0] + sep <= r
  {
    if xs == [] then ""
    else if |xs| == 1 then xs[0]
    else xs[0] + sep + Join(sep, xs[1..])
  }

  function DigitChar(d: nat): (c: char)
    requires d < 10
    ensures '0' <= c <= '9'
  {
    (48 + d) as char
  }

  function DigitValue(c: char): nat
    requires '0' <= c <= '9'
  {
    c as int - 48
  }

  /** `str(n)` for a non-negative Python `int`: its decimal digits, with no
      leading zero. */
  function NatToString(n: nat): (r: string)
    ensures |r| >= 1
    ensures forall i :: 0 <= i < |r| ==> '0' <= r[i] <= '9'
    ensures n >= 10 ==> |r| >= 2 && r[0] != '0'
    decreases n
  {
    if n < 10 then [DigitChar(n)] else NatToString(n / 10) + [DigitChar(n % 10)]
  }

  /** Reads a string of decimal digits back as a number. */
  function ParseDecimal(s: string): nat
    requires forall i :: 0 <= i < |s| ==> '0' <= s[i] <= '9'
  {
    if s == [] then 0 else ParseDecimal(s[..|s| - 1]) * 10 + DigitValue(s[|s| - 1])
  }

  lemma {:induction false} ParseNatToString(n: nat)
    ensures ParseDecimal(NatToString(n)) == n
    decreases n
  {
    var r := NatToString(n);
    if n >= 10 {
      ParseNatToString(n / 10);
      assert r[..|r| - 1] == NatToString(n / 10);
    }
  }

  lemma NatToStringInjective(a: nat, b: nat)
    requires NatToString(a) == NatToString(b)
    ensures a == b
  {
    ParseNatToString(a);
    ParseNatToString(b);
  }

  /** Python's `str.rfind` for one character: the last index of `c` in `s`,
      or -1. */
  function RFind(s: string, c: char): (k: int)
    ensures -1 <= k < |s|
    ensures k >= 0 ==> s[k] == c
    ensures forall i :: k < i < |s| ==> s[i] != c
  {
    if s == [] then -1
    else if s[|s| - 1] == c then |s| - 1
    else RFind(s[..|s| - 1], c)
  }

  /** `os.path.splitext(p)[0]` (POSIX): `p` without its last extension. */
  function Stem(p: string): string
  {
    var slash := RFind(p, '/');
    var dot := RFind(p, '.');
    if dot > slash && exists i :: slash < i < dot && p[i] != '.' then p[..dot] else p
  }

  /** The extension is cut only at the last dot after the last slash, and
      only when that dot does not belong to the leading dots of the file
      name; and whenever the file name has such a dot, it is cut there. */
  lemma StemCutsLastExtension(p: string)
    ensures Stem(p) <= p
    ensures Stem(p) != p ==> p[|Stem(p)|] == '.' && forall i :: |Stem(p)| < i < |p| ==> p[i] != '.' && p[i] != '/'
    ensures Stem(p) != p ==> exists i :: RFind(p, '/') < i < |Stem(p)| && p[i] != '.'
    ensures (exists i, j :: RFind(p, '/') < i < j < |p| && p[i] != '.' && p[j] == '.') ==>
              Stem(p) == p[..RFind(p, '.')]
  {
  }
}
