/** Character and string helpers: the parts of Python's `str` that the
    scraper and the servers rely on (`strip`, `replace`, `in`, `startswith`,
    `int`, `str`, `sorted`). Strings are sequences of characters. */
module Strings {

  /** The characters Python's `str.isspace()` accepts, which are the ones
      `str.strip()` removes and the `re` class `\s` matches on `str`
      patterns: the ASCII controls tab to carriage return and 0x1C to 0x1F,
      the space, and the Unicode separators. */
  const Whitespace: set<char> := {
    '\t', '\n', '\U{000B}', '\U{000C}', '\r',
    '\U{001C}', '\U{001D}', '\U{001E}', '\U{001F}', ' ',
    '\U{0085}', '\U{00A0}', '\U{1680}',
    '\U{2000}', '\U{2001}', '\U{2002}', '\U{2003}', '\U{2004}', '\U{2005}',
    '\U{2006}', '\U{2007}', '\U{2008}', '\U{2009}', '\U{200A}',
    '\U{2028}', '\U{2029}', '\U{202F}', '\U{205F}', '\U{3000}'
  }

  predicate IsUpper(c: char) { 'A' <= c <= 'Z' }

  predicate IsDigit(c: char) { '0' <= c <= '9' }

  predicate AllDigits(s: string) { forall i :: 0 <= i < |s| ==> IsDigit(s[i]) }

  // ---------------------------------------------------------------------
  // Trimming

  /** Drops the leading characters that belong to `drop` (`s.lstrip(chars)`). */
  function TrimStart(s: string, drop: set<char>): (r: string)
    ensures |r| <= |s| && r == s[|s| - |r|..]
    ensures r == [] || r[0] !in drop
    ensures forall i :: 0 <= i < |s| - |r| ==> s[i] in drop
  {
    if s != [] && s[0] in drop then
      var t := TrimStart(s[1..], drop);
      assert s[1..][|s| - 1 - |t|..] == s[|s| - |t|..];
      assert forall i :: 1 <= i < |s| - |t| ==> s[i] == s[1..][i - 1];
      t
    else s
  }

  /** Drops the trailing characters that belong to `drop` (`s.rstrip(chars)`). */
  function TrimEnd(s: string, drop: set<char>): (r: string)
    ensures |r| <= |s| && r == s[..|r|]
    ensures r == [] || r[|r| - 1] !in drop
    ensures forall i :: |r| <= i < |s| ==> s[i] in drop
  {
    if s != [] && s[|s| - 1] in drop then
      var t := TrimEnd(s[..|s| - 1], drop);
      assert s[..|s| - 1][..|t|] == s[..|t|];
      assert forall i :: |t| <= i < |s| - 1 ==> s[i] == s[..|s| - 1][i];
      t
    else s
  }

  /** `s.strip(chars)`: both ends. */
  function Trim(s: string, drop: set<char>): string {
    TrimEnd(TrimStart(s, drop), drop)
  }

  /** `s.strip()`. */
  function Strip(s: string): string {
    Trim(s, Whitespace)
  }

  /** A stripped string neither starts nor ends with white space, and it is
      what lies between a white-space prefix and a white-space suffix of `s`. */
  lemma StripShape(s: string)
    ensures var r := Strip(s);
      (r == [] || (r[0] !in Whitespace && r[|r| - 1] !in Whitespace)) &&
      exists k :: OccursAt(s, r, k) &&
        (forall i :: 0 <= i < k ==> s[i] in Whitespace) &&
        (forall i :: k + |r| <= i < |s| ==> s[i] in Whitespace)
  {
    TrimShape(s, Whitespace);
  }

  lemma TrimShape(s: string, drop: set<char>)
    ensures var r := Trim(s, drop);
      (r == [] || (r[0] !in drop && r[|r| - 1] !in drop)) &&
      exists k :: OccursAt(s, r, k) &&
        (forall i :: 0 <= i < k ==> s[i] in drop) &&
        (forall i :: k + |r| <= i < |s| ==> s[i] in drop)
  {
    var a := TrimStart(s, drop);
    var r := TrimEnd(a, drop);
    var k := |s| - |a|;
    assert s[k..k + |r|] == a[..|r|];
    assert OccursAt(s, r, k);
    forall i | k + |r| <= i < |s| ensures s[i] in drop {
      assert s[i] == a[i - k];
    }
  }

  /** Stripping only ever removes characters. */
  lemma StripKeepsChars(s: string)
    ensures forall c :: c in Strip(s) ==> c in s
  {
    StripShape(s);
    var r := Strip(s);
    var k :| OccursAt(s, r, k);
    forall c | c in r ensures c in s {
      var j :| 0 <= j < |r| && r[j] == c;
      assert s[k + j] == c;
    }
  }

  /** `s.replace(c, '')`: every `c` is gone, and every other character is
      kept as often as it occurs. */
  function Remove(s: string, c: char): (r: string)
    ensures c !in r
    ensures forall x :: x in r <==> x in s && x != c
    ensures multiset(r) == multiset(s)[c := 0]
    ensures |r| <= |s|
  {
    if s == [] then []
    else
      assert s == [s[0]] + s[1..];
      (if s[0] == c then [] else [s[0]]) + Remove(s[1..], c)
  }

  /** Removing works piece by piece, so the characters kept stay in their
      order. */
  lemma {:induction false} RemoveAppend(a: string, b: string, c: char)
    ensures Remove(a + b, c) == Remove(a, c) + Remove(b, c)
    decreases a
  {
    if a == [] {
      assert a + b == b;
    } else {
      assert (a + b)[0] == a[0];
      assert (a + b)[1..] == a[1..] + b;
      RemoveAppend(a[1..], b, c);
    }
  }

  /** Without any `c`, nothing is removed. */
  lemma {:induction false} RemoveAbsent(s: string, c: char)
    requires c !in s
    ensures Remove(s, c) == s
    decreases s
  {
    if s != [] {
      assert s[0] != c;
      assert c !in s[1..];
      RemoveAbsent(s[1..], c);
      assert s == [s[0]] + s[1..];
    }
  }

  // ---------------------------------------------------------------------
  // Substrings

  /** `p` occurs in `s` starting at index `i`. */
  predicate OccursAt(s: string, p: string, i: int) {
    0 <= i && i + |p| <= |s| && s[i..i + |p|] == p
  }

  /** `p in s` on strings: `p` occurs somewhere in `s`. */
  predicate Contains(s: string, p: string)
    decreases |s|
  {
    p <= s || (s != [] && Contains(s[1..], p))
  }

  /** `Contains` is the usual "occurs at some index". */
  lemma {:induction false} ContainsAt(s: string, p: string)
    ensures Contains(s, p) <==> exists i :: OccursAt(s, p, i)
    decreases |s|
  {
    if p <= s {
      assert OccursAt(s, p, 0);
    } else if s != [] {
      ContainsAt(s[1..], p);
      if Contains(s[1..], p) {
        var i :| OccursAt(s[1..], p, i);
        assert s[i + 1..i + 1 + |p|] == s[1..][i..i + |p|];
        assert OccursAt(s, p, i + 1);
      }
      forall i | OccursAt(s, p, i) ensures Contains(s[1..], p) {
        assert i != 0;
        assert s[1..][i - 1..i - 1 + |p|] == s[i..i + |p|];
        assert OccursAt(s[1..], p, i - 1);
      }
    }
  }

  lemma TrimStartKeepsOccurrence(s: string, drop: set<char>, p: string, i: int)
    requires p != [] && p[0] !in drop && OccursAt(s, p, i)
    ensures OccursAt(TrimStart(s, drop), p, i - (|s| - |TrimStart(s, drop)|))
  {
    var a := TrimStart(s, drop);
    var k := |s| - |a|;
    assert s[i] == s[i..i + |p|][0] == p[0];
    assert k <= i;
    assert a[i - k..i - k + |p|] == s[i..i + |p|];
  }

  lemma TrimEndKeepsOccurrence(s: string, drop: set<char>, p: string, i: int)
    requires p != [] && p[|p| - 1] !in drop && OccursAt(s, p, i)
    ensures OccursAt(TrimEnd(s, drop), p, i)
  {
    var r := TrimEnd(s, drop);
    assert s[i + |p| - 1] == s[i..i + |p|][|p| - 1] == p[|p| - 1];
    assert i + |p| <= |r|;
    assert r[i..i + |p|] == s[i..i + |p|];
  }

  /** Cutting characters of `drop` off both ends never destroys an occurrence of
      a non-empty `p` whose first and last characters are not in `drop`. */
  lemma TrimKeepsOccurrence(s: string, drop: set<char>, p: string)
    requires p != [] && p[0] !in drop && p[|p| - 1] !in drop
    requires Contains(s, p)
    ensures Contains(Trim(s, drop), p)
  {
    ContainsAt(s, p);
    var i :| OccursAt(s, p, i);
    var a := TrimStart(s, drop);
    TrimStartKeepsOccurrence(s, drop, p, i);
    TrimEndKeepsOccurrence(a, drop, p, i - (|s| - |a|));
    ContainsAt(Trim(s, drop), p);
  }

  /** A string without any `c` cannot contain a pattern that has a `c`. */
  lemma NoOccurrenceOfForeignChar(s: string, p: string, c: char)
    requires c !in s && c in p
    ensures !Contains(s, p)
  {
    var j :| 0 <= j < |p| && p[j] == c;
    forall i | 0 <= i && i + |p| <= |s| ensures !OccursAt(s, p, i) {
      assert s[i..i + |p|][j] == s[i + j] != c;
    }
    ContainsAt(s, p);
  }

  // ---------------------------------------------------------------------
  // Decimal numerals (`int(digits)` and `str(n)`)

  function DigitValue(c: char): (d: nat)
    requires IsDigit(c)
    ensures d < 10
  {
    (c as int - '0' as int) as nat
  }

  function DigitChar(d: nat): (c: char)
    requires d < 10
    ensures IsDigit(c) && DigitValue(c) == d
  {
    ('0' as int + d) as char
  }

  /** `int(ds)` for a non-empty run of ASCII digits. */
  function ParseDecimal(ds: string): nat
    requires ds != [] && AllDigits(ds)
    decreases |ds|
  {
    if |ds| == 1 then DigitValue(ds[0])
    else ParseDecimal(ds[..|ds| - 1]) * 10 + DigitValue(ds[|ds| - 1])
  }

  /** `str(n)` for a natural number. */
  function NatToDecimal(n: nat): (s: string)
    ensures s != [] && AllDigits(s)
    ensures |s| > 1 ==> s[0] != '0'
  {
    if n < 10 then [DigitChar(n)] else NatToDecimal(n / 10) + [DigitChar(n % 10)]
  }

  /** `str(i)` for any integer. */
  function IntToDecimal(i: int): (s: string)
    ensures s != []
  {
    if i < 0 then "-" + NatToDecimal(-i) else NatToDecimal(i)
  }

  /** Reading back a rendered number gives the number: `int(str(n)) == n`. */
  lemma {:induction false} DecimalRoundTrip(n: nat)
    ensures ParseDecimal(NatToDecimal(n)) == n
  {
    if n >= 10 {
      DecimalRoundTrip(n / 10);
      var s := NatToDecimal(n);
      assert s[..|s| - 1] == NatToDecimal(n / 10);
    }
  }

  /** Distinct numbers render as distinct strings. */
  lemma DecimalInjective(m: nat, n: nat)
    requires NatToDecimal(m) == NatToDecimal(n)
    ensures m == n
  {
    DecimalRoundTrip(m);
    DecimalRoundTrip(n);
  }

  // ---------------------------------------------------------------------
  // `"".join(sorted(set(letters)))`

  predicate StrictlyIncreasing(s: string) {
    forall i, j :: 0 <= i < j < |s| ==> s[i] < s[j]
  }

  /** Inserts `c` into a strictly increasing string, unless it is already there. */
  function InsertUnique(c: char, s: string): (r: string)
    requires StrictlyIncreasing(s)
    ensures StrictlyIncreasing(r)
    ensures forall x :: x in r <==> x == c || x in s
  {
    if s == [] then [c]
    else if c < s[0] then [c] + s
    else if c == s[0] then s
    else
      var rest := InsertUnique(c, s[1..]);
      assert forall x :: x in rest ==> s[0] < x by {
        forall x | x in rest ensures s[0] < x {
          if x != c {
            var i :| 0 <= i < |s[1..]| && s[1..][i] == x;
            assert s[i + 1] == x;
          }
        }
      }
      PrependIncreasing(s[0], rest);
      assert forall x :: x in s <==> x == s[0] || x in s[1..];
      [s[0]] + rest
  }

  /** A character below every character of an increasing string can go first. */
  lemma PrependIncreasing(h: char, rest: string)
    requires StrictlyIncreasing(rest)
    requires forall x :: x in rest ==> h < x
    ensures StrictlyIncreasing([h] + rest)
  {
    var r := [h] + rest;
    forall i, j | 0 <= i < j < |r| ensures r[i] < r[j] {
      assert r[j] == rest[j - 1];
      if i > 0 {
        assert r[i] == rest[i - 1];
      } else {
        assert rest[j - 1] in rest;
      }
    }
  }

  /** The distinct characters of `s` in increasing order. */
  function SortedUnique(s: string): (r: string)
    ensures StrictlyIncreasing(r)
    ensures forall x :: x in r <==> x in s
  {
    if s == [] then [] else InsertUnique(s[0], SortedUnique(s[1..]))
  }

  /** A strictly increasing string is determined by its set of characters, so
      `SortedUnique` is exactly "sort the set": it depends only on which letters
      occur, not on their order or repetition. */
  lemma {:induction false} IncreasingDeterminedBySet(a: string, b: string)
    requires StrictlyIncreasing(a) && StrictlyIncreasing(b)
    requires forall x :: x in a <==> x in b
    ensures a == b
    decreases |a|
  {
    assert a != [] ==> a[0] in b;
    assert b != [] ==> b[0] in a;
    if a != [] && b != [] {
      // The first element of each is the least element of the common set.
      HeadIsLeast(a);
      HeadIsLeast(b);
      assert a[0] == b[0];
      IncreasingDeterminedBySet(a[1..], b[1..]);
      assert a == [a[0]] + a[1..];
      assert b == [b[0]] + b[1..];
    }
  }

  /** The head of a strictly increasing string is its least character, and
      the tail holds exactly the others. */
  lemma HeadIsLeast(a: string)
    requires StrictlyIncreasing(a) && a != []
    ensures forall x :: x in a ==> a[0] <= x
    ensures StrictlyIncreasing(a[1..])
    ensures forall x :: x in a[1..] <==> x in a && x != a[0]
  {
    forall x | x in a ensures a[0] <= x {
      var i :| 0 <= i < |a| && a[i] == x;
    }
    forall x | x in a[1..] ensures x in a && x != a[0] {
      var i :| 0 <= i < |a[1..]| && a[1..][i] == x;
      assert a[i + 1] == x;
    }
    forall x | x in a && x != a[0] ensures x in a[1..] {
      var i :| 0 <= i < |a| && a[i] == x;
      assert a[1..][i - 1] == x;
    }
  }

  /** The characters occurring in `s`. */
  function Chars(s: string): set<char> {
    set c | c in s
  }

  /** A strictly increasing string has as many characters as distinct ones. */
  lemma {:induction false} IncreasingCountsDistinct(s: string)
    requires StrictlyIncreasing(s)
    ensures |s| == |Chars(s)|
    decreases |s|
  {
    if s != [] {
      HeadIsLeast(s);
      IncreasingCountsDistinct(s[1..]);
      CharsCons(s);
      assert s[0] !in Chars(s[1..]);
    }
  }

  lemma CharsCons(s: string)
    requires s != []
    ensures Chars(s) == {s[0]} + Chars(s[1..])
  {
    assert s == [s[0]] + s[1..];
  }

  lemma SortedUniqueDependsOnlyOnSet(s: string, t: string)
    requires forall x :: x in s <==> x in t
    ensures SortedUnique(s) == SortedUnique(t)
  {
    IncreasingDeterminedBySet(SortedUnique(s), SortedUnique(t));
  }

  // ---------------------------------------------------------------------
  // `sorted(list_of_str)`: code-point lexicographic order

  /** Python's `<=` on strings. */
  predicate LexLe(a: string, b: string) {
    a == [] || (b != [] && (a[0] < b[0] || (a[0] == b[0] && LexLe(a[1..], b[1..]))))
  }

  lemma {:induction false} LexTotal(a: string, b: string)
    ensures LexLe(a, b) || LexLe(b, a)
  {
    if a != [] && b != [] && a[0] == b[0] {
      LexTotal(a[1..], b[1..]);
    }
  }

  predicate SortedStrings(xs: seq<string>) {
    forall i :: 0 < i < |xs| ==> LexLe(xs[i - 1], xs[i])
  }

  function InsertString(x: string, xs: seq<string>): (r: seq<string>)
    requires SortedStrings(xs)
    ensures SortedStrings(r)
    ensures multiset(r) == multiset(xs) + multiset{x}
    ensures r != [] && (r[0] == x || (xs != [] && r[0] == xs[0]))
  {
    if xs == [] || LexLe(x, xs[0]) then [x] + xs
    else
      LexTotal(x, xs[0]);
      var rest := InsertString(x, xs[1..]);
      assert xs == [xs[0]] + xs[1..];
      [xs[0]] + rest
  }

  /** `sorted(xs)`: an ordered rearrangement of the same strings. */
  function SortStrings(xs: seq<string>): (r: seq<string>)
    ensures SortedStrings(r)
    ensures multiset(r) == multiset(xs)
  {
    if xs == [] then []
    else
      assert xs == [xs[0]] + xs[1..];
      InsertString(xs[0], SortStrings(xs[1..]))
  }
}
