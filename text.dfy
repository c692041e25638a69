/** The string facts the core relies on: Rust's ordering of `String`
    (which fixes the iteration order of every `BTreeMap<String, _>`),
    `u32::to_string` and `str::parse::<u32>`, `str::trim`, and the
    lower-casing and substring test used by the app filter. */
module Text {
  import opened Wrappers

  type U32 = n: int | 0 <= n < 0x1_0000_0000

  // ---------------------------------------------------------------------
  // Ordering of strings
  // ---------------------------------------------------------------------

  /** `a < b` in Rust's `Ord for String`: lexicographic over UTF-8 bytes,
      which agrees with lexicographic order over code points. */
  predicate Below(a: string, b: string)
  {
    if |a| == 0 then |b| > 0
    else |b| > 0 && (a[0] < b[0] || (a[0] == b[0] && Below(a[1..], b[1..])))
  }

  lemma {:induction false} BelowIrreflexive(a: string)
    ensures !Below(a, a)
  {
    if |a| > 0 {
      BelowIrreflexive(a[1..]);
    }
  }

  lemma {:induction false} BelowTransitive(a: string, b: string, c: string)
    requires Below(a, b) && Below(b, c)
    ensures Below(a, c)
  {
    if |a| > 0 && a[0] == b[0] && b[0] == c[0] {
      BelowTransitive(a[1..], b[1..], c[1..]);
    }
  }

  lemma {:induction false} BelowTotal(a: string, b: string)
    ensures a == b || Below(a, b) || Below(b, a)
  {
    if |a| > 0 && |b| > 0 && a[0] == b[0] {
      BelowTotal(a[1..], b[1..]);
      if a[1..] == b[1..] {
        assert a == [a[0]] + a[1..] && b == [b[0]] + b[1..];
      }
    }
  }

  lemma BelowAsymmetric(a: string, b: string)
    requires Below(a, b)
    ensures !Below(b, a)
  {
    if Below(b, a) {
      BelowTransitive(a, b, a);
      BelowIrreflexive(a);
    }
  }

  /** `k` is the first key of `s` in Rust's string order. */
  predicate IsLeast(k: string, s: set<string>)
  {
    k in s && forall j :: j in s ==> j == k || Below(k, j)
  }

  lemma {:induction false} LeastExists(s: set<string>)
    requires s != {}
    ensures exists k :: IsLeast(k, s)
    decreases |s|
  {
    var x :| x in s;
    if s == {x} {
      assert IsLeast(x, s);
    } else {
      LeastExists(s - {x});
      var m :| IsLeast(m, s - {x});
      BelowTotal(m, x);
      if Below(m, x) {
        assert IsLeast(m, s);
      } else {
        forall j | j in s && j != x
          ensures Below(x, j)
        {
          if j != m {
            BelowTransitive(x, m, j);
          }
        }
        assert IsLeast(x, s);
      }
    }
  }

  lemma LeastUnique(k: string, k': string, s: set<string>)
    requires IsLeast(k, s) && IsLeast(k', s)
    ensures k == k'
  {
    if k != k' {
      BelowAsymmetric(k, k');
    }
  }

  ghost predicate StrictlyAscending(xs: seq<string>)
  {
    forall i, j :: 0 <= i < j < |xs| ==> Below(xs[i], xs[j])
  }

  /** The keys of `s` in the order a `BTreeMap<String, _>` visits them. */
  ghost function Ascending(s: set<string>): (r: seq<string>)
    ensures |r| == |s|
    ensures forall k :: k in r <==> k in s
    ensures StrictlyAscending(r)
    decreases |s|
  {
    if s == {} then []
    else
      LeastExists(s);
      var k :| IsLeast(k, s);
      var rest := Ascending(s - {k});
      LeastFirst(k, s, rest);
      [k] + rest
  }

  /** The least key followed by an ascending listing of the others is an
      ascending listing of the whole set. */
  lemma LeastFirst(k: string, s: set<string>, rest: seq<string>)
    requires IsLeast(k, s)
    requires |rest| == |s - {k}| && StrictlyAscending(rest)
    requires forall j :: j in rest <==> j in s - {k}
    ensures |[k] + rest| == |s|
    ensures forall j :: j in [k] + rest <==> j in s
    ensures StrictlyAscending([k] + rest)
  {
    var r := [k] + rest;
    forall i, j | 0 <= i < j < |r|
      ensures Below(r[i], r[j])
    {
      assert r[j] == rest[j - 1];
      if i > 0 {
        assert r[i] == rest[i - 1];
      } else {
        assert r[j] in s - {k};
      }
    }
  }

  lemma AscendingFirst(s: set<string>, k: string)
    requires IsLeast(k, s)
    ensures Ascending(s) == [k] + Ascending(s - {k})
  {
    var r := Ascending(s);
    var k0 := r[0];
    assert IsLeast(k0, s) && r == [k0] + Ascending(s - {k0});
    LeastUnique(k, k0, s);
  }

  /** A strictly ascending listing of a set is the one `Ascending` gives. */
  lemma {:induction false} AscendingUnique(xs: seq<string>, s: set<string>)
    requires StrictlyAscending(xs)
    requires forall k :: k in xs <==> k in s
    ensures xs == Ascending(s)
    decreases |xs|
  {
    if xs == [] {
      assert s == {};
    } else {
      var k := xs[0];
      ListingFirst(xs, s);
      AscendingFirst(s, k);
      ListingRest(xs, s);
      AscendingUnique(xs[1..], s - {k});
      assert xs == [k] + xs[1..];
    }
  }

  /** The first key of a strictly ascending listing is the set's least. */
  lemma ListingFirst(xs: seq<string>, s: set<string>)
    requires StrictlyAscending(xs) && xs != []
    requires forall k :: k in xs <==> k in s
    ensures IsLeast(xs[0], s)
  {
    forall j | j in s
      ensures j == xs[0] || Below(xs[0], j)
    {
      var i :| 0 <= i < |xs| && xs[i] == j;
    }
  }

  /** The rest of a strictly ascending listing lists the rest of the set. */
  lemma ListingRest(xs: seq<string>, s: set<string>)
    requires StrictlyAscending(xs) && xs != []
    requires forall k :: k in xs <==> k in s
    ensures StrictlyAscending(xs[1..])
    ensures forall j :: j in xs[1..] <==> j in s - {xs[0]}
  {
    FirstNotRepeated(xs);
    forall j | j in s - {xs[0]}
      ensures j in xs[1..]
    {
      var i :| 0 <= i < |xs| && xs[i] == j;
      assert xs[i] == xs[1..][i - 1];
    }
  }

  /** A strictly ascending listing holds each of its keys once. */
  lemma {:induction false} AscendingOnce(xs: seq<string>, x: string)
    requires StrictlyAscending(xs)
    ensures multiset(xs)[x] == if x in xs then 1 else 0
    decreases |xs|
  {
    if xs != [] {
      assert xs == [xs[0]] + xs[1..];
      assert StrictlyAscending(xs[1..]);
      AscendingOnce(xs[1..], x);
      if x == xs[0] && x in xs[1..] {
        var i :| 1 <= i < |xs| && xs[i] == x;
        assert Below(xs[0], xs[i]);
        BelowIrreflexive(x);
      }
    }
  }

  /** The first key of a strictly ascending listing does not recur. */
  lemma FirstNotRepeated(xs: seq<string>)
    requires StrictlyAscending(xs) && xs != []
    ensures xs[0] !in xs[1..]
    ensures StrictlyAscending(xs[1..])
  {
    if xs[0] in xs[1..] {
      var i :| 1 <= i < |xs| && xs[i] == xs[0];
      assert Below(xs[0], xs[i]);
      BelowIrreflexive(xs[0]);
    }
  }

  /** Dropping one key from a listing keeps it ascending. */
  function Without(xs: seq<string>, k: string): (r: seq<string>)
    ensures forall j :: j in r <==> j in xs && j != k
    ensures forall i :: 0 <= i < |r| ==> exists p :: 0 <= p < |xs| && r[i] == xs[p]
  {
    if xs == [] then []
    else if xs[0] == k then Without(xs[1..], k)
    else [xs[0]] + Without(xs[1..], k)
  }

  lemma {:induction false} WithoutAscending(xs: seq<string>, k: string)
    requires StrictlyAscending(xs)
    ensures StrictlyAscending(Without(xs, k))
  {
    if xs != [] {
      assert StrictlyAscending(xs[1..]);
      WithoutAscending(xs[1..], k);
      var w := Without(xs[1..], k);
      forall j | j in w ensures Below(xs[0], j) {
        var i :| 1 <= i < |xs| && xs[i] == j;
      }
    }
  }

  lemma AscendingRemove(s: set<string>, k: string)
    ensures Ascending(s - {k}) == Without(Ascending(s), k)
  {
    WithoutAscending(Ascending(s), k);
    AscendingUnique(Without(Ascending(s), k), s - {k});
  }

  /** The keys of a map in ascending order, as iterating a `BTreeMap` yields them. */
  method SortedKeys<V>(m: map<string, V>) returns (ks: seq<string>)
    ensures ks == Ascending(m.Keys)
  {
    ks := [];
    var rest := m.Keys;
    while rest != {}
      invariant ks + Ascending(rest) == Ascending(m.Keys)
      decreases |rest|
    {
      LeastExists(rest);
      var k :| IsLeast(k, rest);
      SortedKeysStep(ks, rest, k, m.Keys);
      ks := ks + [k];
      rest := rest - {k};
    }
  }

  lemma SortedKeysStep(ks: seq<string>, rest: set<string>, k: string, all: set<string>)
    requires ks + Ascending(rest) == Ascending(all)
    requires IsLeast(k, rest)
    ensures (ks + [k]) + Ascending(rest - {k}) == Ascending(all)
  {
    AscendingFirst(rest, k);
    var tail := Ascending(rest - {k});
    Regroup(ks, k, tail);
  }

  lemma Regroup(ks: seq<string>, k: string, tail: seq<string>)
    ensures ks + ([k] + tail) == (ks + [k]) + tail
  {
  }

  /** Integers listed from smallest to largest: the order of a `BTreeMap<u32, _>`. */
  method SortedIds(s: set<U32>) returns (ids: seq<U32>)
    ensures forall id :: id in ids <==> id in s
    ensures forall i, j :: 0 <= i < j < |ids| ==> ids[i] < ids[j]
  {
    ids := [];
    var rest := s;
    while rest != {}
      invariant forall id :: id in s <==> id in ids || id in rest
      invariant forall i, j :: 0 <= i < j < |ids| ==> ids[i] < ids[j]
      invariant forall i, id :: 0 <= i < |ids| && id in rest ==> ids[i] < id
      decreases |rest|
    {
      SmallestExists(rest);
      var id :| IsSmallest(id, rest);
      ids := ids + [id];
      rest := rest - {id};
    }
  }

  predicate IsSmallest(id: U32, s: set<U32>)
  {
    id in s && forall j :: j in s ==> id <= j
  }

  lemma {:induction false} SmallestExists(s: set<U32>)
    requires s != {}
    ensures exists id :: IsSmallest(id, s)
    decreases |s|
  {
    var x :| x in s;
    if s == {x} {
      assert IsSmallest(x, s);
    } else {
      SmallestExists(s - {x});
      var m :| IsSmallest(m, s - {x});
      forall j | j in s
        ensures m <= j || x <= j
      {
        if j != x {
          assert j in s - {x};
        }
      }
      if m <= x {
        assert IsSmallest(m, s);
      } else {
        assert IsSmallest(x, s);
      }
    }
  }

  // ---------------------------------------------------------------------
  // u32 <-> decimal text
  // ---------------------------------------------------------------------

  predicate IsDigit(c: char)
  {
    '0' <= c <= '9'
  }

  function DigitChar(d: nat): char
    requires d < 10
  {
    (48 + d) as char
  }

  /** The value of a string of decimal digits. */
  function DigitsValue(s: string): nat
    requires forall i :: 0 <= i < |s| ==> IsDigit(s[i])
  {
    if s == [] then 0
    else assert IsDigit(s[|s| - 1]); DigitsValue(s[..|s| - 1]) * 10 + (s[|s| - 1] as int - '0' as int)
  }

  /** `u32::to_string`: decimal digits without leading zeros. */
  function Decimal(n: nat): (r: string)
    ensures |r| > 0
    ensures forall i :: 0 <= i < |r| ==> IsDigit(r[i])
    ensures DigitsValue(r) == n
  {
    if n < 10 then [DigitChar(n)]
    else
      var r := Decimal(n / 10) + [DigitChar(n % 10)];
      assert r[..|r| - 1] == Decimal(n / 10);
      r
  }

  /** `str::parse::<u32>`: an optional leading `+`, then at least one
      decimal digit and nothing else, with a value below 2^32 (leading
      zeros are accepted). */
  function ParseU32(s: string): (r: Outcome<U32>)
    ensures r.Ok? || r.Err?
  {
    var digits := if |s| > 0 && s[0] == '+' then s[1..] else s;
    if |digits| == 0 || (exists i :: 0 <= i < |digits| && !IsDigit(digits[i])) then Err(InvalidAppId)
    else if DigitsValue(digits) >= 0x1_0000_0000 then Err(InvalidAppId)
    else Ok(DigitsValue(digits))
  }

  lemma DecimalRoundTrip(n: U32)
    ensures ParseU32(Decimal(n)) == Ok(n)
  {
    assert Decimal(n)[0] != '+';
  }

  lemma DecimalInjective(a: U32, b: U32)
    requires Decimal(a) == Decimal(b)
    ensures a == b
  {
    DecimalRoundTrip(a);
    DecimalRoundTrip(b);
  }

  /** A key is in canonical form when it is exactly what `u32::to_string`
      prints for the number it parses to. */
  predicate IsCanonicalId(k: string)
  {
    ParseU32(k).Ok? && Decimal(ParseU32(k).value) == k
  }

  lemma DecimalIsCanonical(n: U32)
    ensures IsCanonicalId(Decimal(n))
  {
    DecimalRoundTrip(n);
  }

  lemma CanonicalIdsDistinct(k: string, k': string)
    requires IsCanonicalId(k) && IsCanonicalId(k') && k != k'
    ensures ParseU32(k).value != ParseU32(k').value
  {
  }

  // ---------------------------------------------------------------------
  // Whitespace and trimming
  // ---------------------------------------------------------------------

  /** `char::is_whitespace`: the Unicode White_Space property. */
  predicate IsWhitespace(c: char)
  {
    || '\U{0009}' <= c <= '\U{000D}'
    || c == '\U{0020}'
    || c == '\U{0085}'
    || c == '\U{00A0}'
    || c == '\U{1680}'
    || '\U{2000}' <= c <= '\U{200A}'
    || c == '\U{2028}'
    || c == '\U{2029}'
    || c == '\U{202F}'
    || c == '\U{205F}'
    || c == '\U{3000}'
  }

  function TrimStart(s: string): (r: string)
    ensures |r| <= |s|
  {
    if s != [] && IsWhitespace(s[0]) then TrimStart(s[1..]) else s
  }

  /** `trim_start` drops a whitespace prefix, and exactly the longest one. */
  lemma {:induction false} TrimStartDropsPrefix(s: string)
    ensures TrimStart(s) == s[|s| - |TrimStart(s)|..]
    ensures forall i :: 0 <= i < |s| - |TrimStart(s)| ==> IsWhitespace(s[i])
    ensures TrimStart(s) == [] || !IsWhitespace(TrimStart(s)[0])
  {
    if s != [] && IsWhitespace(s[0]) {
      TrimStartDropsPrefix(s[1..]);
    }
  }

  function TrimEnd(s: string): (r: string)
    ensures |r| <= |s|
  {
    if s != [] && IsWhitespace(s[|s| - 1]) then TrimEnd(s[..|s| - 1]) else s
  }

  /** `trim_end` drops a whitespace suffix, and exactly the longest one. */
  lemma {:induction false} TrimEndDropsSuffix(s: string)
    ensures TrimEnd(s) == s[..|TrimEnd(s)|]
    ensures forall i :: |TrimEnd(s)| <= i < |s| ==> IsWhitespace(s[i])
    ensures TrimEnd(s) == [] || !IsWhitespace(TrimEnd(s)[|TrimEnd(s)| - 1])
  {
    if s != [] && IsWhitespace(s[|s| - 1]) {
      TrimEndDropsSuffix(s[..|s| - 1]);
    }
  }

  /** `str::trim`: the string without leading and trailing whitespace. */
  function Trim(s: string): string
  {
    TrimEnd(TrimStart(s))
  }

  /** `s.trim().is_empty()`: the value the launch-option writer treats as
      a request to delete. */
  predicate IsBlank(s: string)
  {
    Trim(s) == []
  }

  /** The trimmed string is a slice of the input with only whitespace
      around it, and it neither starts nor ends with whitespace. */
  lemma TrimSlice(s: string)
    ensures exists i, j :: (0 <= i <= j <= |s| && Trim(s) == s[i..j]
      && (forall p :: 0 <= p < i ==> IsWhitespace(s[p]))
      && (forall p :: j <= p < |s| ==> IsWhitespace(s[p])))
    ensures Trim(s) == [] || (!IsWhitespace(Trim(s)[0]) && !IsWhitespace(Trim(s)[|Trim(s)| - 1]))
  {
    TrimStartDropsPrefix(s);
    var t := TrimStart(s);
    TrimEndDropsSuffix(t);
    var i := |s| - |t|;
    var u := TrimEnd(t);
    assert u == s[i..i + |u|];
    if u != [] {
      assert u[0] == t[0];
    }
    assert forall p :: i + |u| <= p < |s| ==> s[p] == t[p - i];
  }

  /** A value is blank exactly when every character is whitespace. */
  lemma BlankIffAllWhitespace(s: string)
    ensures IsBlank(s) <==> forall i :: 0 <= i < |s| ==> IsWhitespace(s[i])
  {
    TrimStartDropsPrefix(s);
    TrimEndDropsSuffix(TrimStart(s));
    if IsBlank(s) {
      assert TrimStart(s) == [];
    }
  }

  // ---------------------------------------------------------------------
  // Lower-casing and substring search
  // ---------------------------------------------------------------------

  function LowerChar(c: char): char
  {
    if 'A' <= c <= 'Z' then (c as int + 32) as char else c
  }

  /** `str::to_lowercase`, restricted to ASCII letters. */
  function Lower(s: string): (r: string)
    ensures |r| == |s|
    ensures forall i :: 0 <= i < |s| ==> r[i] == LowerChar(s[i])
  {
    seq(|s|, i requires 0 <= i < |s| => LowerChar(s[i]))
  }

  lemma LowerIdempotent(s: string)
    ensures Lower(Lower(s)) == Lower(s)
  {
  }

  /** Lower-casing neither creates nor removes whitespace. */
  lemma LowerKeepsWhitespace(c: char)
    ensures IsWhitespace(LowerChar(c)) == IsWhitespace(c)
  {
  }

  lemma {:induction false} TrimStartLower(s: string)
    ensures TrimStart(Lower(s)) == Lower(TrimStart(s))
  {
    if s != [] {
      LowerKeepsWhitespace(s[0]);
      if IsWhitespace(s[0]) {
        TrimStartLower(s[1..]);
        assert Lower(s)[1..] == Lower(s[1..]);
      }
    }
  }

  lemma {:induction false} TrimEndLower(s: string)
    ensures TrimEnd(Lower(s)) == Lower(TrimEnd(s))
  {
    if s != [] {
      LowerKeepsWhitespace(s[|s| - 1]);
      if IsWhitespace(s[|s| - 1]) {
        TrimEndLower(s[..|s| - 1]);
        assert Lower(s)[..|s| - 1] == Lower(s[..|s| - 1]);
      }
    }
  }

  /** Trimming and lower-casing can be done in either order. */
  lemma TrimLower(s: string)
    ensures Lower(Trim(s)) == Trim(Lower(s))
  {
    TrimStartLower(s);
    TrimEndLower(TrimStart(s));
  }

  function StartsWith(s: string, prefix: string): bool
  {
    |prefix| <= |s| && s[..|prefix|] == prefix
  }

  /** `str::contains` with a string pattern. */
  function Contains(haystack: string, needle: string): bool
    decreases |haystack|
  {
    StartsWith(haystack, needle) || (haystack != [] && Contains(haystack[1..], needle))
  }

  /** `needle` occurs in `haystack` starting at index `i`. */
  predicate OccursAt(haystack: string, needle: string, i: int)
  {
    0 <= i && i + |needle| <= |haystack| && haystack[i..i + |needle|] == needle
  }

  lemma {:induction false} ContainsIff(haystack: string, needle: string)
    ensures Contains(haystack, needle) <==> exists i :: OccursAt(haystack, needle, i)
    decreases |haystack|
  {
    if haystack != [] {
      ContainsIff(haystack[1..], needle);
      if Contains(haystack[1..], needle) && !StartsWith(haystack, needle) {
        var i :| OccursAt(haystack[1..], needle, i);
        assert haystack[i + 1..i + 1 + |needle|] == haystack[1..][i..i + |needle|];
        assert OccursAt(haystack, needle, i + 1);
      }
      if exists i :: OccursAt(haystack, needle, i) {
        var i :| OccursAt(haystack, needle, i);
        if i > 0 {
          assert haystack[1..][i - 1..i - 1 + |needle|] == haystack[i..i + |needle|];
          assert OccursAt(haystack[1..], needle, i - 1);
        }
      }
    } else {
      if exists i :: OccursAt(haystack, needle, i) {
        var i :| OccursAt(haystack, needle, i);
        assert haystack[..|needle|] == needle;
      }
    }
    if StartsWith(haystack, needle) {
      assert OccursAt(haystack, needle, 0);
    }
  }
}
