/**
  Models of the Python `str` built-ins that the core relies on: whitespace,
  `strip`, `split()[0]`, `startswith`, `endswith`, the substring test `in`,
  `replace`, `upper`, and the code-point ordering behind `sorted(set(...))`.
*/
module PyStr {

  // ---------------------------------------------------------------------
  // Whitespace, strip and split
  // ---------------------------------------------------------------------

  /** `c.isspace()`: the characters `strip()` and `split()` treat as whitespace. */
  predicate IsSpace(c: char) {
    ('\t' <= c <= '\r') || ('\U{1c}' <= c <= '\U{1f}') || c == ' '
    || c == '\U{85}' || c == '\U{a0}' || c == '\U{1680}'
    || ('\U{2000}' <= c <= '\U{200a}') || c == '\U{2028}' || c == '\U{2029}'
    || c == '\U{202f}' || c == '\U{205f}' || c == '\U{3000}'
  }

  /** On ASCII, `isspace()` holds exactly for space, tab, line feed, vertical tab, form feed, carriage return and the four separators 0x1c-0x1f. */
  lemma IsSpaceAscii(c: char)
    requires c < '\U{80}'
    ensures IsSpace(c) <==> c in " \t\n\U{b}\U{c}\r\U{1c}\U{1d}\U{1e}\U{1f}"
  {
  }

  /** `s.lstrip()` */
  function TrimLeft(s: string): (r: string)
    ensures |r| <= |s| && r == s[|s| - |r|..]
    ensures r == [] || !IsSpace(r[0])
    ensures forall i :: 0 <= i < |s| - |r| ==> IsSpace(s[i])
  {
    if s != [] && IsSpace(s[0]) then TrimLeft(s[1..]) else s
  }

  /** `s.rstrip()` */
  function TrimRight(s: string): (r: string)
    ensures |r| <= |s| && r == s[..|r|]
    ensures r == [] || !IsSpace(r[|r| - 1])
    ensures forall i :: |r| <= i < |s| ==> IsSpace(s[i])
  {
    if s != [] && IsSpace(s[|s| - 1]) then TrimRight(s[..|s| - 1]) else s
  }

  /** `s.strip()`: the longest infix with no whitespace at either end. */
  function Strip(s: string): (r: string)
    ensures r == [] <==> forall i :: 0 <= i < |s| ==> IsSpace(s[i])
    ensures r != [] ==> !IsSpace(r[0]) && !IsSpace(r[|r| - 1])
  {
    var l := TrimLeft(s);
    assert l != [] ==> !IsSpace(s[|s| - |l|]);
    TrimRight(l)
  }

  /** A prefix of a suffix is an infix. */
  lemma InnerSlice<T>(s: seq<T>, i: nat, n: nat)
    requires i + n <= |s|
    ensures s[i..][..n] == s[i..i + n]
  {
  }

  /** `s[..i]` and `s[j..]` are all whitespace. */
  predicate SpaceOutside(s: string, i: nat, j: nat)
    requires i <= j <= |s|
  {
    (forall k :: 0 <= k < i ==> IsSpace(s[k])) && (forall k :: j <= k < |s| ==> IsSpace(s[k]))
  }

  /** Where the stripped part sits in `s`: between a whitespace prefix and a whitespace suffix. */
  lemma StripSpan(s: string, l: string, r: string)
    requires |l| <= |s| && l == s[|s| - |l|..] && forall k :: 0 <= k < |s| - |l| ==> IsSpace(s[k])
    requires |r| <= |l| && r == l[..|r|] && forall k :: |r| <= k < |l| ==> IsSpace(l[k])
    ensures SpaceOutside(s, |s| - |l|, |s| - |l| + |r|) && r == s[|s| - |l|..|s| - |l| + |r|]
  {
    var i := |s| - |l|;
    InnerSlice(s, i, |r|);
    forall k | i + |r| <= k < |s|
      ensures IsSpace(s[k])
    {
      var c := l[k - i];
      assert s[k] == c;
      assert IsSpace(c);
    }
  }

  /** `strip()` removes exactly a whitespace prefix and a whitespace suffix: what remains is an infix of `s`. */
  lemma StripInfix(s: string)
    ensures exists i: nat, j: nat :: i <= j <= |s| && SpaceOutside(s, i, j) && Strip(s) == s[i..j]
  {
    var l := TrimLeft(s);
    var r := TrimRight(l);
    StripSpan(s, l, r);
    assert SpaceOutside(s, |s| - |l|, |s| - |l| + |r|) && Strip(s) == s[|s| - |l|..|s| - |l| + |r|];
  }

  /** A string with no whitespace at either end is its own strip. */
  lemma StripClean(s: string)
    requires s != [] && !IsSpace(s[0]) && !IsSpace(s[|s| - 1])
    ensures Strip(s) == s
  {
    assert TrimLeft(s) == s;
  }

  /** The leading run of non-whitespace characters of `s`. */
  function TakeToken(s: string): (r: string)
    ensures |r| <= |s| && r == s[..|r|]
    ensures forall i :: 0 <= i < |r| ==> !IsSpace(r[i])
    ensures |r| < |s| ==> IsSpace(s[|r|])
  {
    if s == [] || IsSpace(s[0]) then [] else [s[0]] + TakeToken(s[1..])
  }

  // ---------------------------------------------------------------------
  // Prefix, suffix and substring tests
  // ---------------------------------------------------------------------

  /** `s.startswith(p)`, compared character by character. */
  predicate StartsWith(s: string, p: string)
    decreases |p|
  {
    p == [] || (s != [] && s[0] == p[0] && StartsWith(s[1..], p[1..]))
  }

  /** `s` starts with `p` exactly when `p` is the prefix of `s` of its length. */
  lemma {:induction false} StartsWithPrefix(s: string, p: string)
    ensures StartsWith(s, p) <==> |p| <= |s| && s[..|p|] == p
    decreases |p|
  {
    if p != [] && s != [] {
      StartsWithPrefix(s[1..], p[1..]);
      if |p| <= |s| && s[..|p|] == p {
        assert s[1..][..|p| - 1] == p[1..];
      }
      if StartsWith(s, p) {
        assert s[..|p|] == [s[0]] + s[1..][..|p| - 1];
      }
    }
  }

  /** `s.endswith(p)` */
  function EndsWith(s: string, p: string): (r: bool)
    ensures r <==> |p| <= |s| && forall i :: 0 <= i < |p| ==> s[|s| - |p| + i] == p[i]
  {
    |p| <= |s| && s[|s| - |p|..] == p
  }

  /** `p in s` for strings: `p` occurs somewhere in `s`. */
  predicate Contains(s: string, p: string)
    decreases |s|
  {
    StartsWith(s, p) || (s != [] && Contains(s[1..], p))
  }

  lemma {:induction false} ContainsAt(s: string, p: string, k: nat)
    requires k + |p| <= |s| && s[k..k + |p|] == p
    ensures Contains(s, p)
  {
    if k == 0 {
      StartsWithPrefix(s, p);
    } else {
      assert s[1..][k - 1..k - 1 + |p|] == s[k..k + |p|];
      ContainsAt(s[1..], p, k - 1);
    }
  }

  /** `p` occurs in `s` starting at position `k`. */
  predicate OccursAt(s: string, p: string, k: nat) {
    k + |p| <= |s| && s[k..k + |p|] == p
  }

  /** `p in s` holds exactly when `p` occurs at some position of `s`. */
  lemma {:induction false} ContainsOccurs(s: string, p: string)
    ensures Contains(s, p) <==> exists k: nat :: OccursAt(s, p, k)
    decreases |s|
  {
    if k: nat :| OccursAt(s, p, k) {
      ContainsAt(s, p, k);
    }
    if Contains(s, p) {
      StartsWithPrefix(s, p);
      if StartsWith(s, p) {
        assert OccursAt(s, p, 0);
      } else {
        ContainsOccurs(s[1..], p);
        var k: nat :| OccursAt(s[1..], p, k);
        assert s[1..][k..k + |p|] == s[k + 1..k + 1 + |p|];
        assert OccursAt(s, p, k + 1);
      }
    }
  }

  // ---------------------------------------------------------------------
  // replace
  // ---------------------------------------------------------------------

  /** `s.replace(pat, rep)`: every non-overlapping occurrence, scanned left to right. */
  function ReplaceAll(s: string, pat: string, rep: string): (r: string)
    requires pat != []
    ensures rep == pat ==> r == s
    ensures |rep| == |pat| ==> |r| == |s|
    decreases |s|
  {
    if |s| < |pat| then s
    else if s[..|pat|] == pat then rep + ReplaceAll(s[|pat|..], pat, rep)
    else [s[0]] + ReplaceAll(s[1..], pat, rep)
  }

  /** A string without an occurrence of `pat` is left as it is. */
  lemma {:induction false} ReplaceAllAbsent(s: string, pat: string, rep: string)
    requires pat != []
    ensures !Contains(s, pat) ==> ReplaceAll(s, pat, rep) == s
  {
    if |s| >= |pat| {
      StartsWithPrefix(s, pat);
      ReplaceAllAbsent(s[1..], pat, rep);
    }
  }

  /** `p` overlaps itself: some proper suffix of `p` is also a prefix of `p`. */
  predicate SelfOverlapping(p: string) {
    exists k :: 0 < k < |p| && p[k..] == p[..|p| - k]
  }

  /**
    An occurrence of a pattern that cannot overlap itself, standing at the
    very end, is always one of the occurrences `replace` rewrites.
  */
  lemma {:induction false} ReplaceAllSuffix(s: string, pat: string, rep: string)
    requires pat != [] && !SelfOverlapping(pat)
    ensures ReplaceAll(s + pat, pat, rep) == ReplaceAll(s, pat, rep) + rep
    decreases |s|
  {
    var t := s + pat;
    if s == [] {
      assert t == pat && t[|pat|..] == [];
    } else if |s| >= |pat| {
      assert t[..|pat|] == s[..|pat|];
      if s[..|pat|] == pat {
        assert t[|pat|..] == s[|pat|..] + pat;
        ReplaceAllSuffix(s[|pat|..], pat, rep);
      } else {
        assert t[1..] == s[1..] + pat;
        ReplaceAllSuffix(s[1..], pat, rep);
      }
    } else {
      MatchAcrossEnd(s, pat);
      assert t[1..] == s[1..] + pat;
      ReplaceAllSuffix(s[1..], pat, rep);
    }
  }

  /** A short tail `s` followed by `pat` starts with `pat` only if `pat` overlaps itself. */
  lemma MatchAcrossEnd(s: string, pat: string)
    requires 0 < |s| < |pat|
    ensures (s + pat)[..|pat|] == pat ==> SelfOverlapping(pat)
  {
    var t, k := s + pat, |s|;
    if t[..|pat|] == pat {
      forall i | 0 <= i < |pat| - k
        ensures pat[k..][i] == pat[..|pat| - k][i]
      {
        assert t[k + i] == pat[k + i];
      }
      assert pat[k..] == pat[..|pat| - k];
    }
  }

  // ---------------------------------------------------------------------
  // upper
  // ---------------------------------------------------------------------

  /** `c.upper()` on the ASCII letters; every other character is kept. */
  function UpperChar(c: char): char {
    if 'a' <= c <= 'z' then (c as int - 32) as char else c
  }

  /** `s.upper()` */
  function UpperAscii(s: string): (r: string)
    ensures |r| == |s|
    ensures forall i :: 0 <= i < |s| ==> r[i] == UpperChar(s[i])
  {
    seq(|s|, i requires 0 <= i < |s| => UpperChar(s[i]))
  }

  // ---------------------------------------------------------------------
  // Ordering and sorted(set(...))
  // ---------------------------------------------------------------------

  /** `a < b` on Python strings: lexicographic by code point, a proper prefix first. */
  predicate Less(a: string, b: string) {
    |b| > 0 && (|a| == 0 || a[0] < b[0] || (a[0] == b[0] && Less(a[1..], b[1..])))
  }

  lemma {:induction false} LessIrreflexive(a: string)
    ensures !Less(a, a)
  {
    if |a| > 0 {
      LessIrreflexive(a[1..]);
    }
  }

  lemma {:induction false} LessTransitive(a: string, b: string, c: string)
    requires Less(a, b) && Less(b, c)
    ensures Less(a, c)
  {
    if |a| > 0 && a[0] == b[0] && b[0] == c[0] {
      LessTransitive(a[1..], b[1..], c[1..]);
    }
  }

  lemma {:induction false} LessTotal(a: string, b: string)
    ensures a == b || Less(a, b) || Less(b, a)
  {
    if |a| > 0 && |b| > 0 && a[0] == b[0] {
      LessTotal(a[1..], b[1..]);
      if a[1..] == b[1..] {
        assert a == [a[0]] + a[1..] && b == [b[0]] + b[1..];
      }
    }
  }

  lemma LessAsymmetric(a: string, b: string)
    requires Less(a, b)
    ensures !Less(b, a)
  {
    if Less(b, a) {
      LessTransitive(a, b, a);
      LessIrreflexive(a);
    }
  }

  /** Each element is strictly below every later one. */
  predicate StrictlySorted(xs: seq<string>) {
    forall i, j :: 0 <= i < j < |xs| ==> Less(xs[i], xs[j])
  }

  function Elements(xs: seq<string>): set<string> {
    set x | x in xs
  }

  lemma ElementsEmpty(xs: seq<string>)
    ensures Elements(xs) == {} <==> xs == []
  {
    if xs != [] {
      assert xs[0] in Elements(xs);
    }
  }

  /** A strictly ascending sequence has no duplicates. */
  lemma StrictlySortedDistinct(xs: seq<string>)
    requires StrictlySorted(xs)
    ensures forall i, j :: 0 <= i < |xs| && 0 <= j < |xs| && i != j ==> xs[i] != xs[j]
  {
    forall i, j | 0 <= i < |xs| && 0 <= j < |xs| && i != j
      ensures xs[i] != xs[j]
    {
      if i < j { LessIrreflexive(xs[i]); } else { LessIrreflexive(xs[j]); }
    }
  }

  /** Puts `x` into a strictly ascending sequence, keeping it strictly ascending. */
  function InsertSorted(xs: seq<string>, x: string): (r: seq<string>)
    requires StrictlySorted(xs)
    ensures StrictlySorted(r)
    ensures Elements(r) == Elements(xs) + {x}
  {
    if xs == [] then [x]
    else if x == xs[0] then xs
    else if Less(x, xs[0]) then
      PrependSorted(x, xs);
      [x] + xs
    else
      LessTotal(x, xs[0]);
      var rest := InsertSorted(xs[1..], x);
      AboveHead(xs, x, rest);
      PrependSorted(xs[0], rest);
      assert Elements(xs) == {xs[0]} + Elements(xs[1..]) by {
        assert xs == [xs[0]] + xs[1..];
      }
      assert Elements([xs[0]] + rest) == {xs[0]} + Elements(rest);
      [xs[0]] + rest
  }

  lemma AboveHead(xs: seq<string>, x: string, rest: seq<string>)
    requires StrictlySorted(xs) && xs != [] && Less(xs[0], x)
    requires Elements(rest) == Elements(xs[1..]) + {x}
    ensures forall y :: y in rest ==> Less(xs[0], y)
  {
    forall y | y in rest ensures Less(xs[0], y) {
      assert y in Elements(rest);
      if y != x {
        var j :| 0 <= j < |xs| - 1 && xs[1..][j] == y;
        assert xs[j + 1] == y;
      }
    }
  }

  lemma PrependSorted(x: string, xs: seq<string>)
    requires StrictlySorted(xs)
    requires xs != [] ==> Less(x, xs[0])
    ensures StrictlySorted([x] + xs)
  {
    forall j | 0 < j < |xs| ensures Less(x, xs[j]) {
      LessTransitive(x, xs[0], xs[j]);
    }
  }

  /** `sorted(set(xs))`: the distinct elements of `xs` in ascending order. */
  function SortedSet(xs: seq<string>): (r: seq<string>)
    ensures StrictlySorted(r)
    ensures Elements(r) == Elements(xs)
  {
    if xs == [] then []
    else
      var init := xs[..|xs| - 1];
      assert Elements(xs) == Elements(init) + {xs[|xs| - 1]} by {
        assert xs == init + [xs[|xs| - 1]];
      }
      InsertSorted(SortedSet(init), xs[|xs| - 1])
  }

  /**
    There is only one strictly ascending listing of a set of strings, so
    `SortedSet` is fully determined by its contract.
  */
  lemma {:induction false} StrictlySortedUnique(a: seq<string>, b: seq<string>)
    requires StrictlySorted(a) && StrictlySorted(b)
    requires Elements(a) == Elements(b)
    ensures a == b
  {
    ElementsEmpty(a);
    ElementsEmpty(b);
    if a != [] {
      assert a[0] in Elements(b) && b[0] in Elements(a);
      if a[0] != b[0] {
        var i :| 0 <= i < |a| && a[i] == b[0];
        var j :| 0 <= j < |b| && b[j] == a[0];
        assert Less(a[0], a[i]);
        assert Less(b[0], b[j]);
        LessAsymmetric(a[0], b[0]);
        assert false;
      }
      StrictlySortedDistinct(a);
      StrictlySortedDistinct(b);
      assert Elements(a[1..]) == Elements(a) - {a[0]} by {
        assert a == [a[0]] + a[1..];
      }
      assert Elements(b[1..]) == Elements(b) - {b[0]} by {
        assert b == [b[0]] + b[1..];
      }
      StrictlySortedUnique(a[1..], b[1..]);
      assert a == [a[0]] + a[1..] && b == [b[0]] + b[1..];
    }
  }
}
