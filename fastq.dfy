/**
  FASTQ read filtering: normalising scalar-or-pair thresholds, the GC
  percentage and mean Phred+33 quality of a read, and the filter that keeps
  the reads whose length, GC percentage and mean quality pass the
  thresholds. Percentages and means are exact rationals (`real`).
*/
module Fastq {
  import opened PyStr

  // -----------------------------------------------------------------------
  // Bounds
  // -----------------------------------------------------------------------

  /** A threshold given either as one number (an upper bound) or as a pair. */
  datatype Bounds = Scalar(b: real) | Range(lo: real, hi: real)

  /**
    `normalize_bounds`: a scalar is the upper bound over `defaultLow`, a pair
    is taken as given, and a reversed interval is swapped. `defaultHigh` is
    accepted but never consulted.
  */
  function NormalizeBounds(bounds: Bounds, defaultLow: real, defaultHigh: real): (r: (real, real))
    ensures r.0 <= r.1
    ensures bounds.Scalar? ==> multiset{r.0, r.1} == multiset{defaultLow, bounds.b}
    ensures bounds.Range? ==> multiset{r.0, r.1} == multiset{bounds.lo, bounds.hi}
    ensures bounds.Scalar? && defaultLow <= bounds.b ==> r == (defaultLow, bounds.b)
    ensures bounds.Range? && bounds.lo <= bounds.hi ==> r == (bounds.lo, bounds.hi)
  {
    var (low, high) := match bounds
      case Scalar(b) => (defaultLow, b)
      case Range(lo, hi) => (lo, hi);
    if high < low then (high, low) else (low, high)
  }

  // -----------------------------------------------------------------------
  // GC percentage
  // -----------------------------------------------------------------------

  /** Number of `G` and `C` characters, case-sensitive. */
  function CountGC(s: string): (n: nat)
    ensures n <= |s|
  {
    if s == [] then 0
    else CountGC(s[..|s| - 1]) + (if s[|s| - 1] == 'G' || s[|s| - 1] == 'C' then 1 else 0)
  }

  /** Number of guanine and cytosine letters in either case. */
  function CountGCAnyCase(s: string): (n: nat) {
    if s == [] then 0
    else CountGCAnyCase(s[..|s| - 1]) + (if s[|s| - 1] in "GCgc" then 1 else 0)
  }

  /** Counting in the upper-cased string counts G/C/g/c in the original. */
  lemma {:induction false} CountGCUpper(s: string)
    ensures CountGC(UpperAscii(s)) == CountGCAnyCase(s)
  {
    if s != [] {
      var init := s[..|s| - 1];
      assert UpperAscii(s)[..|s| - 1] == UpperAscii(init);
      CountGCUpper(init);
    }
  }

  /** `part` as a percentage of `whole`. */
  function Percent(part: nat, whole: nat): real
    requires whole > 0
  {
    100.0 * (part as real) / (whole as real)
  }

  /** The GC percentage `gc_percent` promises: 0 for an empty sequence. */
  function GcContent(s: string): real {
    if s == [] then 0.0 else Percent(CountGC(UpperAscii(s)), |s|)
  }

  /** `gc_percent`: counts G and C over the upper-cased sequence. */
  method GcPercent(sequence: string) returns (pct: real)
    ensures pct == GcContent(sequence)
  {
    if sequence == [] {
      return 0.0;
    }
    var s := UpperAscii(sequence);
    var gc := 0;
    for i := 0 to |s|
      invariant gc == CountGC(s[..i])
    {
      if s[i] == 'G' || s[i] == 'C' {
        gc := gc + 1;
      }
      assert s[..i + 1][..i] == s[..i];
    }
    assert s[..|s|] == s;
    pct := 100.0 * (gc as real) / (|s| as real);
    assert pct == Percent(gc, |s|);
  }

  lemma GcContentRange(s: string)
    ensures 0.0 <= GcContent(s) <= 100.0
  {
    if s != [] {
      PercentRange(CountGC(UpperAscii(s)), |s|);
    }
  }

  lemma PercentRange(part: nat, whole: nat)
    requires 0 < whole && part <= whole
    ensures 0.0 <= Percent(part, whole) <= 100.0
    ensures part == whole ==> Percent(part, whole) == 100.0
    ensures part == 0 ==> Percent(part, whole) == 0.0
  {
    var p, w := part as real, whole as real;
    assert 100.0 * p <= 100.0 * w;
    assert (100.0 * w) / w == 100.0;
  }

  /** The percentage depends on the letters only up to case. */
  lemma GcContentCaseInsensitive(s: string)
    ensures GcContent(s) == if s == [] then 0.0 else Percent(CountGCAnyCase(s), |s|)
  {
    CountGCUpper(s);
  }

  lemma {:induction false} CountGCAnyCaseAll(s: string)
    requires forall i :: 0 <= i < |s| ==> s[i] in "GCgc"
    ensures CountGCAnyCase(s) == |s|
  {
    if s != [] {
      CountGCAnyCaseAll(s[..|s| - 1]);
    }
  }

  lemma {:induction false} CountGCAnyCaseNone(s: string)
    requires forall i :: 0 <= i < |s| ==> s[i] !in "GCgc"
    ensures CountGCAnyCase(s) == 0
  {
    if s != [] {
      CountGCAnyCaseNone(s[..|s| - 1]);
    }
  }

  /** A non-empty sequence of G/C letters only is 100% GC. */
  lemma GcContentAllGC(s: string)
    requires s != [] && forall i :: 0 <= i < |s| ==> s[i] in "GCgc"
    ensures GcContent(s) == 100.0
  {
    CountGCUpper(s);
    CountGCAnyCaseAll(s);
    PercentRange(|s|, |s|);
  }

  /** A sequence without G/C letters (in particular the empty one) is 0% GC. */
  lemma GcContentNoGC(s: string)
    requires forall i :: 0 <= i < |s| ==> s[i] !in "GCgc"
    ensures GcContent(s) == 0.0
  {
    CountGCUpper(s);
    CountGCAnyCaseNone(s);
    if s != [] {
      PercentRange(0, |s|);
    }
  }

  // -----------------------------------------------------------------------
  // Mean Phred+33 quality
  // -----------------------------------------------------------------------

  /** The Phred score a quality character encodes: its code point minus 33, not clamped. */
  function Phred33(c: char): int {
    c as int - 33
  }

  function QualitySum(q: string): int {
    if q == [] then 0 else QualitySum(q[..|q| - 1]) + Phred33(q[|q| - 1])
  }

  /** The mean score `average_quality_phred33` promises: 0 for an empty string. */
  function MeanQuality(q: string): real {
    if q == [] then 0.0 else (QualitySum(q) as real) / (|q| as real)
  }

  /** `average_quality_phred33`: sums the scores, then divides by the length. */
  method AverageQualityPhred33(qual: string) returns (avg: real)
    ensures avg == MeanQuality(qual)
  {
    if qual == [] {
      return 0.0;
    }
    var total := 0;
    for i := 0 to |qual|
      invariant total == QualitySum(qual[..i])
    {
      total := total + (qual[i] as int - 33);
      assert qual[..i + 1][..i] == qual[..i];
    }
    assert qual[..|qual|] == qual;
    avg := (total as real) / (|qual| as real);
  }

  lemma {:induction false} QualitySumBounds(q: string, lo: int, hi: int)
    requires forall i :: 0 <= i < |q| ==> lo <= Phred33(q[i]) <= hi
    ensures lo * |q| <= QualitySum(q) <= hi * |q|
  {
    if q != [] {
      QualitySumBounds(q[..|q| - 1], lo, hi);
    }
  }

  /**
    The mean lies between the smallest and the largest score present; a
    character below `!` gives a negative score that is averaged as it is.
  */
  lemma MeanQualityBounds(q: string, lo: int, hi: int)
    requires q != []
    requires forall i :: 0 <= i < |q| ==> lo <= Phred33(q[i]) <= hi
    ensures lo as real <= MeanQuality(q) <= hi as real
  {
    QualitySumBounds(q, lo, hi);
    ScaleToReal(lo, |q|, QualitySum(q), hi);
    DivBounds(QualitySum(q) as real, lo as real, hi as real, |q| as real);
  }

  lemma ScaleToReal(lo: int, n: nat, sum: int, hi: int)
    requires lo * n <= sum <= hi * n
    ensures lo as real * n as real <= sum as real <= hi as real * n as real
  {
    assert (lo * n) as real == lo as real * n as real;
    assert (hi * n) as real == hi as real * n as real;
  }

  lemma DivBounds(a: real, lo: real, hi: real, n: real)
    requires n > 0.0 && lo * n <= a <= hi * n
    ensures lo <= a / n <= hi
  {
    assert (lo * n) / n == lo;
    assert (hi * n) / n == hi;
  }

  /** A quality string of one repeated character averages to that character's score. */
  lemma MeanQualityConstant(q: string, c: char)
    requires q != [] && forall i :: 0 <= i < |q| ==> q[i] == c
    ensures MeanQuality(q) == Phred33(c) as real
  {
    MeanQualityBounds(q, Phred33(c), Phred33(c));
  }

  // -----------------------------------------------------------------------
  // Reads and the filter
  // -----------------------------------------------------------------------

  datatype Read = Read(sequence: string, quality: string)

  /** One item of the read dictionary, in insertion order. */
  datatype Entry = Entry(id: string, read: Read)

  /** A Python dict from read id to read: its items in insertion order, ids unique. */
  predicate DistinctIds(m: seq<Entry>) {
    forall i, j :: 0 <= i < j < |m| ==> m[i].id != m[j].id
  }

  /** `m[k]` is the first entry of `m` with key `id`. */
  predicate FirstWithId(m: seq<Entry>, id: string, k: nat) {
    k < |m| && m[k].id == id && forall j :: 0 <= j < k ==> m[j].id != id
  }

  /** `m[id] = read` on an insertion-ordered dict: replace in place, or append a new key. */
  function Put(m: seq<Entry>, id: string, read: Read): (r: seq<Entry>)
    ensures (forall e :: e in m ==> e.id != id) ==> r == m + [Entry(id, read)]
    ensures Entry(id, read) in r
    ensures forall e :: e in r ==> e in m || e == Entry(id, read)
    ensures forall k: nat :: FirstWithId(m, id, k) ==> r == m[k := Entry(id, read)]
  {
    var e := Entry(id, read);
    if m == [] then [e]
    else if m[0].id == id then
      assert forall k: nat :: FirstWithId(m, id, k) ==> k == 0;
      assert [e] + m[1..] == m[0 := e];
      [e] + m[1..]
    else
      assert forall k: nat :: FirstWithId(m, id, k) ==>
        k > 0 && FirstWithId(m[1..], id, k - 1) && [m[0]] + m[1..][k - 1 := e] == m[k := e];
      [m[0]] + Put(m[1..], id, read)
  }

  const TwoTo32: real := 4294967296.0

  const DefaultGcBounds: Bounds := Range(0.0, 100.0)
  const DefaultLengthBounds: Bounds := Range(0.0, TwoTo32)
  const DefaultQualityThreshold: real := 0.0

  /** A read passes when its length and GC percentage are in range and its mean quality reaches the threshold. */
  predicate Passes(r: Read, gc: (real, real), len: (real, real), qMin: real) {
    && len.0 <= |r.sequence| as real <= len.1
    && gc.0 <= GcContent(r.sequence) <= gc.1
    && MeanQuality(r.quality) >= qMin
  }

  /** The entries that pass, in their original order. */
  function Select(m: seq<Entry>, gc: (real, real), len: (real, real), qMin: real): seq<Entry> {
    if m == [] then []
    else
      var last := m[|m| - 1];
      Select(m[..|m| - 1], gc, len, qMin) + (if Passes(last.read, gc, len, qMin) then [last] else [])
  }

  /** What `filter_fastq` returns, for thresholds as the caller gives them. */
  function FilterSpec(m: seq<Entry>, gcBounds: Bounds, lengthBounds: Bounds, qualityThreshold: real): seq<Entry> {
    Select(m, NormalizeBounds(gcBounds, 0.0, 100.0), NormalizeBounds(lengthBounds, 0.0, TwoTo32), qualityThreshold)
  }

  /** `filter_fastq`: one pass over the items, storing every read that passes. */
  method FilterFastq(seqs: seq<Entry>, gcBounds: Bounds, lengthBounds: Bounds, qualityThreshold: real)
    returns (result: seq<Entry>)
    requires DistinctIds(seqs)
    ensures result == FilterSpec(seqs, gcBounds, lengthBounds, qualityThreshold)
    ensures forall e :: e in result <==> e in seqs && Passes(e.read, NormalizeBounds(gcBounds, 0.0, 100.0),
                                                         NormalizeBounds(lengthBounds, 0.0, TwoTo32), qualityThreshold)
  {
    var (lowGc, highGc) := NormalizeBounds(gcBounds, 0.0, 100.0);
    var (lowLen, highLen) := NormalizeBounds(lengthBounds, 0.0, TwoTo32);
    var qMin := qualityThreshold;
    result := [];
    for i := 0 to |seqs|
      invariant result == Select(seqs[..i], (lowGc, highGc), (lowLen, highLen), qMin)
    {
      var Entry(readId, Read(sequence, quality)) := seqs[i];
      assert seqs[..i + 1][..i] == seqs[..i];
      var len := |sequence|;
      if !(lowLen <= len as real <= highLen) {
        continue;
      }
      var gc := GcPercent(sequence);
      if !(lowGc <= gc <= highGc) {
        continue;
      }
      var avgQ := AverageQualityPhred33(quality);
      if avgQ < qMin {
        continue;
      }
      SelectMembership(seqs[..i], (lowGc, highGc), (lowLen, highLen), qMin);
      forall e | e in result ensures e.id != readId {
        var j :| 0 <= j < i && seqs[j] == e;
      }
      result := Put(result, readId, Read(sequence, quality));
    }
    assert seqs[..|seqs|] == seqs;
    SelectMembership(seqs, (lowGc, highGc), (lowLen, highLen), qMin);
  }

  /** An entry is kept iff it is in the input and passes. */
  lemma {:induction false} SelectMembership(m: seq<Entry>, gc: (real, real), len: (real, real), qMin: real)
    ensures forall e :: e in Select(m, gc, len, qMin) <==> e in m && Passes(e.read, gc, len, qMin)
  {
    if m != [] {
      var init := m[..|m| - 1];
      SelectMembership(init, gc, len, qMin);
      assert m == init + [m[|m| - 1]];
    }
  }

  /** `a` is `b` with some entries left out, the rest in the same order. */
  predicate IsSubsequence<T(==)>(a: seq<T>, b: seq<T>)
    decreases |b|
  {
    if a == [] then true
    else if b == [] then false
    else if a[|a| - 1] == b[|b| - 1] then IsSubsequence(a[..|a| - 1], b[..|b| - 1])
    else IsSubsequence(a, b[..|b| - 1])
  }

  /** Filtering preserves the input order of the reads it keeps. */
  lemma {:induction false} SelectPreservesOrder(m: seq<Entry>, gc: (real, real), len: (real, real), qMin: real)
    ensures IsSubsequence(Select(m, gc, len, qMin), m)
  {
    if m != [] {
      var init, last := m[..|m| - 1], m[|m| - 1];
      SelectPreservesOrder(init, gc, len, qMin);
      var s := Select(init, gc, len, qMin);
      assert m == init + [last];
      if Passes(last.read, gc, len, qMin) {
        assert Select(m, gc, len, qMin) == s + [last];
        assert (s + [last])[..|s|] == s;
      } else {
        assert Select(m, gc, len, qMin) == s;
        SubsequenceSnoc(s, init, last);
      }
    }
  }

  lemma {:induction false} SubsequenceSnoc<T>(a: seq<T>, b: seq<T>, x: T)
    requires IsSubsequence(a, b)
    ensures IsSubsequence(a, b + [x])
    decreases |b|, 1
  {
    var bx := b + [x];
    assert bx[..|bx| - 1] == b;
    if a != [] && a[|a| - 1] == x {
      SubsequenceDropLast(a, b);
    }
  }

  lemma {:induction false} SubsequenceDropLast<T>(a: seq<T>, b: seq<T>)
    requires a != [] && IsSubsequence(a, b)
    ensures IsSubsequence(a[..|a| - 1], b)
    decreases |b|, 0
  {
    var a', b' := a[..|a| - 1], b[..|b| - 1];
    assert b == b' + [b[|b| - 1]];
    if a[|a| - 1] == b[|b| - 1] {
      SubsequenceSnoc(a', b', b[|b| - 1]);
    } else {
      SubsequenceDropLast(a, b');
      SubsequenceSnoc(a', b', b[|b| - 1]);
    }
  }

  /** Filtering a filtered collection with the same thresholds changes nothing. */
  lemma {:induction false} SelectIdempotent(m: seq<Entry>, gc: (real, real), len: (real, real), qMin: real)
    ensures Select(Select(m, gc, len, qMin), gc, len, qMin) == Select(m, gc, len, qMin)
  {
    if m != [] {
      var init, last := m[..|m| - 1], m[|m| - 1];
      var s := Select(init, gc, len, qMin);
      SelectIdempotent(init, gc, len, qMin);
      if Passes(last.read, gc, len, qMin) {
        assert Select(m, gc, len, qMin) == s + [last];
        assert (s + [last])[..|s|] == s;
      } else {
        assert Select(m, gc, len, qMin) == s;
      }
    }
  }

  lemma FilterIdempotent(m: seq<Entry>, gcBounds: Bounds, lengthBounds: Bounds, qualityThreshold: real)
    ensures var once := FilterSpec(m, gcBounds, lengthBounds, qualityThreshold);
            FilterSpec(once, gcBounds, lengthBounds, qualityThreshold) == once
  {
    SelectIdempotent(m, NormalizeBounds(gcBounds, 0.0, 100.0), NormalizeBounds(lengthBounds, 0.0, TwoTo32), qualityThreshold);
  }

  /** The filter's result is a dict again: kept ids stay unique. */
  lemma FilterKeepsIdsDistinct(m: seq<Entry>, gcBounds: Bounds, lengthBounds: Bounds, qualityThreshold: real)
    requires DistinctIds(m)
    ensures DistinctIds(FilterSpec(m, gcBounds, lengthBounds, qualityThreshold))
  {
    var gc, len := NormalizeBounds(gcBounds, 0.0, 100.0), NormalizeBounds(lengthBounds, 0.0, TwoTo32);
    SelectPreservesOrder(m, gc, len, qualityThreshold);
    SubsequenceDistinct(Select(m, gc, len, qualityThreshold), m);
  }

  lemma {:induction false} SubsequenceDistinct(a: seq<Entry>, b: seq<Entry>)
    requires IsSubsequence(a, b) && DistinctIds(b)
    ensures DistinctIds(a)
    decreases |b|
  {
    if a != [] && b != [] {
      if a[|a| - 1] == b[|b| - 1] {
        SubsequenceDistinct(a[..|a| - 1], b[..|b| - 1]);
        SubsequenceMembers(a[..|a| - 1], b[..|b| - 1]);
        forall i | 0 <= i < |a| - 1 ensures a[i].id != a[|a| - 1].id {
          assert a[..|a| - 1][i] in b[..|b| - 1];
        }
      } else {
        SubsequenceDistinct(a, b[..|b| - 1]);
      }
    }
  }

  lemma {:induction false} SubsequenceMembers<T>(a: seq<T>, b: seq<T>)
    requires IsSubsequence(a, b)
    ensures forall x :: x in a ==> x in b
    decreases |b|
  {
    if a != [] && b != [] {
      if a[|a| - 1] == b[|b| - 1] {
        SubsequenceMembers(a[..|a| - 1], b[..|b| - 1]);
        assert a == a[..|a| - 1] + [a[|a| - 1]];
      } else {
        SubsequenceMembers(a, b[..|b| - 1]);
      }
    }
  }

  /**
    With the default thresholds every read is kept whose length is at most
    2^32 and whose quality characters are all at or above `!`.
  */
  lemma {:induction false} DefaultsKeepWellFormedReads(m: seq<Entry>)
    requires forall e :: e in m ==> |e.read.sequence| as real <= TwoTo32
    requires forall e, i :: e in m && 0 <= i < |e.read.quality| ==> e.read.quality[i] >= '!'
    ensures FilterSpec(m, DefaultGcBounds, DefaultLengthBounds, DefaultQualityThreshold) == m
  {
    if m != [] {
      var init, last := m[..|m| - 1], m[|m| - 1];
      DefaultsKeepWellFormedReads(init);
      GcContentRange(last.read.sequence);
      if last.read.quality != [] {
        MeanQualityBounds(last.read.quality, 0, 0x10FFFF);
      }
      assert init + [last] == m;
    }
  }

  /** A worked example: the two-base read falls below the length bound. */
  lemma FilterExample()
    ensures FilterSpec([Entry("r1", Read("ATGC", "IIII")), Entry("r2", Read("AT", "II"))],
                       DefaultGcBounds, Range(3.0, 10.0), DefaultQualityThreshold)
         == [Entry("r1", Read("ATGC", "IIII"))]
  {
    var m := [Entry("r1", Read("ATGC", "IIII")), Entry("r2", Read("AT", "II"))];
    var gc, len := NormalizeBounds(DefaultGcBounds, 0.0, 100.0), NormalizeBounds(Range(3.0, 10.0), 0.0, TwoTo32);
    assert gc == (0.0, 100.0) && len == (3.0, 10.0);
    assert m[..1] == [m[0]] && m[..1][..0] == [];
    GcContentRange("ATGC");
    MeanQualityConstant("IIII", 'I');
    assert Passes(m[0].read, gc, len, 0.0);
    assert !Passes(m[1].read, gc, len, 0.0);
    assert Select(m[..1], gc, len, 0.0) == [m[0]];
  }
}
