/**
 * `re.finditer` for a pattern that never matches the empty string: try the
 * pattern at each position from left to right; after a match, resume at its
 * end. The pattern is given by its anchored matcher `at`, so these facts hold
 * whatever the pattern is.
 */
module Finditer {
  import opened Wrappers

  /** A match object: `match.start()` and `match.group(0)`. */
  datatype Match = Match(start: nat, raw: string) {
    /** `match.end()` */
    function End(): nat { start + |raw| }
  }

  /** `at(q)` is the match anchored at `q`, if any: it starts at `q`, is non-empty and fits in a text of length `n`. */
  ghost predicate Anchored(n: nat, at: nat -> Option<Match>) {
    forall q: nat :: at(q).Some? ==> at(q).value.start == q && q < at(q).value.End() <= n
  }

  /** The matches `re.finditer` yields from position `p` on. */
  function ScanFrom(n: nat, at: nat -> Option<Match>, p: nat): (ms: seq<Match>)
    requires p <= n && Anchored(n, at)
    ensures forall i :: 0 <= i < |ms| ==> p <= ms[i].start
    decreases n - p
  {
    if p == n then []
    else match at(p)
      case Some(m) => [m] + ScanFrom(n, at, m.End())
      case None => ScanFrom(n, at, p + 1)
  }

  ghost predicate NoMatchIn(at: nat -> Option<Match>, a: int, b: int) {
    forall q: nat :: a <= q < b ==> at(q).None?
  }

  /**
   * What a scan from `p` yields, stated without scanning: every element is the
   * match anchored at its own start, each starts at or after the end of the
   * previous one, and the pattern matches at no position the scan tries and
   * rejects (before the first match, between two, after the last).
   */
  ghost predicate IsLeftmostScan(n: nat, at: nat -> Option<Match>, p: nat, ms: seq<Match>) {
    && (forall i :: 0 <= i < |ms| ==> at(ms[i].start) == Some(ms[i]))
    && (ms != [] ==> p <= ms[0].start)
    && (forall i :: 0 <= i < |ms| - 1 ==> ms[i].End() <= ms[i + 1].start)
    && NoMatchIn(at, p, if ms == [] then n else ms[0].start)
    && (forall i :: 0 <= i < |ms| - 1 ==> NoMatchIn(at, ms[i].End(), ms[i + 1].start))
    && (ms != [] ==> NoMatchIn(at, ms[|ms| - 1].End(), n))
  }

  lemma ConsLeftmostScan(n: nat, at: nat -> Option<Match>, p: nat, m: Match, rest: seq<Match>)
    requires Anchored(n, at) && at(p) == Some(m) && IsLeftmostScan(n, at, m.End(), rest)
    ensures IsLeftmostScan(n, at, p, [m] + rest)
  {
    var ms := [m] + rest;
    forall i | 0 <= i < |ms| ensures at(ms[i].start) == Some(ms[i]) {
      if i > 0 {
        assert ms[i] == rest[i - 1];
      }
    }
    forall i | 0 <= i < |ms| - 1
      ensures ms[i].End() <= ms[i + 1].start && NoMatchIn(at, ms[i].End(), ms[i + 1].start)
    {
      assert ms[i + 1] == rest[i];
      if i > 0 {
        assert ms[i] == rest[i - 1];
      }
    }
    assert ms[|ms| - 1] == if rest == [] then m else rest[|rest| - 1];
  }

  lemma UnconsLeftmostScan(n: nat, at: nat -> Option<Match>, p: nat, ms: seq<Match>)
    requires Anchored(n, at) && ms != [] && IsLeftmostScan(n, at, p, ms)
    ensures IsLeftmostScan(n, at, ms[0].End(), ms[1..])
  {
    var rest := ms[1..];
    forall i | 0 <= i < |rest| - 1
      ensures rest[i].End() <= rest[i + 1].start && NoMatchIn(at, rest[i].End(), rest[i + 1].start)
    {
      assert rest[i] == ms[i + 1] && rest[i + 1] == ms[i + 2];
    }
    if rest != [] {
      assert rest[0] == ms[1];
      assert rest[|rest| - 1] == ms[|ms| - 1];
    }
  }

  /** The scan meets IsLeftmostScan. */
  lemma {:induction false} ScanFromIsLeftmostScan(n: nat, at: nat -> Option<Match>, p: nat)
    requires p <= n && Anchored(n, at)
    ensures IsLeftmostScan(n, at, p, ScanFrom(n, at, p))
    decreases n - p
  {
    if p == n {
      assert ScanFrom(n, at, p) == [];
    } else if at(p).Some? {
      var m := at(p).value;
      ScanFromIsLeftmostScan(n, at, m.End());
      assert ScanFrom(n, at, p) == [m] + ScanFrom(n, at, m.End());
      ConsLeftmostScan(n, at, p, m, ScanFrom(n, at, m.End()));
    } else {
      ScanFromIsLeftmostScan(n, at, p + 1);
      assert ScanFrom(n, at, p) == ScanFrom(n, at, p + 1);
    }
  }

  /** Only the scan meets IsLeftmostScan: the two definitions agree. */
  lemma {:induction false} LeftmostScanIsScanFrom(n: nat, at: nat -> Option<Match>, p: nat, ms: seq<Match>)
    requires p <= n && Anchored(n, at) && IsLeftmostScan(n, at, p, ms)
    ensures ms == ScanFrom(n, at, p)
    decreases n - p
  {
    if ms != [] {
      assert at(ms[0].start) == Some(ms[0]);
    }
    if p == n {
      assert ms == [];
    } else if ms != [] && ms[0].start == p {
      var m := ms[0];
      UnconsLeftmostScan(n, at, p, ms);
      LeftmostScanIsScanFrom(n, at, m.End(), ms[1..]);
      assert ms == [m] + ms[1..];
    } else {
      assert at(p).None?;
      LeftmostScanIsScanFrom(n, at, p + 1, ms);
    }
  }

  /** `a` is non-empty and ends at or before `b` starts. */
  ghost predicate Precedes(a: Match, b: Match) {
    a.start < a.End() <= b.start
  }

  /** Matches do not overlap and their starts strictly increase. */
  ghost predicate Ordered(ms: seq<Match>) {
    forall i, j :: 0 <= i < j < |ms| ==> Precedes(ms[i], ms[j])
  }

  lemma ConsOrdered(m: Match, rest: seq<Match>)
    requires m.start < m.End() && Ordered(rest)
    requires forall k :: 0 <= k < |rest| ==> m.End() <= rest[k].start
    ensures Ordered([m] + rest)
  {
    var ms := [m] + rest;
    forall i, j | 0 <= i < j < |ms| ensures Precedes(ms[i], ms[j]) {
      assert ms[j] == rest[j - 1];
      if i > 0 {
        assert ms[i] == rest[i - 1];
      }
    }
  }

  lemma {:induction false} ScanFromOrdered(n: nat, at: nat -> Option<Match>, p: nat)
    requires p <= n && Anchored(n, at)
    ensures Ordered(ScanFrom(n, at, p))
    decreases n - p
  {
    if p == n {
      assert ScanFrom(n, at, p) == [];
    } else if at(p).Some? {
      var m := at(p).value;
      ScanFromOrdered(n, at, m.End());
      var rest := ScanFrom(n, at, m.End());
      assert ScanFrom(n, at, p) == [m] + rest;
      ConsOrdered(m, rest);
    } else {
      ScanFromOrdered(n, at, p + 1);
      assert ScanFrom(n, at, p) == ScanFrom(n, at, p + 1);
    }
  }
}
