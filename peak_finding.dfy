// A model of the peak search that the technical-analysis tool borrows from
// SciPy (`find_peaks(x, distance=d)`): local maxima of a sampled signal,
// thinned so that no two survivors lie closer than `d` samples.
//
// The contract of FindPeaks states what the call sites rely on and nothing
// more: the indices increase, each one is an interior local maximum
// (plateaus allowed), any two are at least `d` apart, and every strict
// local maximum that was dropped lies within `d` of a kept peak that is at
// least as high.  Where a plateau's peak is placed and which of two equally
// high peaks wins are fixed by the executable definition below but are
// deliberately not part of the contract.

module PeakFinding {

  /** Distance between two sample indices. */
  function Dist(p: int, q: int): nat {
    if p <= q then q - p else p - q
  }

  predicate StrictlyIncreasing(s: seq<nat>) {
    forall i, j :: 0 <= i < j < |s| ==> s[i] < s[j]
  }

  /** Putting a smaller index in front keeps a sequence increasing. */
  lemma PrependIncreasing(a: nat, s: seq<nat>)
    requires StrictlyIncreasing(s)
    requires forall q :: q in s ==> a < q
    ensures StrictlyIncreasing([a] + s)
  {
    forall i, j | 0 <= i < j < |[a] + s| ensures ([a] + s)[i] < ([a] + s)[j] {
      if i == 0 {
        assert s[j - 1] in s;
      }
    }
  }

  /** Every index in s addresses a sample of a signal of length n. */
  predicate AllBelow(s: seq<nat>, n: nat) {
    forall q :: q in s ==> q < n
  }

  // ---------------------------------------------------------------------
  // What a peak is

  /** x[l..r+1] is a flat run holding index i, strictly inside x, entered
      by a strict rise and left by a strict fall. */
  predicate IsPlateauPeak(x: seq<real>, i: int, l: int, r: int) {
    0 < l <= i <= r < |x| - 1 &&
    x[l - 1] < x[l] && x[r + 1] < x[r] &&
    forall k :: l <= k <= r ==> x[k] == x[l]
  }

  /** i lies on a (possibly one-sample wide) local maximum of x. */
  ghost predicate IsLocalMax(x: seq<real>, i: int) {
    exists l, r :: IsPlateauPeak(x, i, l, r)
  }

  /** i is higher than both of its neighbours. */
  predicate IsStrictLocalMax(x: seq<real>, i: int) {
    0 < i < |x| - 1 && x[i - 1] < x[i] && x[i + 1] < x[i]
  }

  /** The trough-side counterparts of the two predicates above. */
  predicate IsPlateauTrough(x: seq<real>, i: int, l: int, r: int) {
    0 < l <= i <= r < |x| - 1 &&
    x[l - 1] > x[l] && x[r + 1] > x[r] &&
    forall k :: l <= k <= r ==> x[k] == x[l]
  }

  ghost predicate IsLocalMin(x: seq<real>, i: int) {
    exists l, r :: IsPlateauTrough(x, i, l, r)
  }

  predicate IsStrictLocalMin(x: seq<real>, i: int) {
    0 < i < |x| - 1 && x[i - 1] > x[i] && x[i + 1] > x[i]
  }

  /** A local maximum is strictly inside the signal and no lower than
      either neighbour. */
  lemma LocalMaxNeighbours(x: seq<real>, i: int)
    requires IsLocalMax(x, i)
    ensures 0 < i < |x| - 1 && x[i - 1] <= x[i] && x[i + 1] <= x[i]
  {
    var l, r :| IsPlateauPeak(x, i, l, r);
    if l < i {
      assert x[i - 1] == x[l] == x[i];
    }
    if i < r {
      assert x[i + 1] == x[l] == x[i];
    }
  }

  /** The sample-wise negation of a signal. */
  function Negate(x: seq<real>): (y: seq<real>)
    ensures |y| == |x|
  {
    seq(|x|, k requires 0 <= k < |x| => -x[k])
  }

  /** Troughs of x are exactly the peaks of its negation, plateaus included. */
  lemma NegatedPeakIsTrough(x: seq<real>, i: int)
    ensures IsLocalMax(Negate(x), i) <==> IsLocalMin(x, i)
    ensures IsStrictLocalMax(Negate(x), i) <==> IsStrictLocalMin(x, i)
  {
    var y := Negate(x);
    if IsLocalMax(y, i) {
      var l, r :| IsPlateauPeak(y, i, l, r);
      assert forall k :: l <= k <= r ==> x[k] == -y[k];
      assert IsPlateauTrough(x, i, l, r);
    }
    if IsLocalMin(x, i) {
      var l, r :| IsPlateauTrough(x, i, l, r);
      assert IsPlateauPeak(y, i, l, r);
    }
  }

  // ---------------------------------------------------------------------
  // Candidate peaks: one left-to-right scan

  /** The first index at or after j where the run of samples equal to x[i]
      stops, never looking past the last sample. */
  function PlateauEnd(x: seq<real>, i: nat, j: nat): (e: nat)
    requires i < j <= |x| - 1
    ensures j <= e <= |x| - 1
    decreases |x| - j
  {
    if j < |x| - 1 && x[j] == x[i] then PlateauEnd(x, i, j + 1) else j
  }

  /** The run from i up to PlateauEnd is flat, and it ends on a different
      sample unless it reached the last one. */
  lemma {:induction false} PlateauEndIsRunEnd(x: seq<real>, i: nat, j: nat)
    requires i < j <= |x| - 1
    requires forall k :: i <= k < j ==> x[k] == x[i]
    ensures var e := PlateauEnd(x, i, j);
      (forall k :: i <= k < e ==> x[k] == x[i]) && (e < |x| - 1 ==> x[e] != x[i])
    decreases |x| - j
  {
    if j < |x| - 1 && x[j] == x[i] {
      PlateauEndIsRunEnd(x, i, j + 1);
    }
  }

  /** Candidate peaks found by scanning from index i on: every rising edge
      followed by a flat run and a strict fall gives one candidate, at the
      middle of the run (rounded down). */
  function Candidates(x: seq<real>, i: nat): seq<nat>
    requires 1 <= i
    decreases |x| - i
  {
    if i >= |x| - 1 then []
    else if x[i - 1] < x[i] then
      var e := PlateauEnd(x, i, i + 1);
      if x[e] < x[i] then [(i + e - 1) / 2] + Candidates(x, e + 1)
      else Candidates(x, i + 1)
    else
      Candidates(x, i + 1)
  }

  /** A flat run x[i..e] entered by a rise and left by a fall holds a local
      maximum at its middle, and no strict local maximum elsewhere. */
  lemma RunPeak(x: seq<real>, i: nat, e: nat)
    requires 1 <= i < e <= |x| - 1
    requires x[i - 1] < x[i] && x[e] < x[i]
    requires forall k :: i <= k < e ==> x[k] == x[i]
    ensures IsLocalMax(x, (i + e - 1) / 2)
    ensures forall q :: i <= q <= e && IsStrictLocalMax(x, q) ==> q == (i + e - 1) / 2
  {
    assert IsPlateauPeak(x, (i + e - 1) / 2, i, e - 1);
  }

  /** The candidates lie strictly inside the scanned range, in increasing
      order. */
  lemma {:induction false} CandidatesIncrease(x: seq<real>, i: nat)
    requires 1 <= i
    ensures StrictlyIncreasing(Candidates(x, i))
    ensures forall q :: q in Candidates(x, i) ==> i <= q < |x| - 1
    decreases |x| - i
  {
    if i < |x| - 1 {
      if x[i - 1] < x[i] {
        var e := PlateauEnd(x, i, i + 1);
        CandidatesIncrease(x, e + 1);
        if x[e] < x[i] {
          var mid, rest := (i + e - 1) / 2, Candidates(x, e + 1);
          PrependIncreasing(mid, rest);
          assert forall q :: q in [mid] + rest ==> q == mid || q in rest;
        } else {
          CandidatesIncrease(x, i + 1);
        }
      } else {
        CandidatesIncrease(x, i + 1);
      }
    }
  }

  /** Every candidate lies on a local maximum. */
  lemma {:induction false} CandidatesAreLocalMaxima(x: seq<real>, i: nat)
    requires 1 <= i
    ensures forall q :: q in Candidates(x, i) ==> IsLocalMax(x, q)
    decreases |x| - i
  {
    if i < |x| - 1 {
      if x[i - 1] < x[i] {
        var e := PlateauEnd(x, i, i + 1);
        if x[e] < x[i] {
          var mid, rest := (i + e - 1) / 2, Candidates(x, e + 1);
          PlateauEndIsRunEnd(x, i, i + 1);
          RunPeak(x, i, e);
          CandidatesAreLocalMaxima(x, e + 1);
          assert forall q :: q in [mid] + rest ==> q == mid || q in rest;
        } else {
          CandidatesAreLocalMaxima(x, i + 1);
        }
      } else {
        CandidatesAreLocalMaxima(x, i + 1);
      }
    }
  }

  /** No strict local maximum at or after i is missed by the scan. */
  lemma {:induction false} CandidatesCoverStrictMaxima(x: seq<real>, i: nat)
    requires 1 <= i
    ensures forall q :: i <= q && IsStrictLocalMax(x, q) ==> q in Candidates(x, i)
    decreases |x| - i
  {
    if i < |x| - 1 {
      if x[i - 1] < x[i] {
        var e := PlateauEnd(x, i, i + 1);
        PlateauEndIsRunEnd(x, i, i + 1);
        if x[e] < x[i] {
          var mid, rest := (i + e - 1) / 2, Candidates(x, e + 1);
          RunPeak(x, i, e);
          CandidatesCoverStrictMaxima(x, e + 1);
          assert forall q :: q in rest ==> q in [mid] + rest;
        } else {
          CandidatesCoverStrictMaxima(x, i + 1);
          assert !IsStrictLocalMax(x, i) by {
            if i + 1 < e { assert x[i + 1] == x[i]; }
          }
        }
      } else {
        CandidatesCoverStrictMaxima(x, i + 1);
      }
    }
  }

  // ---------------------------------------------------------------------
  // Thinning by distance: highest candidate first

  /** An index in s whose sample is highest; the earliest one on ties. */
  function Highest(x: seq<real>, s: seq<nat>): (h: nat)
    requires |s| > 0 && AllBelow(s, |x|)
    ensures h in s
  {
    if |s| == 1 then s[0]
    else
      assert s[0] in s && forall q :: q in s[1..] ==> q in s;
      var t := Highest(x, s[1..]);
      if x[s[0]] >= x[t] then s[0] else t
  }

  /** No index of s has a higher sample than Highest. */
  lemma {:induction false} HighestIsMaximal(x: seq<real>, s: seq<nat>)
    requires |s| > 0 && AllBelow(s, |x|)
    ensures forall q :: q in s ==> x[q] <= x[Highest(x, s)]
  {
    if |s| > 1 {
      assert forall q :: q in s[1..] ==> q in s;
      HighestIsMaximal(x, s[1..]);
      assert forall q :: q in s ==> q == s[0] || q in s[1..];
    }
  }

  /** The indices of s that lie at least d samples away from p, in order. */
  function DropNear(s: seq<nat>, p: nat, d: nat): (r: seq<nat>)
    ensures forall q :: q in r ==> q in s
    ensures |r| <= |s|
    ensures p in s && d > 0 ==> |r| < |s|
  {
    if s == [] then []
    else
      assert forall q :: q in s[1..] ==> q in s;
      var t := DropNear(s[1..], p, d);
      if Dist(p, s[0]) >= d then
        assert forall q :: q in [s[0]] + t ==> q == s[0] || q in t;
        [s[0]] + t
      else t
  }

  /** DropNear keeps exactly the indices of s at distance d or more from p. */
  lemma {:induction false} DropNearKeepsFar(s: seq<nat>, p: nat, d: nat)
    ensures forall q :: q in DropNear(s, p, d) <==> q in s && Dist(p, q) >= d
  {
    if s != [] {
      DropNearKeepsFar(s[1..], p, d);
      assert forall q :: q in s <==> q == s[0] || q in s[1..];
    }
  }

  /** No two indices of k are closer than d. */
  predicate Spaced(k: set<nat>, d: nat) {
    forall p, q :: p in k && q in k && p != q ==> Dist(p, q) >= d
  }

  /** Every member of cands outside k lies within d of a member of k whose
      sample is at least as high. */
  predicate Dominated(x: seq<real>, cands: set<nat>, k: set<nat>, d: nat)
    requires forall q :: q in cands ==> q < |x|
    requires k <= cands
  {
    forall q :: q in cands && q !in k ==>
      exists p :: p in k && Dist(p, q) < d && x[q] <= x[p]
  }

  /** The state of the thinning: candidates are pending, kept, or dropped
      next to a kept one at least as high; the kept ones are spaced out and
      far from every pending one. */
  predicate Thinning(x: seq<real>, d: nat, pending: seq<nat>, kept: set<nat>, cands: set<nat>) {
    (forall q :: q in cands ==> q < |x|) &&
    (forall q :: q in pending ==> q in cands) &&
    kept <= cands && Spaced(kept, d) &&
    (forall p, q :: p in kept && q in pending ==> Dist(p, q) >= d) &&
    (forall q :: q in cands && q !in pending && q !in kept ==>
       exists p :: p in kept && Dist(p, q) < d && x[q] <= x[p])
  }

  /** The greedy thinning: keep the highest pending candidate, discard the
      pending candidates closer than d to it, repeat until none is pending. */
  function Select(x: seq<real>, d: nat, pending: seq<nat>, kept: set<nat>): set<nat>
    requires d > 0 && AllBelow(pending, |x|)
    decreases |pending|
  {
    if pending == [] then kept
    else
      var h := Highest(x, pending);
      Select(x, d, DropNear(pending, h, d), kept + {h})
  }

  /** Keeping the highest pending candidate and dropping its near
      neighbours preserves the state of the thinning. */
  lemma ThinningStep(x: seq<real>, d: nat, pending: seq<nat>, kept: set<nat>, cands: set<nat>, h: nat)
    requires d > 0 && Thinning(x, d, pending, kept, cands)
    requires h in pending && forall q :: q in pending ==> x[q] <= x[h]
    requires forall q :: q in DropNear(pending, h, d) <==> q in pending && Dist(h, q) >= d
    ensures Thinning(x, d, DropNear(pending, h, d), kept + {h}, cands)
  {
    var rest, kept' := DropNear(pending, h, d), kept + {h};
    assert Spaced(kept', d) by {
      forall p, q | p in kept' && q in kept' && p != q ensures Dist(p, q) >= d {
        if p == h { assert q in kept; } else if q == h { assert p in kept; }
      }
    }
    assert forall p, q :: p in kept' && q in rest ==> Dist(p, q) >= d by {
      forall p, q | p in kept' && q in rest ensures Dist(p, q) >= d {
        if p != h { assert q in pending; }
      }
    }
    forall q | q in cands && q !in rest && q !in kept'
      ensures exists p :: p in kept' && Dist(p, q) < d && x[q] <= x[p]
    {
      if q in pending {
        assert h in kept' && Dist(h, q) < d && x[q] <= x[h];
      } else {
        var p :| p in kept && Dist(p, q) < d && x[q] <= x[p];
        assert p in kept';
      }
    }
  }

  /** The thinning ends with a spaced-out set that dominates every
      candidate it dropped. */
  lemma {:induction false} SelectIsSpacedAndDominating(x: seq<real>, d: nat, pending: seq<nat>, kept: set<nat>, cands: set<nat>)
    requires d > 0 && Thinning(x, d, pending, kept, cands)
    ensures AllBelow(pending, |x|)
    ensures var k := Select(x, d, pending, kept);
      k <= cands && Spaced(k, d) && Dominated(x, cands, k, d)
    decreases |pending|
  {
    if pending != [] {
      var h := Highest(x, pending);
      HighestIsMaximal(x, pending);
      DropNearKeepsFar(pending, h, d);
      ThinningStep(x, d, pending, kept, cands, h);
      SelectIsSpacedAndDominating(x, d, DropNear(pending, h, d), kept + {h}, cands);
    }
  }

  /** The members of c that belong to k, in the order of c. */
  function Restrict(c: seq<nat>, k: set<nat>): seq<nat> {
    if c == [] then []
    else if c[0] in k then [c[0]] + Restrict(c[1..], k)
    else Restrict(c[1..], k)
  }

  /** Restrict keeps exactly the members of k, and keeps them in order. */
  lemma {:induction false} RestrictFilters(c: seq<nat>, k: set<nat>)
    requires StrictlyIncreasing(c)
    ensures forall q :: q in Restrict(c, k) <==> q in c && q in k
    ensures StrictlyIncreasing(Restrict(c, k))
  {
    if c != [] {
      RestrictFilters(c[1..], k);
      assert forall q :: q in c <==> q == c[0] || q in c[1..];
      assert forall q :: q in c[1..] ==> c[0] < q;
      if c[0] in k {
        PrependIncreasing(c[0], Restrict(c[1..], k));
      }
    }
  }

  /** In an increasing sequence drawn from a spaced set, neighbours and all
      later elements are at least d further on. */
  lemma SpacedIncreasing(r: seq<nat>, k: set<nat>, d: nat)
    requires StrictlyIncreasing(r) && Spaced(k, d)
    requires forall q :: q in r ==> q in k
    ensures forall i, j :: 0 <= i < j < |r| ==> r[j] - r[i] >= d
  {
    forall i, j | 0 <= i < j < |r| ensures r[j] - r[i] >= d {
      assert r[i] in r && r[j] in r;
    }
  }

  /** Index q of x lies within d of an index listed in r whose sample is at
      least as high. */
  ghost predicate Covered(x: seq<real>, r: seq<nat>, q: int, d: nat) {
    0 <= q < |x| &&
    exists j :: 0 <= j < |r| && r[j] < |x| && Dist(r[j], q) < d && x[q] <= x[r[j]]
  }

  /** The dominance of Select, restated over the ordered survivors. */
  lemma DominanceByIndex(x: seq<real>, c: seq<nat>, cands: set<nat>, k: set<nat>, r: seq<nat>, d: nat)
    requires forall q :: q in cands <==> q in c
    requires forall q :: q in cands ==> q < |x|
    requires k <= cands && Dominated(x, cands, k, d)
    requires forall q :: q in r <==> q in c && q in k
    requires forall j :: 0 <= j < |r| ==> r[j] < |x|
    ensures forall q :: q in c && q !in r ==> Covered(x, r, q, d)
  {
    forall q | q in c && q !in r
      ensures Covered(x, r, q, d)
    {
      var p :| p in k && Dist(p, q) < d && x[q] <= x[p];
      assert p in r;
      var j :| 0 <= j < |r| && r[j] == p;
    }
  }

  /** The survivors, in index order, have every property FindPeaks promises. */
  lemma SurvivorsArePeaks(x: seq<real>, d: nat, c: seq<nat>, cands: set<nat>, k: set<nat>, r: seq<nat>)
    requires forall q :: q in cands <==> q in c
    requires forall q :: q in c ==> 1 <= q < |x| - 1 && IsLocalMax(x, q)
    requires forall q :: 1 <= q && IsStrictLocalMax(x, q) ==> q in c
    requires k <= cands && Spaced(k, d) && Dominated(x, cands, k, d)
    requires StrictlyIncreasing(r) && forall q :: q in r <==> q in c && q in k
    ensures forall j :: 0 <= j < |r| ==> 0 < r[j] < |x| - 1 && IsLocalMax(x, r[j])
    ensures forall i, j :: 0 <= i < j < |r| ==> r[j] - r[i] >= d
    ensures forall q :: IsStrictLocalMax(x, q) && q !in r ==> Covered(x, r, q, d)
  {
    assert forall j :: 0 <= j < |r| ==> r[j] in c;
    SpacedIncreasing(r, k, d);
    DominanceByIndex(x, c, cands, k, r, d);
  }

  /** Before any thinning every candidate is pending. */
  lemma ThinningStart(x: seq<real>, d: nat, c: seq<nat>, cands: set<nat>)
    requires forall q :: q in cands <==> q in c
    requires forall q :: q in c ==> q < |x|
    ensures Thinning(x, d, c, {}, cands)
  {
  }

  /** The scan yields local maxima covering every strict one, and the
      thinning keeps a spaced-out subset of them dominating the rest. */
  lemma ScanAndThin(x: seq<real>, d: nat)
    requires d >= 1
    ensures var c := Candidates(x, 1);
      StrictlyIncreasing(c) && AllBelow(c, |x|) &&
      (forall q :: q in c ==> 1 <= q < |x| - 1 && IsLocalMax(x, q)) &&
      (forall q :: 1 <= q && IsStrictLocalMax(x, q) ==> q in c)
    ensures var c := Candidates(x, 1);
      var cands, k := (set q | q in c), Select(x, d, c, {});
      k <= cands && Spaced(k, d) && Dominated(x, cands, k, d)
  {
    var c := Candidates(x, 1);
    CandidatesIncrease(x, 1);
    CandidatesAreLocalMaxima(x, 1);
    CandidatesCoverStrictMaxima(x, 1);
    var cands := set q | q in c;
    ThinningStart(x, d, c, cands);
    SelectIsSpacedAndDominating(x, d, c, {}, cands);
  }

  /** The scan, the thinning and the restriction together yield peaks with
      every property FindPeaks promises. */
  lemma ScanAndThinFindPeaks(x: seq<real>, d: nat)
    requires d >= 1
    ensures AllBelow(Candidates(x, 1), |x|)
    ensures var c := Candidates(x, 1);
      var r := Restrict(c, Select(x, d, c, {}));
      StrictlyIncreasing(r) &&
      (forall k :: 0 <= k < |r| ==> 0 < r[k] < |x| - 1 && IsLocalMax(x, r[k])) &&
      (forall i, j :: 0 <= i < j < |r| ==> r[j] - r[i] >= d) &&
      (forall q :: IsStrictLocalMax(x, q) && q !in r ==> Covered(x, r, q, d))
  {
    ScanAndThin(x, d);
    var c := Candidates(x, 1);
    var k := Select(x, d, c, {});
    RestrictFilters(c, k);
    SurvivorsArePeaks(x, d, c, (set q | q in c), k, Restrict(c, k));
  }

  /** Peaks of x no closer than d samples to each other. */
  function FindPeaks(x: seq<real>, d: nat): (r: seq<nat>)
    requires d >= 1
    ensures StrictlyIncreasing(r)
    ensures forall k :: 0 <= k < |r| ==> 0 < r[k] < |x| - 1 && IsLocalMax(x, r[k])
    ensures forall i, j :: 0 <= i < j < |r| ==> r[j] - r[i] >= d
    ensures forall q :: IsStrictLocalMax(x, q) && q !in r ==> Covered(x, r, q, d)
  {
    ScanAndThinFindPeaks(x, d);
    var c := Candidates(x, 1);
    Restrict(c, Select(x, d, c, {}))
  }

  /** Index q of x lies within d of an index listed in r whose sample is at
      most as high. */
  ghost predicate CoveredBelow(x: seq<real>, r: seq<nat>, q: int, d: nat) {
    0 <= q < |x| &&
    exists j :: 0 <= j < |r| && r[j] < |x| && Dist(r[j], q) < d && x[r[j]] <= x[q]
  }

  /** What FindPeaks promises of the negated signal, read back as troughs. */
  lemma PeaksOfNegationAreTroughs(x: seq<real>, d: nat, r: seq<nat>)
    requires forall k :: 0 <= k < |r| ==> 0 < r[k] < |x| - 1 && IsLocalMax(Negate(x), r[k])
    requires forall q :: IsStrictLocalMax(Negate(x), q) && q !in r ==> Covered(Negate(x), r, q, d)
    ensures forall k :: 0 <= k < |r| ==> IsLocalMin(x, r[k])
    ensures forall q :: IsStrictLocalMin(x, q) && q !in r ==> CoveredBelow(x, r, q, d)
  {
    var y := Negate(x);
    forall k | 0 <= k < |r| ensures IsLocalMin(x, r[k]) {
      NegatedPeakIsTrough(x, r[k]);
    }
    forall q | IsStrictLocalMin(x, q) && q !in r ensures CoveredBelow(x, r, q, d) {
      NegatedPeakIsTrough(x, q);
      assert Covered(y, r, q, d);
      var j :| 0 <= j < |r| && r[j] < |y| && Dist(r[j], q) < d && y[q] <= y[r[j]];
      assert x[r[j]] <= x[q];
    }
  }

  /** Troughs of x no closer than d samples to each other: the peaks of the
      negated signal. */
  function FindTroughs(x: seq<real>, d: nat): (r: seq<nat>)
    requires d >= 1
    ensures StrictlyIncreasing(r)
    ensures forall k :: 0 <= k < |r| ==> 0 < r[k] < |x| - 1 && IsLocalMin(x, r[k])
    ensures forall i, j :: 0 <= i < j < |r| ==> r[j] - r[i] >= d
    ensures forall q :: IsStrictLocalMin(x, q) && q !in r ==> CoveredBelow(x, r, q, d)
  {
    var r := FindPeaks(Negate(x), d);
    PeaksOfNegationAreTroughs(x, d, r);
    r
  }
}
