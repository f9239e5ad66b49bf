/** The exhaustive search as values: which events the rotation and candidate
    loops of `exhaustiveSearch` produce, and the vertical offset of `findZ`.
    The class `MapFitter` computes these in place. */
module Search {
  import opened Wrappers
  import opened Grids
  import opened Metrics
  import opened Matching
  import opened Accumulation
  import opened Selection

  /** The tuning parameters of the matcher: the sample stride of the live
      map, the required overlap fraction, the rotation step in degrees and
      the four acceptance thresholds. */
  datatype Settings = Settings(correlationIncrement: int, requiredOverlap: real, angleIncrement: int,
                               corrThreshold: real, ssdThreshold: real, sadThreshold: real, miThreshold: real)
  {
    predicate Valid() {
      correlationIncrement > 0 && angleIncrement > 0
    }

    function Threshold(m: Metric): real {
      match m
      case Correlation => corrThreshold
      case SquaredError => ssdThreshold
      case AbsoluteError => sadThreshold
      case MutualInformation => miThreshold
    }
  }

  /** The scores a successful candidate gets (the unweighted ones; mutual
      information is not computed). */
  function ScoresOf(m: MatchSet, sqrt: real -> real): (r: Scores)
    requires m.Valid() && IsSqrt(sqrt)
    ensures r.mi == MiSentinel
    ensures r.ssd.Some? <==> m.Count() > 0
    ensures r.sad.Some? <==> m.Count() > 0
    ensures r.ssd.Some? ==> r.ssd.value >= 0.0 && r.sad.value >= 0.0
    ensures r.ncc.Some? ==> -1.0 <= r.ncc.value <= 1.0
  {
    Scores(Ncc(m, sqrt), Ssd(m), Sad(m), MiSentinel)
  }

  /** The event of the reference buffer index `candidate` at rotation theta:
      the candidate is converted to its logical index `at`, which the votes
      and bests record and which is passed to the match. The match treats
      `at` as a buffer index and converts it once more (ReferenceAnchor), so
      the walk is centred on `at` itself only when the reference start is
      zero. */
  function EventAt(sc: Scene, st: Settings, sqrt: real -> real, theta: int, candidate: Index): (e: Event)
    requires sc.Valid() && st.Valid() && IsSqrt(sqrt)
    ensures e.theta == theta && InRange(e.at, sc.reference.size)
    ensures e.at == FromBuffer(candidate, sc.reference.size, sc.referenceStart)
    ensures e.scores.Some? ==> e.scores.value.mi == MiSentinel
  {
    var at := FromBuffer(candidate, sc.reference.size, sc.referenceStart);
    Event(theta, at, CandidateScores(sc, st, sqrt, theta, at))
  }

  /** The scores of the match about `at`, `None` when the gate fails. */
  function CandidateScores(sc: Scene, st: Settings, sqrt: real -> real, theta: int, at: Index): (r: Option<Scores>)
    requires sc.Valid() && st.Valid() && IsSqrt(sqrt)
    ensures r.Some? ==> r.value.mi == MiSentinel
  {
    var m := Match(sc, st.correlationIncrement, st.requiredOverlap, theta, at);
    if m.Some? then Some(ScoresOf(m.value, sqrt)) else None
  }

  /** The candidate loop of one rotation, in the order of the candidates. */
  function Sweep(sc: Scene, st: Settings, sqrt: real -> real, cands: seq<Index>, theta: int): (evs: seq<Event>)
    requires sc.Valid() && st.Valid() && IsSqrt(sqrt)
    ensures |evs| == |cands|
    ensures forall k | 0 <= k < |evs| :: evs[k] == EventAt(sc, st, sqrt, theta, cands[k])
  {
    if cands == [] then []
    else Sweep(sc, st, sqrt, cands[..|cands| - 1], theta) + [EventAt(sc, st, sqrt, theta, cands[|cands| - 1])]
  }

  /** One more candidate appends its event. */
  lemma SweepAppend(sc: Scene, st: Settings, sqrt: real -> real, cands: seq<Index>, k: nat, theta: int)
    requires sc.Valid() && st.Valid() && IsSqrt(sqrt) && k < |cands|
    ensures Sweep(sc, st, sqrt, cands[..k + 1], theta) == Sweep(sc, st, sqrt, cands[..k], theta) + [EventAt(sc, st, sqrt, theta, cands[k])]
  {
    assert cands[..k + 1][..k] == cands[..k];
  }

  /** The sweeps of the first n rotations, 0, inc, ..., (n - 1) inc. */
  function Rotations(sc: Scene, st: Settings, sqrt: real -> real, cands: seq<Index>, n: nat): (rs: seq<seq<Event>>)
    requires sc.Valid() && st.Valid() && IsSqrt(sqrt)
    ensures |rs| == n
    ensures forall t | 0 <= t < n :: rs[t] == Sweep(sc, st, sqrt, cands, t * st.angleIncrement)
  {
    if n == 0 then []
    else Rotations(sc, st, sqrt, cands, n - 1) + [Sweep(sc, st, sqrt, cands, (n - 1) * st.angleIncrement)]
  }

  /** Every event of the first n rotations, in the order they are tried. */
  function Sweeps(sc: Scene, st: Settings, sqrt: real -> real, cands: seq<Index>, n: nat): seq<Event>
    requires sc.Valid() && st.Valid() && IsSqrt(sqrt)
  {
    Flatten(Rotations(sc, st, sqrt, cands, n))
  }

  /** One more rotation appends its sweep. */
  lemma SweepsStep(sc: Scene, st: Settings, sqrt: real -> real, cands: seq<Index>, n: nat)
    requires sc.Valid() && st.Valid() && IsSqrt(sqrt)
    ensures Sweeps(sc, st, sqrt, cands, n + 1) == Sweeps(sc, st, sqrt, cands, n) + Sweep(sc, st, sqrt, cands, n * st.angleIncrement)
  {
    var rs := Rotations(sc, st, sqrt, cands, n + 1);
    assert rs[..n] == Rotations(sc, st, sqrt, cands, n);
  }

  /** The per-rotation best slots of the first n rotations. */
  function SlotBests(sc: Scene, st: Settings, sqrt: real -> real, cands: seq<Index>, n: nat): (bs: seq<Bests>)
    requires sc.Valid() && st.Valid() && IsSqrt(sqrt)
    ensures |bs| == n
  {
    if n == 0 then []
    else SlotBests(sc, st, sqrt, cands, n - 1) + [BestsOf(Sweep(sc, st, sqrt, cands, (n - 1) * st.angleIncrement))]
  }

  /** Slot t holds the bests of the sweep at rotation t * inc. */
  lemma {:induction false} SlotBestsAt(sc: Scene, st: Settings, sqrt: real -> real, cands: seq<Index>, n: nat, t: nat)
    requires sc.Valid() && st.Valid() && IsSqrt(sqrt) && t < n
    ensures SlotBests(sc, st, sqrt, cands, n)[t] == BestsOf(Sweep(sc, st, sqrt, cands, t * st.angleIncrement))
  {
    if t < n - 1 {
      SlotBestsAt(sc, st, sqrt, cands, n - 1, t);
    }
  }

  /** Distinct reference buffer indices; the sparse iterator visits each
      index once. */
  predicate Distinct(cands: seq<Index>) {
    forall a, b | 0 <= a < b < |cands| :: cands[a] != cands[b]
  }

  /** Distinct in-range buffer indices have distinct logical indices, so
      the events of one rotation are at distinct indices. */
  lemma SweepDistinct(sc: Scene, st: Settings, sqrt: real -> real, cands: seq<Index>, theta: int)
    requires sc.Valid() && st.Valid() && IsSqrt(sqrt)
    requires Distinct(cands) && forall k | 0 <= k < |cands| :: InRange(cands[k], sc.reference.size)
    ensures DistinctAts(Sweep(sc, st, sqrt, cands, theta))
  {
    var evs := Sweep(sc, st, sqrt, cands, theta);
    forall a, b | 0 <= a < b < |evs|
      ensures evs[a].at != evs[b].at
    {
      if evs[a].at == evs[b].at {
        FromBufferInjective(cands[a], cands[b], sc.reference.size, sc.referenceStart);
      }
    }
  }

  /** The index idx matched at rotation slot t. */
  predicate MatchedAt(sc: Scene, st: Settings, sqrt: real -> real, cands: seq<Index>, t: nat, idx: Index)
    requires sc.Valid() && st.Valid() && IsSqrt(sqrt)
  {
    Matched(Sweep(sc, st, sqrt, cands, t * st.angleIncrement), idx)
  }

  /** With distinct in-range candidates, an index has at most one vote per
      rotation, and as many votes as there are rotations exactly when it
      matched at every rotation. */
  lemma FullVotesMeansEveryRotation(sc: Scene, st: Settings, sqrt: real -> real, cands: seq<Index>, n: nat, idx: Index)
    requires sc.Valid() && st.Valid() && IsSqrt(sqrt)
    requires Distinct(cands) && forall k | 0 <= k < |cands| :: InRange(cands[k], sc.reference.size)
    ensures Votes(Sweeps(sc, st, sqrt, cands, n), idx) <= n
    ensures Votes(Sweeps(sc, st, sqrt, cands, n), idx) == n <==> forall t | 0 <= t < n :: MatchedAt(sc, st, sqrt, cands, t, idx)
  {
    var rs := Rotations(sc, st, sqrt, cands, n);
    forall t | 0 <= t < n
      ensures DistinctAts(rs[t])
    {
      SweepDistinct(sc, st, sqrt, cands, t * st.angleIncrement);
    }
    FullVotesIffMatchedEverywhere(rs, idx);
    assert forall t | 0 <= t < n :: MatchedAt(sc, st, sqrt, cands, t, idx) == Matched(rs[t], idx);
  }

  /** Every slot that names a candidate names an index of the reference
      map. */
  lemma SlotBestsInRange(sc: Scene, st: Settings, sqrt: real -> real, cands: seq<Index>, n: nat, m: Metric)
    requires sc.Valid() && st.Valid() && IsSqrt(sqrt)
    ensures var bs := SlotBests(sc, st, sqrt, cands, n);
      forall t | 0 <= t < n && bs[t].Get(m).at.Some? :: InRange(bs[t].Get(m).at.value, sc.reference.size)
  {
    var bs := SlotBests(sc, st, sqrt, cands, n);
    forall t | 0 <= t < n && bs[t].Get(m).at.Some?
      ensures InRange(bs[t].Get(m).at.value, sc.reference.size)
    {
      var evs := Sweep(sc, st, sqrt, cands, t * st.angleIncrement);
      SlotBestsAt(sc, st, sqrt, cands, n, t);
      BestOfIsFirstOptimum(evs, m);
      assert bs[t].Get(m) == BestOf(evs, m);
      var k :| FirstReaching(evs, m, k, bs[t].Get(m).score, bs[t].Get(m).at.value);
    }
  }

  /** The search's choice for a score, read through the two loops: with
      distinct in-range candidates, a chosen index matched at every
      rotation tried, and the chosen rotation is a multiple of the angle
      increment below 360. */
  lemma ChoiceMatchedEveryRotation(sc: Scene, st: Settings, sqrt: real -> real, cands: seq<Index>, m: Metric)
    requires sc.Valid() && st.Valid() && IsSqrt(sqrt)
    requires Distinct(cands) && forall k | 0 <= k < |cands| :: InRange(cands[k], sc.reference.size)
    ensures var n, inc := RotationSlots(st.angleIncrement), st.angleIncrement;
      var c := Choose(SlotBests(sc, st, sqrt, cands, n), m, st.Threshold(m), Sweeps(sc, st, sqrt, cands, n), n, inc);
      && (c.at.Some? <==> c.theta.Some?)
      && (c.at.Some? ==> forall t | 0 <= t < n :: MatchedAt(sc, st, sqrt, cands, t, c.at.value))
      && (c.theta.Some? ==> 0 <= c.theta.value < 360 && c.theta.value % inc == 0)
  {
    var n, inc := RotationSlots(st.angleIncrement), st.angleIncrement;
    var bs, evs := SlotBests(sc, st, sqrt, cands, n), Sweeps(sc, st, sqrt, cands, n);
    var c := Choose(bs, m, st.Threshold(m), evs, n, inc);
    ChosenIsQualified(bs, m, st.Threshold(m), evs, n, inc);
    if c.theta.Some? {
      var i :| 0 <= i < n && c.theta.value == i * inc;
      SlotTheta(inc, i);
      FullVotesMeansEveryRotation(sc, st, sqrt, cands, n, c.at.value);
    }
  }

  /* ---------------- findZ ---------------- */

  /** The pairs `findZ` averages: for each live sample with a defined
      elevation, the reference elevation found by `lookup` (the sample moved
      by the chosen pose, read from the reference map; `None` when it lands
      outside the map or on an undefined cell). */
  function ZPairs(live: Grid, samples: seq<Index>, lookup: Index -> Option<real>): (r: (seq<real>, seq<real>))
    requires live.Valid() && forall k | 0 <= k < |samples| :: InRange(samples[k], live.size)
    ensures |r.0| == |r.1| <= |samples|
  {
    if samples == [] then ([], [])
    else
      var prev := ZPairs(live, samples[..|samples| - 1], lookup);
      var s := samples[|samples| - 1];
      match live.At(s)
      case None => prev
      case Some(height) =>
        match lookup(s)
        case None => prev
        case Some(reference) => (prev.0 + [height], prev.1 + [reference])
  }

  /** `findZ`: the mean reference elevation minus the mean live elevation of
      the pairs; undefined (0/0) when there is no pair. */
  function ZOffset(lives: seq<real>, refs: seq<real>): (r: Option<real>)
    requires |lives| == |refs|
    ensures r.None? <==> |lives| == 0
  {
    if |lives| == 0 then None else Some(Mean(refs) - Mean(lives))
  }

  lemma {:induction false} SumShifted(lives: seq<real>, refs: seq<real>, d: real, n: nat)
    requires n <= |lives| == |refs|
    requires forall k | 0 <= k < |lives| :: refs[k] == lives[k] + d
    ensures SumTo(refs, n) == SumTo(lives, n) + n as real * d
  {
    if n > 0 {
      SumShifted(lives, refs, d, n - 1);
      assert (n - 1) as real * d + d == n as real * d;
    }
  }

  /** When every reference elevation is its live elevation raised by d, the
      offset is d; in particular it is 0 when every pair is equal. */
  lemma ZOffsetOfShiftedPairs(lives: seq<real>, refs: seq<real>, d: real)
    requires |lives| == |refs| > 0
    requires forall k | 0 <= k < |lives| :: refs[k] == lives[k] + d
    ensures ZOffset(lives, refs) == Some(d)
  {
    var n := |lives| as real;
    SumShifted(lives, refs, d, |lives|);
    assert Mean(refs) == (Sum(lives) + n * d) / n;
    assert (Sum(lives) + n * d) / n == Sum(lives) / n + d;
  }
}
