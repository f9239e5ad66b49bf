/** The sample matcher behind `MapFitter::findMatches`: the live map is
    walked on a stride grid, every defined live elevation is carried to the
    reference map by a rotation about the candidate position, and the pairs
    whose reference elevation is defined as well are recorded. This module
    holds the specification of that walk as values; the method that does it
    in place is `MapFitter.FindMatches`. */
module Matching {
  import opened Wrappers
  import opened Grids
  import opened Metrics

  /** The two maps a match compares: the live elevation layer and its
      variance layer (same geometry), the reference elevation layer, and the
      circular-buffer start index of each map.

      `shift` stands for the trigonometric part of the matcher: given the
      rotation theta in degrees, the wrapped reference anchor and the sample
      offset (i, j), it yields the reference index the sample lands on (the
      rotated offset, truncated to integers). */
  datatype Scene = Scene(live: Grid, variance: Grid, reference: Grid,
                         liveStart: Index, referenceStart: Index,
                         shift: (int, Index, Index) -> Index)
  {
    predicate Valid() {
      && live.Valid() && variance.Valid() && reference.Valid()
      && variance.size == live.size
      && NonEmpty(reference.size)
    }
  }

  /** What one stride sample contributes: nothing when the live elevation is
      undefined, a counted point without a pair when the rotated index falls
      off the reference map or onto an undefined reference cell, and a
      recorded pair otherwise. */
  datatype Probe = Undefined | Miss | Hit(live: real, reference: real, weight: Option<real>)

  /** `1 / mapVariance`: undefined when the variance is undefined, and
      non-finite (so undefined here) when it is zero. */
  function InverseVariance(v: Option<real>): (r: Option<real>)
    ensures r.Some? <==> v.Some? && v.value != 0.0
    ensures r.Some? ==> r.value * v.value == 1.0
  {
    if v.Some? && v.value != 0.0 then Some(1.0 / v.value) else None
  }

  /** The reference index the rotation is taken about:
      `reference_size - reference_start_index + reference_index`, wrapped
      into the reference map. */
  function ReferenceAnchor(sc: Scene, anchor: Index): Index
    requires sc.Valid()
  {
    var size := sc.reference.size;
    WrapIndex(Add(Sub(Index(size.rows, size.cols), sc.referenceStart), anchor), size)
  }

  /** Adding the map size is a whole turn of the buffer, so the anchor is the
      buffer-to-logical conversion of `anchor`. The search passes an index it
      has already converted, so the walk is centred on that index converted
      a second time (the two agree only when the reference start is zero). */
  lemma ReferenceAnchorIsFromBuffer(sc: Scene, anchor: Index)
    requires sc.Valid()
    ensures ReferenceAnchor(sc, anchor) == FromBuffer(anchor, sc.reference.size, sc.referenceStart)
  {
    var size, start := sc.reference.size, sc.referenceStart;
    WrapAddTurns(anchor.row - start.row, 1, size.rows);
    WrapAddTurns(anchor.col - start.col, 1, size.cols);
  }

  /** One stride sample at offset (i, j) from the live start index. */
  function ProbeAt(sc: Scene, theta: int, anchor: Index, offset: Index): Probe
    requires sc.Valid() && NonEmpty(sc.live.size)
  {
    var index := WrapIndex(Add(sc.liveStart, offset), sc.live.size);
    match sc.live.At(index)
    case None => Undefined
    case Some(height) =>
      var shifted := sc.shift(theta, ReferenceAnchor(sc, anchor), offset);
      if !InRange(shifted, sc.reference.size) then Miss
      else
        match sc.reference.At(WrapIndex(Add(shifted, sc.referenceStart), sc.reference.size))
        case None => Miss
        case Some(reference) => Hit(height, reference, InverseVariance(sc.variance.At(index)))
  }

  /** A sample is counted exactly when its live elevation is defined, and it
      is recorded only when the rotated index passed the range check and the
      reference cell read after re-wrapping is defined. */
  lemma ProbeChecks(sc: Scene, theta: int, anchor: Index, offset: Index)
    requires sc.Valid() && NonEmpty(sc.live.size)
    ensures var index := WrapIndex(Add(sc.liveStart, offset), sc.live.size);
      ProbeAt(sc, theta, anchor, offset).Undefined? <==> sc.live.At(index).None?
    ensures var p, shifted := ProbeAt(sc, theta, anchor, offset), sc.shift(theta, ReferenceAnchor(sc, anchor), offset);
      p.Hit? ==>
        && InRange(shifted, sc.reference.size)
        && sc.reference.At(WrapIndex(Add(shifted, sc.referenceStart), sc.reference.size)) == Some(p.reference)
        && sc.live.At(WrapIndex(Add(sc.liveStart, offset), sc.live.size)) == Some(p.live)
  {
  }

  /** The samples of row i from column j on: j steps by `inc` while
      `j <= cols - inc`. */
  function RowProbes(sc: Scene, inc: int, theta: int, anchor: Index, i: int, j: int): seq<Probe>
    requires sc.Valid() && inc > 0 && 0 <= i <= sc.live.size.rows - inc && 0 <= j
    decreases sc.live.size.cols - j
  {
    if j > sc.live.size.cols - inc then []
    else [ProbeAt(sc, theta, anchor, Index(i, j))] + RowProbes(sc, inc, theta, anchor, i, j + inc)
  }

  /** A row walk that has not run past the last column takes one sample
      and moves on by the stride. */
  lemma RowStep(sc: Scene, inc: int, theta: int, anchor: Index, i: int, j: int, next: int, walked: seq<Probe>, whole: seq<Probe>)
    requires sc.Valid() && inc > 0 && 0 <= i <= sc.live.size.rows - inc && 0 <= j <= sc.live.size.cols - inc
    requires next == j + inc
    requires walked + RowProbes(sc, inc, theta, anchor, i, j) == whole
    ensures (walked + [ProbeAt(sc, theta, anchor, Index(i, j))]) + RowProbes(sc, inc, theta, anchor, i, next) == whole
  {
    assert RowProbes(sc, inc, theta, anchor, i, j)
        == [ProbeAt(sc, theta, anchor, Index(i, j))] + RowProbes(sc, inc, theta, anchor, i, j + inc);
  }

  /** The samples of rows i, i + inc, ... while `i <= rows - inc`, row by
      row. */
  function GridProbes(sc: Scene, inc: int, theta: int, anchor: Index, i: int): seq<Probe>
    requires sc.Valid() && inc > 0 && 0 <= i
    decreases sc.live.size.rows - i
  {
    if i > sc.live.size.rows - inc then []
    else RowProbes(sc, inc, theta, anchor, i, 0) + GridProbes(sc, inc, theta, anchor, i + inc)
  }

  /** A grid walk that has not run past the last row takes that row's
      samples and moves on by the stride. */
  lemma GridStep(sc: Scene, inc: int, theta: int, anchor: Index, i: int, next: int, done: seq<Probe>, whole: seq<Probe>)
    requires sc.Valid() && inc > 0 && 0 <= i <= sc.live.size.rows - inc
    requires next == i + inc
    requires done + GridProbes(sc, inc, theta, anchor, i) == whole
    ensures (done + RowProbes(sc, inc, theta, anchor, i, 0)) + GridProbes(sc, inc, theta, anchor, next) == whole
  {
    assert GridProbes(sc, inc, theta, anchor, i)
        == RowProbes(sc, inc, theta, anchor, i, 0) + GridProbes(sc, inc, theta, anchor, next);
  }

  /** The quotient of x + n by n is one more than that of x. */
  lemma DivStep(x: int, n: int)
    requires n > 0
    ensures (x + n) / n == x / n + 1
  {
    ModUnique(x + n, n, x / n + 1, x % n);
  }

  lemma MulSucc(a: int, b: int)
    ensures (a + 1) * b == b + a * b
  {
  }

  lemma {:induction false} RowLength(sc: Scene, inc: int, theta: int, anchor: Index, i: int, j: int)
    requires sc.Valid() && inc > 0 && 0 <= i <= sc.live.size.rows - inc && 0 <= j <= sc.live.size.cols
    ensures |RowProbes(sc, inc, theta, anchor, i, j)| == (sc.live.size.cols - j) / inc
    decreases sc.live.size.cols - j
  {
    var rest := sc.live.size.cols - j;
    if j > sc.live.size.cols - inc {
      ModUnique(rest, inc, 0, rest);
    } else {
      RowLength(sc, inc, theta, anchor, i, j + inc);
      DivStep(rest - inc, inc);
    }
  }

  /** The stride walk visits floor(rows / inc) * floor(cols / inc) samples. */
  lemma {:induction false} SampleCount(sc: Scene, inc: int, theta: int, anchor: Index, i: int)
    requires sc.Valid() && inc > 0 && 0 <= i <= sc.live.size.rows
    ensures |GridProbes(sc, inc, theta, anchor, i)| == ((sc.live.size.rows - i) / inc) * (sc.live.size.cols / inc)
    decreases sc.live.size.rows - i
  {
    var rest := sc.live.size.rows - i;
    if i > sc.live.size.rows - inc {
      ModUnique(rest, inc, 0, rest);
    } else {
      var a, b := (rest - inc) / inc, sc.live.size.cols / inc;
      RowLength(sc, inc, theta, anchor, i, 0);
      SampleCount(sc, inc, theta, anchor, i + inc);
      assert |GridProbes(sc, inc, theta, anchor, i)| == b + a * b;
      DivStep(rest - inc, inc);
      MulSucc(a, b);
    }
  }

  /** The running state of the matcher: the number of defined live samples
      (`points`) and the recorded live elevations, reference elevations and
      inverse variances. */
  datatype Tally = Tally(points: nat, lives: seq<real>, refs: seq<real>, weights: seq<Option<real>>)

  const NoTally := Tally(0, [], [], [])

  function Record(t: Tally, p: Probe): Tally {
    match p
    case Undefined => t
    case Miss => t.(points := t.points + 1)
    case Hit(live, reference, weight) =>
      Tally(t.points + 1, t.lives + [live], t.refs + [reference], t.weights + [weight])
  }

  /** The number of samples with a defined live elevation. */
  function Defined(ps: seq<Probe>): nat {
    if ps == [] then 0 else Defined(ps[..|ps| - 1]) + (if ps[|ps| - 1].Undefined? then 0 else 1)
  }

  /** The number of samples that were recorded as a pair. */
  function Hits(ps: seq<Probe>): nat {
    if ps == [] then 0 else Hits(ps[..|ps| - 1]) + (if ps[|ps| - 1].Hit? then 1 else 0)
  }

  /** The state after the samples ps: `points` counts the defined samples,
      the three recorded sequences have one entry per pair, and there are
      never more pairs than points. */
  function TallyOf(ps: seq<Probe>): (t: Tally)
    ensures t.points == Defined(ps)
    ensures |t.lives| == |t.refs| == |t.weights| == Hits(ps) <= Defined(ps)
  {
    if ps == [] then NoTally else Record(TallyOf(ps[..|ps| - 1]), ps[|ps| - 1])
  }

  lemma TallyAppend(ps: seq<Probe>, p: Probe)
    ensures TallyOf(ps + [p]) == Record(TallyOf(ps), p)
  {
    assert (ps + [p])[..|ps|] == ps;
  }

  /** The overlap gate `matches_ > points * requiredOverlap_`. */
  predicate Accepted(t: Tally, overlap: real) {
    |t.lives| as real > t.points as real * overlap
  }

  /** What the gate implies: with a non-negative overlap an accepted tally
      has a pair, and with an overlap of at least one no tally is accepted. */
  lemma GateBounds(t: Tally, overlap: real)
    requires |t.lives| <= t.points
    ensures overlap >= 0.0 && Accepted(t, overlap) ==> |t.lives| >= 1
    ensures overlap >= 1.0 ==> !Accepted(t, overlap)
  {
    if overlap >= 0.0 {
      MulNonNegative(t.points as real, overlap);
    }
    if overlap >= 1.0 {
      MulNonNegative(t.points as real, overlap - 1.0);
    }
  }

  /** The tally of a whole `findMatches` walk. */
  function WalkTally(sc: Scene, inc: int, theta: int, anchor: Index): Tally
    requires sc.Valid() && inc > 0
  {
    TallyOf(GridProbes(sc, inc, theta, anchor, 0))
  }

  /** The overlap gate applied to a tally: its pairs with their means when
      the gate passes, `None` otherwise. */
  function MatchOf(t: Tally, overlap: real): (r: Option<MatchSet>)
    requires |t.lives| == |t.refs| == |t.weights| <= t.points
    ensures r.Some? <==> Accepted(t, overlap)
    ensures r.Some? ==> r.value.shifted == t.lives && r.value.reference == t.refs && r.value.weights == t.weights
    ensures r.Some? ==> r.value.Valid() && r.value.Count() <= t.points
    ensures r.Some? ==> r.value.shiftedMean == Mean(r.value.shifted) && r.value.referenceMean == Mean(r.value.reference)
    ensures overlap >= 0.0 && r.Some? ==> r.value.Count() >= 1
    ensures overlap >= 1.0 ==> r.None?
  {
    GateBounds(t, overlap);
    if Accepted(t, overlap) then Some(MatchSet(t.lives, t.refs, t.weights, Mean(t.lives), Mean(t.refs)))
    else None
  }

  /** The outcome of `findMatches` at rotation theta about the reference
      index `anchor`: the recorded pairs with their means when the overlap
      gate passes, `None` otherwise. */
  function Match(sc: Scene, inc: int, overlap: real, theta: int, anchor: Index): (r: Option<MatchSet>)
    requires sc.Valid() && inc > 0
    ensures r.Some? <==> Accepted(WalkTally(sc, inc, theta, anchor), overlap)
    ensures var t := WalkTally(sc, inc, theta, anchor);
      r.Some? ==> r.value.shifted == t.lives && r.value.reference == t.refs && r.value.weights == t.weights
    ensures r.Some? ==> r.value.Valid() && r.value.Count() <= WalkTally(sc, inc, theta, anchor).points
    ensures r.Some? ==> r.value.shiftedMean == Mean(r.value.shifted) && r.value.referenceMean == Mean(r.value.reference)
    ensures overlap >= 0.0 && r.Some? ==> r.value.Count() >= 1
    ensures overlap >= 1.0 ==> r.None?
  {
    MatchOf(WalkTally(sc, inc, theta, anchor), overlap)
  }

  /** On success the deviations from the recorded means cancel out. */
  lemma MatchMeansBalance(sc: Scene, inc: int, overlap: real, theta: int, anchor: Index)
    requires sc.Valid() && inc > 0
    requires Match(sc, inc, overlap, theta, anchor).Some?
    ensures var m := Match(sc, inc, overlap, theta, anchor).value;
      Sum(Centred(m.shifted, m.shiftedMean)) == 0.0 && Sum(Centred(m.reference, m.referenceMean)) == 0.0
  {
    var m := Match(sc, inc, overlap, theta, anchor).value;
    if |m.shifted| == 0 {
      assert Centred(m.shifted, m.shiftedMean) == [];
    } else {
      MeanBalances(m.shifted);
    }
    if |m.reference| == 0 {
      assert Centred(m.reference, m.referenceMean) == [];
    } else {
      MeanBalances(m.reference);
    }
  }
}
