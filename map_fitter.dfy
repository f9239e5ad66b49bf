/** The matcher object `MapFitter`: `findMatches` leaves the recorded pairs
    of one candidate pose in the object's fields, the score methods read
    them, and `exhaustiveSearch` runs the rotation and candidate loops,
    keeping the votes, the coarse score map and the per-rotation bests in
    arrays. Every method is proved against the value-level specification
    of the modules it imports. */
module Fitter {
  import opened Wrappers
  import opened Grids
  import opened Metrics
  import opened Matching
  import opened Accumulation
  import opened Selection
  import opened Search

  /** What the search reports: the choice made for each score, and the
      vertical offset of the correlation choice (`None` when there is no
      such choice or no pair to average). */
  datatype Outcome = Outcome(correlation: Choice, ssd: Choice, sad: Choice, mi: Choice, z: Option<real>)

  /** The four per-rotation slots as the theta loop resets them. */
  const Reset: Bests := Bests(SlotBest(Sentinel(Correlation), None), SlotBest(Sentinel(SquaredError), None),
                              SlotBest(Sentinel(AbsoluteError), None), SlotBest(Sentinel(MutualInformation), None))

  class MapFitter {
    /** The parameters read at start-up. */
    const settings: Settings
    /** The square root used by the correlation scores. */
    const sqrt: real -> real

    /** `matches_`, `shifted_mean_`, `reference_mean_`, `xy_shifted_`,
        `xy_reference_` and `xy_shifted_var_`. */
    var matches: int
    var shiftedMean: real
    var referenceMean: real
    var xyShifted: seq<real>
    var xyReference: seq<real>
    var xyShiftedVar: seq<Option<real>>

    ghost predicate Valid() {
      settings.Valid() && IsSqrt(sqrt)
    }

    /** The match counter agrees with the recorded sequences. */
    predicate Recorded()
      reads this
    {
      matches == |xyShifted| && |xyShifted| == |xyReference| == |xyShiftedVar|
    }

    /** The recorded pairs as a match set. */
    function Current(): MatchSet
      reads this
    {
      MatchSet(xyShifted, xyReference, xyShiftedVar, shiftedMean, referenceMean)
    }

    constructor(settings: Settings, sqrt: real -> real)
      requires settings.Valid() && IsSqrt(sqrt)
      ensures Valid() && Recorded()
      ensures this.settings == settings && this.sqrt == sqrt
      ensures Current() == MatchSet([], [], [], 0.0, 0.0)
    {
      this.settings := settings;
      this.sqrt := sqrt;
      matches := 0;
      shiftedMean, referenceMean := 0.0, 0.0;
      xyShifted, xyReference, xyShiftedVar := [], [], [];
    }

    /** `findMatches`: walks the live map on the stride grid about the
        reference index `anchor` at rotation theta, records every pair, and
        applies the overlap gate. The recorded state is that of the whole
        walk; on success the sums become means (an empty success keeps the
        zero sums), and the object then holds exactly the match set the
        specification gives. */
    method FindMatches(sc: Scene, anchor: Index, theta: int) returns (success: bool)
      requires Valid() && sc.Valid()
      modifies this
      ensures Valid() && Recorded()
      ensures var t := WalkTally(sc, settings.correlationIncrement, theta, anchor);
        && xyShifted == t.lives && xyReference == t.refs && xyShiftedVar == t.weights
        && success == Accepted(t, settings.requiredOverlap)
      ensures success ==> shiftedMean == Mean(xyShifted) && referenceMean == Mean(xyReference)
      ensures !success ==> shiftedMean == Sum(xyShifted) && referenceMean == Sum(xyReference)
      ensures var m := Match(sc, settings.correlationIncrement, settings.requiredOverlap, theta, anchor);
        success == m.Some? && (success ==> Current() == m.value)
    {
      var points := WalkGrid(sc, anchor, theta);
      success := Gate(WalkTally(sc, settings.correlationIncrement, theta, anchor), points);
    }

    /** The overlap gate at the end of `findMatches`, on the state t the walk
        left: accept when more than `requiredOverlap` of the samples found a
        pair, and then turn the sums into means (left as they are when there
        is no pair). */
    method Gate(ghost t: Tally, points: nat) returns (success: bool)
      requires t == Tally(points, xyShifted, xyReference, xyShiftedVar) && |xyShifted| <= points
      requires Recorded() && shiftedMean == Sum(xyShifted) && referenceMean == Sum(xyReference)
      modifies this
      ensures Recorded()
      ensures xyShifted == t.lives && xyReference == t.refs && xyShiftedVar == t.weights
      ensures success == Accepted(t, settings.requiredOverlap)
      ensures success ==> shiftedMean == Mean(xyShifted) && referenceMean == Mean(xyReference)
      ensures !success ==> shiftedMean == Sum(xyShifted) && referenceMean == Sum(xyReference)
      ensures var m := MatchOf(t, settings.requiredOverlap);
        success == m.Some? && (success ==> Current() == m.value)
    {
      if matches as real > points as real * settings.requiredOverlap {
        if matches > 0 {
          shiftedMean := shiftedMean / matches as real;
          referenceMean := referenceMean / matches as real;
        }
        success := true;
      } else {
        success := false;
      }
    }

    /** The outer stride loop of `findMatches`, from cleared fields: the
        state ends as the tally of the whole walk, with the sums still
        unscaled. */
    method WalkGrid(sc: Scene, anchor: Index, theta: int) returns (points: nat)
      requires Valid() && sc.Valid()
      modifies this
      ensures Valid()
      ensures Tally(points, xyShifted, xyReference, xyShiftedVar) == WalkTally(sc, settings.correlationIncrement, theta, anchor)
      ensures Recorded() && |xyShifted| <= points
      ensures shiftedMean == Sum(xyShifted) && referenceMean == Sum(xyReference)
    {
      var inc := settings.correlationIncrement;
      points := 0;
      matches := 0;
      shiftedMean, referenceMean := 0.0, 0.0;
      xyShifted, xyReference, xyShiftedVar := [], [], [];
      ghost var done: seq<Probe> := [];
      ghost var whole := GridProbes(sc, inc, theta, anchor, 0);
      var i := 0;
      while i <= sc.live.size.rows - inc
        invariant 0 <= i && Valid()
        invariant done + GridProbes(sc, inc, theta, anchor, i) == whole
        invariant Tally(points, xyShifted, xyReference, xyShiftedVar) == TallyOf(done)
        invariant matches == |xyShifted| && shiftedMean == Sum(xyShifted) && referenceMean == Sum(xyReference)
        decreases sc.live.size.rows - i
      {
        var next := i + inc;
        GridStep(sc, inc, theta, anchor, i, next, done, whole);
        points := WalkRow(sc, anchor, theta, i, points, done);
        done := done + RowProbes(sc, inc, theta, anchor, i, 0);
        i := next;
      }
      assert GridProbes(sc, inc, theta, anchor, i) == [];
      assert done + [] == done;
    }

    /** The inner stride loop of `findMatches` over row i: the state moves
        on by the samples of that row. */
    method WalkRow(sc: Scene, anchor: Index, theta: int, i: int, points: nat, ghost done: seq<Probe>) returns (points': nat)
      requires Valid() && sc.Valid()
      requires 0 <= i <= sc.live.size.rows - settings.correlationIncrement
      requires Tally(points, xyShifted, xyReference, xyShiftedVar) == TallyOf(done)
      requires matches == |xyShifted| && shiftedMean == Sum(xyShifted) && referenceMean == Sum(xyReference)
      modifies this
      ensures Valid()
      ensures Tally(points', xyShifted, xyReference, xyShiftedVar)
           == TallyOf(done + RowProbes(sc, settings.correlationIncrement, theta, anchor, i, 0))
      ensures matches == |xyShifted| && shiftedMean == Sum(xyShifted) && referenceMean == Sum(xyReference)
    {
      var inc := settings.correlationIncrement;
      points' := points;
      ghost var walked := done;
      ghost var whole := done + RowProbes(sc, inc, theta, anchor, i, 0);
      var j := 0;
      while j <= sc.live.size.cols - inc
        invariant 0 <= j && Valid()
        invariant walked + RowProbes(sc, inc, theta, anchor, i, j) == whole
        invariant Tally(points', xyShifted, xyReference, xyShiftedVar) == TallyOf(walked)
        invariant matches == |xyShifted| && shiftedMean == Sum(xyShifted) && referenceMean == Sum(xyReference)
        decreases sc.live.size.cols - j
      {
        ghost var probe := ProbeAt(sc, theta, anchor, Index(i, j));
        points' := RecordSample(sc, anchor, theta, i, j, points');
        TallyAppend(walked, probe);
        var next := j + inc;
        RowStep(sc, inc, theta, anchor, i, j, next, walked, whole);
        walked := walked + [probe];
        j := next;
      }
      assert RowProbes(sc, inc, theta, anchor, i, j) == [];
      assert walked + [] == walked;
    }

    /** The body of the stride loops of `findMatches` at offset (i, j):
        count a defined live sample, and record the pair when the rotated
        index lands on a defined reference elevation. */
    method RecordSample(sc: Scene, anchor: Index, theta: int, i: int, j: int, points: nat) returns (points': nat)
      requires sc.Valid() && NonEmpty(sc.live.size)
      requires matches == |xyShifted| && shiftedMean == Sum(xyShifted) && referenceMean == Sum(xyReference)
      modifies this
      ensures Tally(points', xyShifted, xyReference, xyShiftedVar)
           == Record(old(Tally(points, xyShifted, xyReference, xyShiftedVar)), ProbeAt(sc, theta, anchor, Index(i, j)))
      ensures matches == |xyShifted| && shiftedMean == Sum(xyShifted) && referenceMean == Sum(xyReference)
    {
      ghost var probe := ProbeAt(sc, theta, anchor, Index(i, j));
      points' := points;
      var index := WrapIndex(Add(sc.liveStart, Index(i, j)), sc.live.size);
      var mapHeight := sc.live.At(index);
      if mapHeight.Some? {
        points' := points' + 1;
        var referenceBuffer := ReferenceAnchor(sc, anchor);
        var shifted := sc.shift(theta, referenceBuffer, Index(i, j));
        if InRange(shifted, sc.reference.size) {
          var at := WrapIndex(Add(shifted, sc.referenceStart), sc.reference.size);
          var referenceHeight := sc.reference.At(at);
          if referenceHeight.Some? {
            SumAppend(xyShifted, mapHeight.value);
            SumAppend(xyReference, referenceHeight.value);
            matches := matches + 1;
            shiftedMean := shiftedMean + mapHeight.value;
            referenceMean := referenceMean + referenceHeight.value;
            xyShifted := xyShifted + [mapHeight.value];
            xyReference := xyReference + [referenceHeight.value];
            xyShiftedVar := xyShiftedVar + [InverseVariance(sc.variance.At(index))];
            assert probe == Hit(mapHeight.value, referenceHeight.value, InverseVariance(sc.variance.At(index)));
          } else {
            assert probe == Miss;
          }
        } else {
          assert probe == Miss;
        }
      } else {
        assert probe == Undefined;
      }
    }

    /** `errorSAD` over the recorded pairs. */
    method ErrorSad() returns (r: Option<real>)
      requires Recorded()
      ensures r == Sad(Current())
    {
      ghost var m := Current();
      var error := 0.0;
      var i := 0;
      while i < matches
        invariant 0 <= i <= matches
        invariant error == SumTo(AbsTerms(m), i)
      {
        var shifted := (xyShifted[i] - shiftedMean) / Range;
        var reference := (xyReference[i] - referenceMean) / Range;
        error := error + Abs(shifted - reference);
        i := i + 1;
      }
      r := if matches == 0 then None else Some(error / matches as real);
    }

    /** `errorSSD` over the recorded pairs. */
    method ErrorSsd() returns (r: Option<real>)
      requires Recorded()
      ensures r == Ssd(Current())
    {
      ghost var m := Current();
      var error := 0.0;
      var i := 0;
      while i < matches
        invariant 0 <= i <= matches
        invariant error == SumTo(SqTerms(m), i)
      {
        var shifted := (xyShifted[i] - shiftedMean) / Range;
        var reference := (xyReference[i] - referenceMean) / Range;
        error := error + (shifted - reference) * (shifted - reference);
        i := i + 1;
      }
      r := if matches == 0 then None else Some(error / matches as real);
    }

    /** `weightedErrorSAD` over the recorded pairs; an undefined weight
        makes the result undefined. */
    method WeightedErrorSad() returns (r: Option<real>)
      requires Recorded()
      ensures r == WeightedSad(Current())
    {
      ghost var m := Current();
      var error, normalization := 0.0, 0.0;
      var defined := true;
      var i := 0;
      while i < matches
        invariant 0 <= i <= matches
        invariant error == SumTo(WeightedAbsTerms(m), i)
        invariant normalization == SumTo(WeightValues(m), i)
        invariant defined <==> forall k | 0 <= k < i :: xyShiftedVar[k].Some?
      {
        var shifted := (xyShifted[i] - shiftedMean) / Range;
        var reference := (xyReference[i] - referenceMean) / Range;
        var weight := if xyShiftedVar[i].Some? then xyShiftedVar[i].value else 0.0;
        defined := defined && xyShiftedVar[i].Some?;
        error := error + Abs(shifted - reference) * weight;
        normalization := normalization + weight;
        i := i + 1;
      }
      r := if !defined || normalization == 0.0 then None else Some(error / normalization);
    }

    /** `weightedErrorSSD` over the recorded pairs. */
    method WeightedErrorSsd() returns (r: Option<real>)
      requires Recorded()
      ensures r == WeightedSsd(Current())
    {
      ghost var m := Current();
      var error, normalization := 0.0, 0.0;
      var defined := true;
      var i := 0;
      while i < matches
        invariant 0 <= i <= matches
        invariant error == SumTo(WeightedSqTerms(m), i)
        invariant normalization == SumTo(SquaredWeights(m), i)
        invariant defined <==> forall k | 0 <= k < i :: xyShiftedVar[k].Some?
      {
        var shifted := (xyShifted[i] - shiftedMean) / Range;
        var reference := (xyReference[i] - referenceMean) / Range;
        var weight := if xyShiftedVar[i].Some? then xyShiftedVar[i].value else 0.0;
        defined := defined && xyShiftedVar[i].Some?;
        error := error + (shifted - reference) * (shifted - reference) * weight * weight;
        normalization := normalization + weight * weight;
        i := i + 1;
      }
      r := if !defined || normalization == 0.0 then None else Some(error / normalization);
    }

    /** `correlationNCC` over the recorded pairs. */
    method CorrelationNcc() returns (r: Option<real>)
      requires Valid() && Recorded()
      ensures r == Ncc(Current(), sqrt)
    {
      ghost var m := Current();
      var correlation, shiftedNormal, referenceNormal := CentredSums(m);
      NccOfSums(m, sqrt, correlation, shiftedNormal, referenceNormal);
      var product := shiftedNormal * referenceNormal;
      if product == 0.0 {
        r := None;
      } else {
        r := Some(correlation / sqrt(product));
      }
    }

    /** The loop of `correlationNCC`: the cross sum and the two sums of
        squares of the elevations centred on their means. */
    method CentredSums(ghost m: MatchSet) returns (correlation: real, shiftedNormal: real, referenceNormal: real)
      requires Recorded() && m == Current()
      ensures correlation == CrossSum(m)
      ensures shiftedNormal == LiveNorm(m) && referenceNormal == RefNorm(m)
    {
      shiftedNormal, referenceNormal, correlation := 0.0, 0.0, 0.0;
      var i := 0;
      while i < matches
        invariant 0 <= i <= matches
        invariant correlation == WDot(Units(matches), LiveDevs(m), RefDevs(m), i)
        invariant shiftedNormal == WDot(Units(matches), LiveDevs(m), LiveDevs(m), i)
        invariant referenceNormal == WDot(Units(matches), RefDevs(m), RefDevs(m), i)
      {
        var shiftedCorr := xyShifted[i] - shiftedMean;
        var referenceCorr := xyReference[i] - referenceMean;
        correlation := correlation + shiftedCorr * referenceCorr;
        shiftedNormal := shiftedNormal + shiftedCorr * shiftedCorr;
        referenceNormal := referenceNormal + referenceCorr * referenceCorr;
        i := i + 1;
      }
    }

    /** `weightedCorrelationNCC` over the recorded pairs. */
    method WeightedCorrelationNcc() returns (r: Option<real>)
      requires Valid() && Recorded()
      ensures r == WeightedNcc(Current(), sqrt)
    {
      ghost var m := Current();
      var defined, correlation, shiftedNormal, referenceNormal := WeightedCentredSums(m);
      WeightedNccOfSums(m, sqrt, defined, correlation, shiftedNormal, referenceNormal);
      if !defined {
        r := None;
      } else {
        var product := shiftedNormal * referenceNormal;
        if product <= 0.0 {
          r := None;
        } else {
          r := Some(correlation / sqrt(product));
        }
      }
    }

    /** The loop of `weightedCorrelationNCC`: the three sums with every term
        weighted by the inverse variance, and whether every weight was
        defined (an undefined weight makes every sum NaN). */
    method WeightedCentredSums(ghost m: MatchSet) returns (defined: bool, correlation: real, shiftedNormal: real, referenceNormal: real)
      requires Recorded() && m == Current()
      ensures defined == m.Weighted()
      ensures correlation == WeightedCrossSum(m)
      ensures shiftedNormal == WeightedLiveNorm(m) && referenceNormal == WeightedRefNorm(m)
    {
      shiftedNormal, referenceNormal, correlation := 0.0, 0.0, 0.0;
      defined := true;
      var i := 0;
      while i < matches
        invariant 0 <= i <= matches
        invariant correlation == WDot(WeightValues(m), LiveDevs(m), RefDevs(m), i)
        invariant shiftedNormal == WDot(WeightValues(m), LiveDevs(m), LiveDevs(m), i)
        invariant referenceNormal == WDot(WeightValues(m), RefDevs(m), RefDevs(m), i)
        invariant defined <==> forall k | 0 <= k < i :: xyShiftedVar[k].Some?
      {
        var shiftedCorr := xyShifted[i] - shiftedMean;
        var referenceCorr := xyReference[i] - referenceMean;
        var weight := if xyShiftedVar[i].Some? then xyShiftedVar[i].value else 0.0;
        defined := defined && xyShiftedVar[i].Some?;
        assert shiftedCorr * referenceCorr * weight == weight * shiftedCorr * referenceCorr;
        correlation := correlation + shiftedCorr * referenceCorr * weight;
        shiftedNormal := shiftedNormal + weight * shiftedCorr * shiftedCorr;
        referenceNormal := referenceNormal + weight * referenceCorr * referenceCorr;
        i := i + 1;
      }
    }

    /** The votes and the coarse map hold what the events evs give them:
        one vote per success at its index, and every coarse cell the
        accumulation of the successes that reach it. */
    ghost predicate Tallied(cellOf: Index -> Option<Index>, votes: array2<int>, acc: array2<Cell>, evs: seq<Event>)
      reads votes, acc
    {
      && (forall r, c | 0 <= r < votes.Length0 && 0 <= c < votes.Length1 ::
            votes[r, c] == Votes(evs, Index(r, c)))
      && (forall r, c | 0 <= r < acc.Length0 && 0 <= c < acc.Length1 ::
            acc[r, c] == Accumulate(EmptyCell, evs, Index(r, c), cellOf))
    }

    /** One pass of the candidate loop of `exhaustiveSearch` at rotation
        theta: every candidate (a reference buffer index) is converted to
        its logical index and matched; a success adds a vote at that index,
        updates the coarse cell the index falls in, and competes for the
        rotation's best slots. The slots come back reset and improved by
        the sweep; the two arrays have taken in its events after the events
        `before` of the earlier rotations. */
    method SweepRotation(sc: Scene, cands: seq<Index>, cellOf: Index -> Option<Index>, theta: int,
                         votes: array2<int>, acc: array2<Cell>, ghost before: seq<Event>) returns (b: Bests)
      requires Valid() && sc.Valid()
      requires votes.Length0 == sc.reference.size.rows && votes.Length1 == sc.reference.size.cols
      requires forall x :: cellOf(x).Some? ==> InRange(cellOf(x).value, Size(acc.Length0, acc.Length1))
      requires Tallied(cellOf, votes, acc, before)
      modifies this, votes, acc
      ensures Valid()
      ensures b == BestsOf(Sweep(sc, settings, sqrt, cands, theta))
      ensures Tallied(cellOf, votes, acc, before + Sweep(sc, settings, sqrt, cands, theta))
    {
      b := Reset;
      var k := 0;
      ghost var evs: seq<Event> := [];
      assert before + evs == before;
      while k < |cands|
        invariant 0 <= k <= |cands| && Valid()
        invariant evs == Sweep(sc, settings, sqrt, cands[..k], theta)
        invariant b == BestsOf(evs)
        invariant Tallied(cellOf, votes, acc, before + evs)
      {
        var index := FromBuffer(cands[k], sc.reference.size, sc.referenceStart);
        var scores := Absorb(sc, cellOf, theta, index, votes, acc, before, evs);
        var e := Event(theta, index, scores);
        BestsOfAppend(evs, e);
        if scores.Some? {
          b := ImproveAll(b, e);
        }
        assert e == EventAt(sc, settings, sqrt, theta, cands[k]);
        SweepAppend(sc, settings, sqrt, cands, k, theta);
        evs := evs + [e];
        k := k + 1;
      }
      assert cands[..k] == cands;
    }

    /** `Visit` seen from the loop: the arrays move on from the tally of the
        events seen so far to that of one more event. */
    method Absorb(sc: Scene, cellOf: Index -> Option<Index>, theta: int, index: Index,
                  votes: array2<int>, acc: array2<Cell>, ghost before: seq<Event>, ghost evs: seq<Event>)
      returns (scores: Option<Scores>)
      requires Valid() && sc.Valid() && InRange(index, Size(votes.Length0, votes.Length1))
      requires forall x :: cellOf(x).Some? ==> InRange(cellOf(x).value, Size(acc.Length0, acc.Length1))
      requires Tallied(cellOf, votes, acc, before + evs)
      modifies this, votes, acc
      ensures Valid()
      ensures scores == CandidateScores(sc, settings, sqrt, theta, index)
      ensures Tallied(cellOf, votes, acc, before + (evs + [Event(theta, index, scores)]))
    {
      scores := Visit(sc, cellOf, theta, index, votes, acc);
      ghost var e := Event(theta, index, scores);
      ghost var seen := before + evs;
      assert seen + [e] == before + (evs + [e]);
      forall r, c | 0 <= r < votes.Length0 && 0 <= c < votes.Length1
        ensures votes[r, c] == Votes(seen + [e], Index(r, c))
      {
        VotesAppend(seen, e, Index(r, c));
      }
      forall r, c | 0 <= r < acc.Length0 && 0 <= c < acc.Length1
        ensures acc[r, c] == Accumulate(EmptyCell, seen + [e], Index(r, c), cellOf)
      {
        AccumulateAppend(EmptyCell, seen, e, Index(r, c), cellOf);
      }
    }

    /** One candidate: match it, score a success, vote for its index and
        update the coarse cell it falls in. */
    method Visit(sc: Scene, cellOf: Index -> Option<Index>, theta: int, index: Index,
                 votes: array2<int>, acc: array2<Cell>) returns (scores: Option<Scores>)
      requires Valid() && sc.Valid() && InRange(index, Size(votes.Length0, votes.Length1))
      requires forall x :: cellOf(x).Some? ==> InRange(cellOf(x).value, Size(acc.Length0, acc.Length1))
      modifies this, votes, acc
      ensures Valid()
      ensures scores == CandidateScores(sc, settings, sqrt, theta, index)
      ensures forall r, c | 0 <= r < votes.Length0 && 0 <= c < votes.Length1 ::
        votes[r, c] == old(votes[r, c]) + (if scores.Some? && index == Index(r, c) then 1 else 0)
      ensures forall r, c | 0 <= r < acc.Length0 && 0 <= c < acc.Length1 ::
        acc[r, c] == Apply(old(acc[r, c]), Event(theta, index, scores), Index(r, c), cellOf)
    {
      var success := FindMatches(sc, index, theta);
      scores := None;
      if success {
        var errSad := ErrorSad();
        var errSsd := ErrorSsd();
        var corrNcc := CorrelationNcc();
        scores := Some(Scores(corrNcc, errSsd, errSad, MiSentinel));
        votes[index.row, index.col] := votes[index.row, index.col] + 1;
        var cell := cellOf(index);
        if cell.Some? {
          acc[cell.value.row, cell.value.col] := UpdateCell(acc[cell.value.row, cell.value.col], scores.value, theta);
        }
      }
    }

    /** The votes and the coarse map hold what the events of the first t
        rotations give them. */
    ghost predicate Swept(sc: Scene, cands: seq<Index>, cellOf: Index -> Option<Index>,
                          votes: array2<int>, acc: array2<Cell>, t: nat)
      reads this, votes, acc
    {
      Valid() && sc.Valid() && Tallied(cellOf, votes, acc, Sweeps(sc, settings, sqrt, cands, t))
    }

    /** One pass of the rotation loop at theta = t * inc: the votes and the
        coarse map move on from the events of the first t rotations to those
        of the first t + 1. */
    method SweepInto(sc: Scene, cands: seq<Index>, cellOf: Index -> Option<Index>, theta: int, ghost t: nat, ghost next: nat,
                     votes: array2<int>, acc: array2<Cell>) returns (b: Bests)
      requires theta == t * settings.angleIncrement && next == t + 1
      requires votes.Length0 == sc.reference.size.rows && votes.Length1 == sc.reference.size.cols
      requires forall x :: cellOf(x).Some? ==> InRange(cellOf(x).value, Size(acc.Length0, acc.Length1))
      requires Swept(sc, cands, cellOf, votes, acc, t)
      modifies this, votes, acc
      ensures b == BestsOf(Sweep(sc, settings, sqrt, cands, theta))
      ensures Swept(sc, cands, cellOf, votes, acc, next)
    {
      SweepsStep(sc, settings, sqrt, cands, t);
      b := SweepRotation(sc, cands, cellOf, theta, votes, acc, Sweeps(sc, settings, sqrt, cands, t));
    }

    /** The rotation loop's state after t rotations: their bests fill the
        first t slots, and the votes and the coarse map hold their events. */
    ghost predicate Rotated(sc: Scene, cands: seq<Index>, cellOf: Index -> Option<Index>,
                            best: array<Bests>, votes: array2<int>, acc: array2<Cell>, t: nat)
      reads this, best, votes, acc
    {
      && Valid() && sc.Valid() && t <= best.Length == RotationSlots(settings.angleIncrement)
      && (forall s | 0 <= s < t :: best[s] == SlotBests(sc, settings, sqrt, cands, best.Length)[s])
      && Swept(sc, cands, cellOf, votes, acc, t)
    }

    /** One pass of the rotation loop: sweep rotation theta = t * inc and
        store its bests in slot theta / inc. */
    method Rotate(sc: Scene, cands: seq<Index>, cellOf: Index -> Option<Index>, theta: int, ghost t: nat, ghost next: nat,
                  best: array<Bests>, votes: array2<int>, acc: array2<Cell>)
      requires theta == t * settings.angleIncrement && next == t + 1 && theta < 360
      requires votes.Length0 == sc.reference.size.rows && votes.Length1 == sc.reference.size.cols
      requires forall x :: cellOf(x).Some? ==> InRange(cellOf(x).value, Size(acc.Length0, acc.Length1))
      requires Rotated(sc, cands, cellOf, best, votes, acc, t)
      modifies this, best, votes, acc
      ensures Rotated(sc, cands, cellOf, best, votes, acc, next)
    {
      var inc := settings.angleIncrement;
      RotationSlotsInRange(inc, t);
      var b := SweepInto(sc, cands, cellOf, theta, t, next, votes, acc);
      var slot := theta / inc;
      SlotBestsAt(sc, settings, sqrt, cands, best.Length, t);
      best[slot] := b;
    }

    /** The rotation loop of `exhaustiveSearch`: theta runs over the
        multiples of the angle increment below 360; each rotation's bests go
        to its slot, and the votes and the coarse map take in its events. */
    method SweepAll(sc: Scene, cands: seq<Index>, coarse: Size, cellOf: Index -> Option<Index>)
      returns (best: array<Bests>, votes: array2<int>, acc: array2<Cell>)
      requires Valid() && sc.Valid()
      requires forall x :: cellOf(x).Some? ==> InRange(cellOf(x).value, coarse)
      modifies this
      ensures Valid()
      ensures fresh(best) && fresh(votes) && fresh(acc)
      ensures best[..] == SlotBests(sc, settings, sqrt, cands, RotationSlots(settings.angleIncrement))
      ensures votes.Length0 == sc.reference.size.rows && votes.Length1 == sc.reference.size.cols
      ensures forall r, c | 0 <= r < votes.Length0 && 0 <= c < votes.Length1 ::
        votes[r, c] == Votes(Sweeps(sc, settings, sqrt, cands, RotationSlots(settings.angleIncrement)), Index(r, c))
      ensures acc.Length0 == coarse.rows && acc.Length1 == coarse.cols
      ensures forall r, c | 0 <= r < coarse.rows && 0 <= c < coarse.cols ::
        acc[r, c] == Accumulate(EmptyCell, Sweeps(sc, settings, sqrt, cands, RotationSlots(settings.angleIncrement)), Index(r, c), cellOf)
    {
      var inc := settings.angleIncrement;
      var n := RotationSlots(inc);
      votes := new int[sc.reference.size.rows, sc.reference.size.cols]((_, _) => 0);
      acc := new Cell[coarse.rows, coarse.cols]((_, _) => EmptyCell);
      best := new Bests[n](_ => Reset);
      var theta := 0;
      ghost var t := 0;
      while theta < 360
        invariant 0 <= t <= n && theta == t * inc
        invariant Rotated(sc, cands, cellOf, best, votes, acc, t)
        decreases 360 - theta
      {
        RotationSlotsInRange(inc, t);
        ghost var next := t + 1;
        Rotate(sc, cands, cellOf, theta, t, next, best, votes, acc);
        theta := theta + inc;
        t := next;
      }
      RotationSlotsInRange(inc, t);
      assert t == n;
      assert best[..] == SlotBests(sc, settings, sqrt, cands, n);
    }

    /** `exhaustiveSearch`: the rotation loop theta = 0, inc, ... while
        theta < 360, one candidate sweep per rotation into arrays sized by
        the number of rotations actually tried, then the choice of one
        rotation per score, and `findZ` at the correlation choice. */
    method ExhaustiveSearch(sc: Scene, cands: seq<Index>, coarse: Size, cellOf: Index -> Option<Index>,
                            samples: seq<Index>, lookup: (Index, int) -> (Index -> Option<real>))
      returns (outcome: Outcome, acc: array2<Cell>)
      requires Valid() && sc.Valid()
      requires forall x :: cellOf(x).Some? ==> InRange(cellOf(x).value, coarse)
      requires forall k | 0 <= k < |samples| :: InRange(samples[k], sc.live.size)
      modifies this
      ensures Valid()
      ensures fresh(acc) && acc.Length0 == coarse.rows && acc.Length1 == coarse.cols
      ensures var n, inc := RotationSlots(settings.angleIncrement), settings.angleIncrement;
        var evs, bs := Sweeps(sc, settings, sqrt, cands, n), SlotBests(sc, settings, sqrt, cands, n);
        && outcome.correlation == Choose(bs, Correlation, settings.corrThreshold, evs, n, inc)
        && outcome.ssd == Choose(bs, SquaredError, settings.ssdThreshold, evs, n, inc)
        && outcome.sad == Choose(bs, AbsoluteError, settings.sadThreshold, evs, n, inc)
        && outcome.mi == Choose(bs, MutualInformation, settings.miThreshold, evs, n, inc)
      ensures forall r, c | 0 <= r < coarse.rows && 0 <= c < coarse.cols ::
        acc[r, c] == Accumulate(EmptyCell, Sweeps(sc, settings, sqrt, cands, RotationSlots(settings.angleIncrement)), Index(r, c), cellOf)
      ensures var choice := outcome.correlation;
        outcome.z == if choice.at.Some? && choice.theta.Some?
                     then var pairs := ZPairs(sc.live, samples, lookup(choice.at.value, choice.theta.value));
                          ZOffset(pairs.0, pairs.1)
                     else None
    {
      var inc := settings.angleIncrement;
      var n := RotationSlots(inc);
      var best, votes;
      best, votes, acc := SweepAll(sc, cands, coarse, cellOf);
      ghost var evs := Sweeps(sc, settings, sqrt, cands, n);
      SlotBestsInRange(sc, settings, sqrt, cands, n, Correlation);
      SlotBestsInRange(sc, settings, sqrt, cands, n, SquaredError);
      SlotBestsInRange(sc, settings, sqrt, cands, n, AbsoluteError);
      SlotBestsInRange(sc, settings, sqrt, cands, n, MutualInformation);
      var correlation := SelectBest(best, Correlation, settings.corrThreshold, votes, evs, n, inc);
      var ssd := SelectBest(best, SquaredError, settings.ssdThreshold, votes, evs, n, inc);
      var sad := SelectBest(best, AbsoluteError, settings.sadThreshold, votes, evs, n, inc);
      var mi := SelectBest(best, MutualInformation, settings.miThreshold, votes, evs, n, inc);
      var z: Option<real> := None;
      if correlation.at.Some? && correlation.theta.Some? {
        z := FindZ(sc.live, samples, lookup(correlation.at.value, correlation.theta.value));
      }
      outcome := Outcome(correlation, ssd, sad, mi, z);
    }
  }

  /** The loop over the rotation slots for score m: a slot replaces the
      running choice when it strictly beats it, meets the threshold and its
      index has `full` votes. */
  method SelectBest(best: array<Bests>, m: Metric, threshold: real, votes: array2<int>,
                    ghost evs: seq<Event>, full: int, inc: int) returns (c: Choice)
    requires forall i | 0 <= i < best.Length && best[i].Get(m).at.Some? ::
      InRange(best[i].Get(m).at.value, Size(votes.Length0, votes.Length1))
    requires forall r, c | 0 <= r < votes.Length0 && 0 <= c < votes.Length1 :: votes[r, c] == Votes(evs, Index(r, c))
    ensures c == Choose(best[..], m, threshold, evs, full, inc)
  {
    c := Choice(Sentinel(m), None, None);
    var i := 0;
    while i < best.Length
      invariant 0 <= i <= best.Length
      invariant c == Choose(best[..i], m, threshold, evs, full, inc)
    {
      var slot := best[i].Get(m);
      ChooseAppend(best[..i], best[i], m, threshold, evs, full, inc);
      assert best[..i + 1] == best[..i] + [best[i]];
      if Beats(m, slot.score, c.score) && Meets(m, slot.score, threshold) {
        if slot.at.Some? && votes[slot.at.value.row, slot.at.value.col] == full {
          c := Choice(slot.score, Some(i * inc), slot.at);
        }
      }
      i := i + 1;
    }
    assert best[..i] == best[..];
  }

  /** `findZ`: the mean reference elevation minus the mean live elevation
      over the samples whose live elevation is defined and whose moved
      position reads a defined reference elevation. */
  method FindZ(live: Grid, samples: seq<Index>, lookup: Index -> Option<real>) returns (z: Option<real>)
    requires live.Valid() && forall k | 0 <= k < |samples| :: InRange(samples[k], live.size)
    ensures var pairs := ZPairs(live, samples, lookup); z == ZOffset(pairs.0, pairs.1)
  {
    var shiftedMean, referenceMean := 0.0, 0.0;
    var matches := 0;
    var k := 0;
    while k < |samples|
      invariant 0 <= k <= |samples|
      invariant var pairs := ZPairs(live, samples[..k], lookup);
        matches == |pairs.0| && shiftedMean == Sum(pairs.0) && referenceMean == Sum(pairs.1)
    {
      ghost var prev := ZPairs(live, samples[..k], lookup);
      assert samples[..k + 1][..k] == samples[..k];
      var shifted := live.At(samples[k]);
      if shifted.Some? {
        var reference := lookup(samples[k]);
        if reference.Some? {
          SumAppend(prev.0, shifted.value);
          SumAppend(prev.1, reference.value);
          matches := matches + 1;
          shiftedMean := shiftedMean + shifted.value;
          referenceMean := referenceMean + reference.value;
        }
      }
      k := k + 1;
    }
    assert samples[..k] == samples;
    if matches == 0 {
      z := None;
    } else {
      shiftedMean := shiftedMean / matches as real;
      referenceMean := referenceMean / matches as real;
      z := Some(referenceMean - shiftedMean);
    }
  }
}
