/** The coarse `correlationMap` of `exhaustiveSearch`: for every cell it keeps,
    per score, the best value seen over all rotations together with the
    rotation that produced it (the layers "correlation"/"rotationNCC",
    "SSD"/"rotationSSD", "SAD"/"rotationSAD" and "MI"/"rotationMI"). */
module Accumulation {
  import opened Wrappers
  import opened Grids

  /** The mutual-information score every candidate carries: the call that
      would compute it is disabled, so it keeps its initial value -10. */
  const MiSentinel: real := -10.0

  /** The scores of one successful match; `None` marks a non-finite score. */
  datatype Scores = Scores(ncc: Option<real>, ssd: Option<real>, sad: Option<real>, mi: real)

  /** One candidate tried at one rotation: the rotation in degrees, the
      candidate's index in the reference map, and its scores when the
      overlap gate passed. */
  datatype Event = Event(theta: int, at: Index, scores: Option<Scores>)

  /** One cell of the coarse map; `None` is an invalid (NaN) layer value. */
  datatype Cell = Cell(correlation: Option<real>, rotationNcc: Option<int>,
                       ssd: Option<real>, rotationSsd: Option<int>,
                       sad: Option<real>, rotationSad: Option<int>,
                       mi: Option<real>, rotationMi: Option<int>)

  const EmptyCell := Cell(None, None, None, None, None, None, None, None)

  function Plus(x: Option<real>, d: real): Option<real> {
    if x.Some? then Some(x.value + d) else None
  }

  function Times(x: Option<real>, k: real): Option<real> {
    if x.Some? then Some(x.value * k) else None
  }

  /** The gate of a higher-is-better layer: the stored value is invalid, or
      the candidate is strictly larger (a NaN candidate never is). */
  predicate Raises(candidate: Option<real>, stored: Option<real>) {
    stored.None? || (candidate.Some? && candidate.value > stored.value)
  }

  /** The gate of a lower-is-better layer. */
  predicate Lowers(candidate: Option<real>, stored: Option<real>) {
    stored.None? || (candidate.Some? && candidate.value < stored.value)
  }

  /** The update of one cell by one successful candidate at rotation theta.
      "correlation" holds NCC + 1.5 and only ever grows; "SSD" holds 5 * SSD
      and only ever shrinks; each rotation layer moves together with its
      score layer. The "SAD" layer is written with 5 * SAD but gated on
      5 * SSD being below the stored SAD. */
  function UpdateCell(c: Cell, s: Scores, theta: int): (r: Cell)
    ensures c.correlation.Some? ==> r.correlation.Some? && r.correlation.value >= c.correlation.value
    ensures s.ncc.Some? ==> r.correlation.Some? && r.correlation.value >= s.ncc.value + 1.5
    ensures c.ssd.Some? ==> r.ssd.Some? && r.ssd.value <= c.ssd.value
    ensures s.ssd.Some? ==> r.ssd.Some? && r.ssd.value <= s.ssd.value * 5.0
    ensures (r.correlation, r.rotationNcc) == (c.correlation, c.rotationNcc)
         || (r.correlation, r.rotationNcc) == (Plus(s.ncc, 1.5), Some(theta))
    ensures (r.ssd, r.rotationSsd) == (c.ssd, c.rotationSsd)
         || (r.ssd, r.rotationSsd) == (Times(s.ssd, 5.0), Some(theta))
    ensures (r.sad, r.rotationSad) == (c.sad, c.rotationSad)
         || (r.sad, r.rotationSad) == (Times(s.sad, 5.0), Some(theta))
    ensures (r.mi, r.rotationMi) == (c.mi, c.rotationMi)
         || (r.mi, r.rotationMi) == (Some(s.mi), Some(theta))
    // The gates are strict: a stored value is replaced only by a strictly
    // better one, so on a tie the earlier rotation stays.
    ensures c.correlation.Some? && (s.ncc.None? || s.ncc.value + 1.5 <= c.correlation.value)
        ==> (r.correlation, r.rotationNcc) == (c.correlation, c.rotationNcc)
    ensures s.ncc.Some? && (c.correlation.None? || s.ncc.value + 1.5 > c.correlation.value)
        ==> (r.correlation, r.rotationNcc) == (Some(s.ncc.value + 1.5), Some(theta))
    ensures c.ssd.Some? && (s.ssd.None? || s.ssd.value * 5.0 >= c.ssd.value)
        ==> (r.ssd, r.rotationSsd) == (c.ssd, c.rotationSsd)
    ensures s.ssd.Some? && (c.ssd.None? || s.ssd.value * 5.0 < c.ssd.value)
        ==> (r.ssd, r.rotationSsd) == (Some(s.ssd.value * 5.0), Some(theta))
    ensures c.sad.Some? && (s.ssd.None? || s.ssd.value * 5.0 >= c.sad.value)
        ==> (r.sad, r.rotationSad) == (c.sad, c.rotationSad)
    ensures c.sad.None? || (s.ssd.Some? && s.ssd.value * 5.0 < c.sad.value)
        ==> (r.sad, r.rotationSad) == (Times(s.sad, 5.0), Some(theta))
    ensures c.mi.Some? && s.mi <= c.mi.value ==> (r.mi, r.rotationMi) == (c.mi, c.rotationMi)
    ensures c.mi.None? || s.mi > c.mi.value ==> (r.mi, r.rotationMi) == (Some(s.mi), Some(theta))
    // An invalid layer takes the current theta even when the score is undefined.
    ensures c.correlation.None? ==> (r.correlation, r.rotationNcc) == (Plus(s.ncc, 1.5), Some(theta))
    ensures c.ssd.None? ==> (r.ssd, r.rotationSsd) == (Times(s.ssd, 5.0), Some(theta))
  {
    var correlation, ssd, sad := Plus(s.ncc, 1.5), Times(s.ssd, 5.0), Times(s.sad, 5.0);
    var c1 := if Raises(correlation, c.correlation) then c.(correlation := correlation, rotationNcc := Some(theta)) else c;
    var c2 := if Lowers(ssd, c1.ssd) then c1.(ssd := ssd, rotationSsd := Some(theta)) else c1;
    var c3 := if Lowers(ssd, c2.sad) then c2.(sad := sad, rotationSad := Some(theta)) else c2;
    if Raises(Some(s.mi), c3.mi) then c3.(mi := Some(s.mi), rotationMi := Some(theta)) else c3
  }

  /** Because the SAD layer is gated on the SSD score, a stored SAD can be
      replaced by a larger one. */
  lemma SadCanGrow()
    ensures var c := EmptyCell.(sad := Some(1.0), rotationSad := Some(0));
      UpdateCell(c, Scores(None, Some(0.1), Some(1.0), MiSentinel), 90).sad == Some(5.0)
  {
  }

  /** An event reaches the cell `target` when it succeeded and its
      candidate's position lies in that coarse cell. */
  predicate Touches(e: Event, target: Index, cellOf: Index -> Option<Index>) {
    e.scores.Some? && cellOf(e.at) == Some(target)
  }

  /** The cell `target` after the event e: updated when e reaches it. */
  function Apply(c: Cell, e: Event, target: Index, cellOf: Index -> Option<Index>): Cell {
    if Touches(e, target, cellOf) then UpdateCell(c, e.scores.value, e.theta) else c
  }

  /** The cell `target` after the events evs, in order, starting from c. */
  function Accumulate(c: Cell, evs: seq<Event>, target: Index, cellOf: Index -> Option<Index>): Cell {
    if evs == [] then c
    else Apply(Accumulate(c, evs[..|evs| - 1], target, cellOf), evs[|evs| - 1], target, cellOf)
  }

  lemma AccumulateAppend(c: Cell, evs: seq<Event>, e: Event, target: Index, cellOf: Index -> Option<Index>)
    ensures Accumulate(c, evs + [e], target, cellOf) == Apply(Accumulate(c, evs, target, cellOf), e, target, cellOf)
  {
    assert (evs + [e])[..|evs|] == evs;
  }

  /** Running the events of a + b is running those of a, then those of b. */
  lemma {:induction false} AccumulateConcat(c: Cell, a: seq<Event>, b: seq<Event>, target: Index, cellOf: Index -> Option<Index>)
    ensures Accumulate(c, a + b, target, cellOf) == Accumulate(Accumulate(c, a, target, cellOf), b, target, cellOf)
    decreases |b|
  {
    if b == [] {
      assert a + b == a;
    } else {
      var n := |b| - 1;
      assert a + b == (a + b[..n]) + [b[n]];
      assert b == b[..n] + [b[n]];
      AccumulateAppend(c, a + b[..n], b[n], target, cellOf);
      AccumulateConcat(c, a, b[..n], target, cellOf);
      AccumulateAppend(Accumulate(c, a, target, cellOf), b[..n], b[n], target, cellOf);
    }
  }

  /** Event k touched the cell with a defined NCC. */
  predicate NccAt(evs: seq<Event>, target: Index, cellOf: Index -> Option<Index>, k: int) {
    0 <= k < |evs| && Touches(evs[k], target, cellOf) && evs[k].scores.value.ncc.Some?
  }

  /** Event k is the first touching event whose NCC + 1.5 is `best`, every
      earlier one offering strictly less, and `rotation` is its theta. */
  predicate FirstNccReaching(evs: seq<Event>, target: Index, cellOf: Index -> Option<Index>, k: int,
                             best: real, rotation: Option<int>) {
    && NccAt(evs, target, cellOf, k)
    && evs[k].scores.value.ncc.value + 1.5 == best && rotation == Some(evs[k].theta)
    && forall j | 0 <= j < k && NccAt(evs, target, cellOf, j) :: evs[j].scores.value.ncc.value + 1.5 < best
  }

  /** The "correlation" layer of a cell ends up at least as large as
      NCC + 1.5 of every defined candidate that reached it, and the pair
      (correlation, rotationNCC) is either still unset or was written by one
      of those candidates. The layer is defined exactly when some candidate
      with a defined NCC reached the cell, and then, because the gate is
      strict, the rotation is that of the first candidate reaching the
      maximum. */
  lemma {:induction false} CorrelationIsBest(evs: seq<Event>, target: Index, cellOf: Index -> Option<Index>)
    ensures var r := Accumulate(EmptyCell, evs, target, cellOf);
      forall k | 0 <= k < |evs| && Touches(evs[k], target, cellOf) && evs[k].scores.value.ncc.Some? ::
        r.correlation.Some? && r.correlation.value >= evs[k].scores.value.ncc.value + 1.5
    ensures var r := Accumulate(EmptyCell, evs, target, cellOf);
      (r.correlation, r.rotationNcc) == (None, None)
      || exists k | 0 <= k < |evs| && Touches(evs[k], target, cellOf) ::
           (r.correlation, r.rotationNcc) == (Plus(evs[k].scores.value.ncc, 1.5), Some(evs[k].theta))
    ensures var r := Accumulate(EmptyCell, evs, target, cellOf);
      r.correlation.Some? <==> exists k :: NccAt(evs, target, cellOf, k)
    ensures var r := Accumulate(EmptyCell, evs, target, cellOf);
      r.correlation.Some? ==> exists k :: FirstNccReaching(evs, target, cellOf, k, r.correlation.value, r.rotationNcc)
  {
    if evs != [] {
      var n := |evs| - 1;
      var prefix := evs[..n];
      CorrelationIsBest(prefix, target, cellOf);
      var p := Accumulate(EmptyCell, prefix, target, cellOf);
      var r := Accumulate(EmptyCell, evs, target, cellOf);
      assert forall k | 0 <= k < n :: prefix[k] == evs[k];
      assert forall k | 0 <= k < n :: NccAt(prefix, target, cellOf, k) == NccAt(evs, target, cellOf, k);
      if (p.correlation, p.rotationNcc) != (None, None) && (r.correlation, r.rotationNcc) == (p.correlation, p.rotationNcc) {
        var k :| 0 <= k < n && Touches(prefix[k], target, cellOf)
              && (p.correlation, p.rotationNcc) == (Plus(prefix[k].scores.value.ncc, 1.5), Some(prefix[k].theta));
        assert Touches(evs[k], target, cellOf);
      }
      if p.correlation.Some? {
        var k :| FirstNccReaching(prefix, target, cellOf, k, p.correlation.value, p.rotationNcc);
        assert NccAt(evs, target, cellOf, k);
        if (r.correlation, r.rotationNcc) == (p.correlation, p.rotationNcc) {
          assert FirstNccReaching(evs, target, cellOf, k, r.correlation.value, r.rotationNcc);
        } else {
          assert FirstNccReaching(evs, target, cellOf, n, r.correlation.value, r.rotationNcc);
        }
      } else if r.correlation.Some? {
        assert FirstNccReaching(evs, target, cellOf, n, r.correlation.value, r.rotationNcc);
      } else {
        assert !NccAt(evs, target, cellOf, n);
      }
    }
  }

  /** Event k touched the cell with a defined SSD. */
  predicate SsdAt(evs: seq<Event>, target: Index, cellOf: Index -> Option<Index>, k: int) {
    0 <= k < |evs| && Touches(evs[k], target, cellOf) && evs[k].scores.value.ssd.Some?
  }

  /** Event k is the first touching event whose 5 * SSD is `best`, every
      earlier one offering strictly more, and `rotation` is its theta. */
  predicate FirstSsdReaching(evs: seq<Event>, target: Index, cellOf: Index -> Option<Index>, k: int,
                             best: real, rotation: Option<int>) {
    && SsdAt(evs, target, cellOf, k)
    && evs[k].scores.value.ssd.value * 5.0 == best && rotation == Some(evs[k].theta)
    && forall j | 0 <= j < k && SsdAt(evs, target, cellOf, j) :: evs[j].scores.value.ssd.value * 5.0 > best
  }

  /** The "SSD" layer of a cell ends up at most 5 * SSD of every defined
      candidate that reached it, and (SSD, rotationSSD) is either still unset
      or was written by one of those candidates. The layer is defined
      exactly when some candidate with a defined SSD reached the cell, and
      then, because the gate is strict, the rotation is that of the first
      candidate reaching the minimum. */
  lemma {:induction false} SsdIsBest(evs: seq<Event>, target: Index, cellOf: Index -> Option<Index>)
    ensures var r := Accumulate(EmptyCell, evs, target, cellOf);
      forall k | 0 <= k < |evs| && Touches(evs[k], target, cellOf) && evs[k].scores.value.ssd.Some? ::
        r.ssd.Some? && r.ssd.value <= evs[k].scores.value.ssd.value * 5.0
    ensures var r := Accumulate(EmptyCell, evs, target, cellOf);
      (r.ssd, r.rotationSsd) == (None, None)
      || exists k | 0 <= k < |evs| && Touches(evs[k], target, cellOf) ::
           (r.ssd, r.rotationSsd) == (Times(evs[k].scores.value.ssd, 5.0), Some(evs[k].theta))
    ensures var r := Accumulate(EmptyCell, evs, target, cellOf);
      r.ssd.Some? <==> exists k :: SsdAt(evs, target, cellOf, k)
    ensures var r := Accumulate(EmptyCell, evs, target, cellOf);
      r.ssd.Some? ==> exists k :: FirstSsdReaching(evs, target, cellOf, k, r.ssd.value, r.rotationSsd)
  {
    if evs != [] {
      var n := |evs| - 1;
      var prefix := evs[..n];
      SsdIsBest(prefix, target, cellOf);
      var p := Accumulate(EmptyCell, prefix, target, cellOf);
      var r := Accumulate(EmptyCell, evs, target, cellOf);
      assert forall k | 0 <= k < n :: prefix[k] == evs[k];
      assert forall k | 0 <= k < n :: SsdAt(prefix, target, cellOf, k) == SsdAt(evs, target, cellOf, k);
      if (p.ssd, p.rotationSsd) != (None, None) && (r.ssd, r.rotationSsd) == (p.ssd, p.rotationSsd) {
        var k :| 0 <= k < n && Touches(prefix[k], target, cellOf)
              && (p.ssd, p.rotationSsd) == (Times(prefix[k].scores.value.ssd, 5.0), Some(prefix[k].theta));
        assert Touches(evs[k], target, cellOf);
      }
      if p.ssd.Some? {
        var k :| FirstSsdReaching(prefix, target, cellOf, k, p.ssd.value, p.rotationSsd);
        assert SsdAt(evs, target, cellOf, k);
        if (r.ssd, r.rotationSsd) == (p.ssd, p.rotationSsd) {
          assert FirstSsdReaching(evs, target, cellOf, k, r.ssd.value, r.rotationSsd);
        } else {
          assert FirstSsdReaching(evs, target, cellOf, n, r.ssd.value, r.rotationSsd);
        }
      } else if r.ssd.Some? {
        assert FirstSsdReaching(evs, target, cellOf, n, r.ssd.value, r.rotationSsd);
      } else {
        assert !SsdAt(evs, target, cellOf, n);
      }
    }
  }

  /** The "SAD" layer is gated on the SSD score, so it follows no best
      value of its own: the pair (SAD, rotationSAD) is either still unset or
      was written by one of the candidates that reached the cell. The
      rotation is set exactly when some candidate reached the cell, since
      the first one finds the layer invalid and writes it whatever its
      scores. */
  lemma {:induction false} SadIsWritten(evs: seq<Event>, target: Index, cellOf: Index -> Option<Index>)
    ensures var r := Accumulate(EmptyCell, evs, target, cellOf);
      (r.sad, r.rotationSad) == (None, None)
      || exists k | 0 <= k < |evs| && Touches(evs[k], target, cellOf) ::
           (r.sad, r.rotationSad) == (Times(evs[k].scores.value.sad, 5.0), Some(evs[k].theta))
    ensures var r := Accumulate(EmptyCell, evs, target, cellOf);
      r.rotationSad.Some? <==> exists k | 0 <= k < |evs| :: Touches(evs[k], target, cellOf)
  {
    if evs != [] {
      var n := |evs| - 1;
      var prefix := evs[..n];
      SadIsWritten(prefix, target, cellOf);
      var p := Accumulate(EmptyCell, prefix, target, cellOf);
      var r := Accumulate(EmptyCell, evs, target, cellOf);
      assert forall k | 0 <= k < n :: prefix[k] == evs[k];
      if (p.sad, p.rotationSad) != (None, None) && (r.sad, r.rotationSad) == (p.sad, p.rotationSad) {
        var k :| 0 <= k < n && Touches(prefix[k], target, cellOf)
              && (p.sad, p.rotationSad) == (Times(prefix[k].scores.value.sad, 5.0), Some(prefix[k].theta));
        assert Touches(evs[k], target, cellOf);
      }
      if p.rotationSad.Some? {
        var k :| 0 <= k < n && Touches(prefix[k], target, cellOf);
        assert Touches(evs[k], target, cellOf);
      } else if !Touches(evs[n], target, cellOf) {
        assert forall k | 0 <= k < |evs| :: !Touches(evs[k], target, cellOf);
      }
    }
  }

  /** The first successful candidate to reach a cell sets every layer (the
      layers start invalid); afterwards the MI layer keeps that first
      candidate's rotation, since every candidate carries the same MI. */
  lemma {:induction false} MiKeepsFirstRotation(evs: seq<Event>, target: Index, cellOf: Index -> Option<Index>, k: nat)
    requires k < |evs| && Touches(evs[k], target, cellOf)
    requires forall j | 0 <= j < k :: !Touches(evs[j], target, cellOf)
    requires forall j | 0 <= j < |evs| && evs[j].scores.Some? :: evs[j].scores.value.mi == MiSentinel
    ensures var r := Accumulate(EmptyCell, evs, target, cellOf);
      r.mi == Some(MiSentinel) && r.rotationMi == Some(evs[k].theta)
    decreases |evs|
  {
    var n := |evs| - 1;
    var prefix := evs[..n];
    assert forall j | 0 <= j < n :: prefix[j] == evs[j];
    if k == n {
      NothingReached(prefix, target, cellOf);
    } else {
      MiKeepsFirstRotation(prefix, target, cellOf, k);
    }
  }

  lemma {:induction false} NothingReached(evs: seq<Event>, target: Index, cellOf: Index -> Option<Index>)
    requires forall j | 0 <= j < |evs| :: !Touches(evs[j], target, cellOf)
    ensures Accumulate(EmptyCell, evs, target, cellOf) == EmptyCell
  {
    if evs != [] {
      var prefix := evs[..|evs| - 1];
      assert forall j | 0 <= j < |prefix| :: prefix[j] == evs[j];
      NothingReached(prefix, target, cellOf);
    }
  }
}
