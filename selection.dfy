/** The per-rotation bookkeeping and the final pick of `exhaustiveSearch`:
    the best score of each rotation with the candidate that reached it first,
    the vote count of every candidate over the rotations, and the gated
    choice of one rotation per score. */
module Selection {
  import opened Wrappers
  import opened Grids
  import opened Accumulation

  /* ---------------- rotation slots ---------------- */

  /** The length the per-rotation arrays are declared with,
      `int(360/angleIncrement_)` on an integer increment. */
  function SlotsAsWritten(inc: int): int
    requires inc > 0
  {
    360 / inc
  }

  /** The number of rotations the theta loop tries (theta = 0, inc, 2 inc, ...
      while theta < 360): 360 / inc rounded up. */
  function RotationSlots(inc: int): (n: nat)
    requires inc > 0
    ensures n >= 1
  {
    (360 + inc - 1) / inc
  }

  /** With an increment of 7 degrees the loop reaches theta = 357, whose slot
      357 / 7 = 51 is one past the end of arrays declared with 360 / 7 = 51
      entries. */
  lemma SlotOverflowAsWritten()
    ensures 357 < 360 && 357 % 7 == 0
    ensures 357 / 7 == SlotsAsWritten(7)
  {
  }

  /** The t-th rotation tried is t * inc, its slot is t, and it is tried
      exactly when t is below RotationSlots(inc): arrays of that length hold
      every slot the loop writes. */
  lemma RotationSlotsInRange(inc: int, t: int)
    requires inc > 0 && t >= 0
    ensures (t * inc) / inc == t && t * inc + inc == (t + 1) * inc
    ensures t * inc < 360 <==> t < RotationSlots(inc)
  {
    ModUnique(t * inc, inc, t, 0);
    var n := RotationSlots(inc);
    ModUnique(360 + inc - 1, inc, n, (360 + inc - 1) % inc);
    if t < n {
      MulLe(t, n - 1, inc);
    } else {
      MulLe(n, t, inc);
    }
  }

  /** The rotation of slot i is a multiple of the increment in [0, 360). */
  lemma SlotTheta(inc: int, i: int)
    requires inc > 0 && 0 <= i < RotationSlots(inc)
    ensures 0 <= i * inc < 360 && (i * inc) % inc == 0
  {
    RotationSlotsInRange(inc, i);
    ModUnique(i * inc, inc, i, 0);
  }

  lemma MulLe(a: int, b: int, c: int)
    requires 0 <= a <= b && c >= 0
    ensures a * c <= b * c
  {
    assert b * c - a * c == (b - a) * c;
  }

  /** When the increment divides 360 the declared length is the number of
      rotations tried. */
  lemma SlotsAgreeWhenDividing(inc: int)
    requires inc > 0 && 360 % inc == 0
    ensures RotationSlots(inc) == SlotsAsWritten(inc)
  {
    ModUnique(360 + inc - 1, inc, 360 / inc, inc - 1);
  }

  /* ---------------- scores and sentinels ---------------- */

  datatype Metric = Correlation | SquaredError | AbsoluteError | MutualInformation

  predicate HigherIsBetter(m: Metric) {
    m.Correlation? || m.MutualInformation?
  }

  /** The initial value of every best-score variable: -1 for NCC, 10 for SSD
      and SAD, -10 for MI. */
  function Sentinel(m: Metric): real {
    match m
    case Correlation => -1.0
    case SquaredError => 10.0
    case AbsoluteError => 10.0
    case MutualInformation => -10.0
  }

  /** The strict comparison of the search loops: `>` for NCC and MI, `<` for SSD
      and SAD. */
  predicate Beats(m: Metric, x: real, y: real) {
    if HigherIsBetter(m) then x > y else x < y
  }

  /** The threshold test: `>=` for NCC and MI, `<=` for SSD and SAD. */
  predicate Meets(m: Metric, x: real, threshold: real) {
    if HigherIsBetter(m) then x >= threshold else x <= threshold
  }

  /** The score an event offers for metric m; `None` when the match failed or
      the score is not finite. */
  function Value(e: Event, m: Metric): Option<real> {
    if e.scores.None? then None
    else
      match m
      case Correlation => e.scores.value.ncc
      case SquaredError => e.scores.value.ssd
      case AbsoluteError => e.scores.value.sad
      case MutualInformation => Some(e.scores.value.mi)
  }

  /* ---------------- best of one rotation ---------------- */

  /** `best_X[t]` with `X_row[t]`, `X_col[t]`; `at` is `None` while no
      candidate has written the slot. */
  datatype SlotBest = SlotBest(score: real, at: Option<Index>)

  /** The four slots of one rotation. */
  datatype Bests = Bests(correlation: SlotBest, ssd: SlotBest, sad: SlotBest, mi: SlotBest) {
    function Get(m: Metric): SlotBest {
      match m
      case Correlation => correlation
      case SquaredError => ssd
      case AbsoluteError => sad
      case MutualInformation => mi
    }
  }

  /** One candidate's step of the per-rotation bests: the slot keeps its
      value unless the candidate's defined score strictly beats it, and
      afterwards the candidate's score no longer beats the slot. */
  function Improve(b: SlotBest, m: Metric, e: Event): (r: SlotBest)
    ensures r == b || (Value(e, m) == Some(r.score) && r.at == Some(e.at) && Beats(m, r.score, b.score))
    ensures !Beats(m, b.score, r.score)
    ensures Value(e, m).Some? ==> !Beats(m, Value(e, m).value, r.score)
  {
    var v := Value(e, m);
    if v.Some? && Beats(m, v.value, b.score) then SlotBest(v.value, Some(e.at)) else b
  }

  /** The slot of metric m after the candidates evs of one rotation, reset
      to the sentinel first. */
  function BestOf(evs: seq<Event>, m: Metric): SlotBest {
    if evs == [] then SlotBest(Sentinel(m), None)
    else Improve(BestOf(evs[..|evs| - 1], m), m, evs[|evs| - 1])
  }

  function BestsOf(evs: seq<Event>): Bests {
    Bests(BestOf(evs, Correlation), BestOf(evs, SquaredError), BestOf(evs, AbsoluteError), BestOf(evs, MutualInformation))
  }

  function ImproveAll(b: Bests, e: Event): Bests {
    Bests(Improve(b.correlation, Correlation, e), Improve(b.ssd, SquaredError, e),
          Improve(b.sad, AbsoluteError, e), Improve(b.mi, MutualInformation, e))
  }

  lemma BestsOfAppend(evs: seq<Event>, e: Event)
    ensures BestsOf(evs + [e]) == ImproveAll(BestsOf(evs), e)
  {
    assert (evs + [e])[..|evs|] == evs;
  }

  /** Candidate k is the first of evs to offer `score`, every earlier
      candidate offering something strictly worse. */
  predicate FirstReaching(evs: seq<Event>, m: Metric, k: int, score: real, at: Index) {
    && 0 <= k < |evs|
    && evs[k].at == at && Value(evs[k], m) == Some(score)
    && forall j | 0 <= j < k && Value(evs[j], m).Some? :: Beats(m, score, Value(evs[j], m).value)
  }

  /** The slot holds the best of the sentinel and every defined score of the
      rotation; it names a candidate exactly when some score beat the
      sentinel, and then the first candidate reaching the best score. */
  lemma {:induction false} BestOfIsFirstOptimum(evs: seq<Event>, m: Metric)
    ensures var r := BestOf(evs, m);
      && !Beats(m, Sentinel(m), r.score)
      && (forall k | 0 <= k < |evs| && Value(evs[k], m).Some? :: !Beats(m, Value(evs[k], m).value, r.score))
      && (r.at.None? ==> r.score == Sentinel(m))
      && (r.at.Some? ==> Beats(m, r.score, Sentinel(m)) && exists k :: FirstReaching(evs, m, k, r.score, r.at.value))
  {
    if evs != [] {
      var n := |evs| - 1;
      var prefix := evs[..n];
      BestOfIsFirstOptimum(prefix, m);
      assert forall j | 0 <= j < n :: prefix[j] == evs[j];
      var p, r := BestOf(prefix, m), BestOf(evs, m);
      if r != p {
        assert FirstReaching(evs, m, n, r.score, r.at.value);
      } else if r.at.Some? {
        var k :| FirstReaching(prefix, m, k, r.score, r.at.value);
        assert FirstReaching(evs, m, k, r.score, r.at.value);
      }
    }
  }

  /** Every candidate offers MI -10, which never beats the sentinel -10, so
      the MI slot is never written. */
  lemma {:induction false} MiSlotNeverWritten(evs: seq<Event>)
    requires forall j | 0 <= j < |evs| && evs[j].scores.Some? :: evs[j].scores.value.mi == MiSentinel
    ensures BestOf(evs, MutualInformation) == SlotBest(Sentinel(MutualInformation), None)
  {
    if evs != [] {
      var prefix := evs[..|evs| - 1];
      assert forall j | 0 <= j < |prefix| :: prefix[j] == evs[j];
      MiSlotNeverWritten(prefix);
    }
  }

  /* ---------------- votes ---------------- */

  /** `acceptedThetas` at idx: the number of successful matches at idx. */
  function Votes(evs: seq<Event>, idx: Index): (r: nat)
    ensures r <= |evs|
  {
    if evs == [] then 0
    else Votes(evs[..|evs| - 1], idx) + (if evs[|evs| - 1].scores.Some? && evs[|evs| - 1].at == idx then 1 else 0)
  }

  lemma VotesAppend(evs: seq<Event>, e: Event, idx: Index)
    ensures Votes(evs + [e], idx) == Votes(evs, idx) + (if e.scores.Some? && e.at == idx then 1 else 0)
  {
    assert (evs + [e])[..|evs|] == evs;
  }

  lemma {:induction false} VotesConcat(a: seq<Event>, b: seq<Event>, idx: Index)
    ensures Votes(a + b, idx) == Votes(a, idx) + Votes(b, idx)
    decreases |b|
  {
    if b == [] {
      assert a + b == a;
    } else {
      var n := |b| - 1;
      assert a + b == (a + b[..n]) + [b[n]];
      VotesAppend(a + b[..n], b[n], idx);
      VotesConcat(a, b[..n], idx);
    }
  }

  /** Some successful event of evs is at idx. */
  predicate Matched(evs: seq<Event>, idx: Index) {
    exists k | 0 <= k < |evs| :: evs[k].scores.Some? && evs[k].at == idx
  }

  predicate DistinctAts(evs: seq<Event>) {
    forall a, b | 0 <= a < b < |evs| :: evs[a].at != evs[b].at
  }

  /** Events at pairwise distinct indices give every index at most one
      vote: one exactly when it matched. */
  lemma {:induction false} VotesOfDistinct(evs: seq<Event>, idx: Index)
    requires DistinctAts(evs)
    ensures Votes(evs, idx) == if Matched(evs, idx) then 1 else 0
  {
    if evs != [] {
      var n := |evs| - 1;
      var prefix := evs[..n];
      assert forall j | 0 <= j < n :: prefix[j] == evs[j];
      VotesOfDistinct(prefix, idx);
      if Matched(evs, idx) {
        var k :| 0 <= k < |evs| && evs[k].scores.Some? && evs[k].at == idx;
        if k < n {
          assert Matched(prefix, idx);
        }
      }
      if Matched(prefix, idx) {
        var k :| 0 <= k < n && prefix[k].scores.Some? && prefix[k].at == idx;
        assert evs[k].at == idx;
      }
    }
  }

  /** The events of several rotations, one rotation after the other. */
  function Flatten(rotations: seq<seq<Event>>): seq<Event> {
    if rotations == [] then []
    else Flatten(rotations[..|rotations| - 1]) + rotations[|rotations| - 1]
  }

  /** When each rotation tries every index at most once, an index gets at
      most one vote per rotation, and as many votes as there are rotations
      exactly when it matched in every rotation. */
  lemma {:induction false} FullVotesIffMatchedEverywhere(rotations: seq<seq<Event>>, idx: Index)
    requires forall t | 0 <= t < |rotations| :: DistinctAts(rotations[t])
    ensures Votes(Flatten(rotations), idx) <= |rotations|
    ensures Votes(Flatten(rotations), idx) == |rotations| <==> forall t | 0 <= t < |rotations| :: Matched(rotations[t], idx)
  {
    if rotations != [] {
      var n := |rotations| - 1;
      var prefix := rotations[..n];
      assert forall t | 0 <= t < n :: prefix[t] == rotations[t];
      FullVotesIffMatchedEverywhere(prefix, idx);
      VotesConcat(Flatten(prefix), rotations[n], idx);
      VotesOfDistinct(rotations[n], idx);
      if Votes(Flatten(rotations), idx) != |rotations| {
        if Votes(Flatten(prefix), idx) != n {
          var t :| 0 <= t < n && !Matched(prefix[t], idx);
          assert !Matched(rotations[t], idx);
        } else {
          assert !Matched(rotations[n], idx);
        }
      }
    }
  }

  /* ---------------- final choice ---------------- */

  /** `bestX`, `bestThetaX` and the chosen index; `theta` and `at` are
      `None` while no rotation was accepted. */
  datatype Choice = Choice(score: real, theta: Option<int>, at: Option<Index>)

  /** A rotation's slot may be chosen: it beats the sentinel, meets the
      threshold, and its candidate matched as many times as there are
      rotations. */
  predicate Qualified(b: SlotBest, m: Metric, threshold: real, evs: seq<Event>, full: int) {
    Beats(m, b.score, Sentinel(m)) && Meets(m, b.score, threshold) && b.at.Some? && Votes(evs, b.at.value) == full
  }

  /** The loop over the rotation slots: a slot replaces the running choice
      when it strictly beats it, meets the threshold and has full votes. */
  function Choose(bs: seq<Bests>, m: Metric, threshold: real, evs: seq<Event>, full: int, inc: int): Choice {
    if bs == [] then Choice(Sentinel(m), None, None)
    else
      var c := Choose(bs[..|bs| - 1], m, threshold, evs, full, inc);
      var b := bs[|bs| - 1].Get(m);
      if Beats(m, b.score, c.score) && Meets(m, b.score, threshold) && b.at.Some? && Votes(evs, b.at.value) == full
      then Choice(b.score, Some((|bs| - 1) * inc), b.at)
      else c
  }

  lemma ChooseAppend(bs: seq<Bests>, b: Bests, m: Metric, threshold: real, evs: seq<Event>, full: int, inc: int)
    ensures var c := Choose(bs, m, threshold, evs, full, inc);
      var s := b.Get(m);
      Choose(bs + [b], m, threshold, evs, full, inc)
        == if Beats(m, s.score, c.score) && Meets(m, s.score, threshold) && s.at.Some? && Votes(evs, s.at.value) == full
           then Choice(s.score, Some(|bs| * inc), s.at) else c
  {
    assert (bs + [b])[..|bs|] == bs;
  }

  /** Slot i is the chosen one: it qualifies, and every qualified slot
      before it is strictly worse. */
  predicate ChosenAt(bs: seq<Bests>, m: Metric, threshold: real, evs: seq<Event>, full: int, inc: int, i: int, c: Choice) {
    && 0 <= i < |bs|
    && Qualified(bs[i].Get(m), m, threshold, evs, full)
    && c == Choice(bs[i].Get(m).score, Some(i * inc), bs[i].Get(m).at)
    && forall j | 0 <= j < i && Qualified(bs[j].Get(m), m, threshold, evs, full) :: Beats(m, c.score, bs[j].Get(m).score)
  }

  /** The choice is the best qualified slot, the earliest one among equals,
      at theta = i * inc; when no slot qualifies it stays at the sentinel. */
  lemma {:induction false} ChooseIsBestQualified(bs: seq<Bests>, m: Metric, threshold: real, evs: seq<Event>, full: int, inc: int)
    ensures var c := Choose(bs, m, threshold, evs, full, inc);
      && (forall i | 0 <= i < |bs| && Qualified(bs[i].Get(m), m, threshold, evs, full) :: !Beats(m, bs[i].Get(m).score, c.score))
      && (c.theta.None? <==> forall i | 0 <= i < |bs| :: !Qualified(bs[i].Get(m), m, threshold, evs, full))
      && (c.theta.None? ==> c == Choice(Sentinel(m), None, None))
      && (c.theta.Some? ==> exists i :: ChosenAt(bs, m, threshold, evs, full, inc, i, c))
  {
    if bs != [] {
      var n := |bs| - 1;
      var prefix := bs[..n];
      ChooseIsBestQualified(prefix, m, threshold, evs, full, inc);
      assert forall j | 0 <= j < n :: prefix[j] == bs[j];
      var p, c := Choose(prefix, m, threshold, evs, full, inc), Choose(bs, m, threshold, evs, full, inc);
      if c != p {
        assert ChosenAt(bs, m, threshold, evs, full, inc, n, c);
      } else if c.theta.Some? {
        var i :| ChosenAt(prefix, m, threshold, evs, full, inc, i, c);
        assert ChosenAt(bs, m, threshold, evs, full, inc, i, c);
      }
    }
  }

  /** A choice names an index exactly when it names a rotation, and then
      the index has full votes and the rotation is i * inc for a slot i. */
  lemma ChosenIsQualified(bs: seq<Bests>, m: Metric, threshold: real, evs: seq<Event>, full: int, inc: int)
    ensures var c := Choose(bs, m, threshold, evs, full, inc);
      && (c.at.Some? <==> c.theta.Some?)
      && (c.theta.Some? ==> Votes(evs, c.at.value) == full && exists i | 0 <= i < |bs| :: c.theta.value == i * inc)
  {
    var c := Choose(bs, m, threshold, evs, full, inc);
    ChooseIsBestQualified(bs, m, threshold, evs, full, inc);
    if c.theta.Some? {
      var i :| ChosenAt(bs, m, threshold, evs, full, inc, i, c);
    }
  }

  /** The MI choice never leaves its sentinel when no slot beats -10. */
  lemma MiNeverChosen(bs: seq<Bests>, threshold: real, evs: seq<Event>, full: int, inc: int)
    requires forall i | 0 <= i < |bs| :: bs[i].mi.score == Sentinel(MutualInformation)
    ensures Choose(bs, MutualInformation, threshold, evs, full, inc) == Choice(Sentinel(MutualInformation), None, None)
  {
    ChooseIsBestQualified(bs, MutualInformation, threshold, evs, full, inc);
  }
}
