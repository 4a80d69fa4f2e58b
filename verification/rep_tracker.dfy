/**
 The repetition-counting state machine of the live bicep counter.

 The application keeps two loop variables: a direction flag `dir` (0 while the
 arm is waiting to reach full flexion, 1 while it is waiting to return to full
 extension) and a repetition count that grows in steps of one half. The count
 is kept here as a whole number of half repetitions, `halves`, so that the
 count itself is exactly `halves / 2`.

 The pure functions (`Step`, `ResetState`, `Fold`) say what one frame and a whole
 trace of completion percentages do to the state; the class `RepCounter` is the
 mutable pair of variables that the frame loop updates in place, and its
 methods are proved against those functions.
 */
module RepTracker {

  /** The pair of loop variables: half repetitions counted, and direction flag. */
  datatype RepState = RepState(halves: int, dir: int)

  /** Both variables start at 0. */
  const Init: RepState := RepState(0, 0)

  /** The completion percentages at which a half repetition is counted. */
  const Top: real := 100.0
  const Bottom: real := 0.0

  /**
   The invariant every reachable state keeps: the count is a non-negative
   multiple of one half, the flag is 0 or 1, and the flag is 1 exactly when a
   half repetition is pending.
   */
  ghost predicate Inv(s: RepState) {
    && 0 <= s.halves
    && (s.dir == 0 || s.dir == 1)
    && s.dir == s.halves % 2
  }

  /** The repetition count as the application holds it. */
  function CountOf(s: RepState): (c: real) {
    s.halves as real / 2.0
  }

  /** Python's `int(x)` on a float: truncation toward zero. */
  function Truncate(x: real): (r: int)
    ensures 0.0 <= x ==> r as real <= x < r as real + 1.0
    ensures x < 0.0 ==> r as real - 1.0 < x <= r as real
  {
    if 0.0 <= x then x.Floor else -((-x).Floor)
  }

  /** The number of repetitions shown on screen: `int(count)`. */
  function Reps(s: RepState): (r: int) {
    Truncate(CountOf(s))
  }

  /**
   One update with completion percentage `per`: the two guarded increments, in
   the order the frame loop tests them. At most one of them takes effect, and
   every other input leaves the state alone.
   */
  function Step(s: RepState, per: real): (t: RepState)
    ensures per == Top && s.dir == 0 ==> t == RepState(s.halves + 1, 1)
    ensures per == Bottom && s.dir == 1 ==> t == RepState(s.halves + 1, 0)
    ensures !(per == Top && s.dir == 0) && !(per == Bottom && s.dir == 1) ==> t == s
  {
    var afterTop := if per == Top && s.dir == 0 then RepState(s.halves + 1, 1) else s;
    if per == Bottom && afterTop.dir == 1 then RepState(afterTop.halves + 1, 0) else afterTop
  }

  /** The reset command: both variables back to 0, whatever they held. */
  function ResetState(s: RepState): (t: RepState)
    ensures t.halves == 0 && t.dir == 0
  {
    Init
  }

  /** The state after feeding the percentages `pers` one by one, in order. */
  function Fold(s: RepState, pers: seq<real>): (t: RepState)
    decreases |pers|
  {
    if pers == [] then s else Fold(Step(s, pers[0]), pers[1..])
  }

  /** The count after each update of a trace (what the frame loop holds after each frame). */
  function Counts(s: RepState, pers: seq<real>): (cs: seq<real>)
    ensures |cs| == |pers|
    decreases |pers|
  {
    if pers == [] then [] else
      var t := Step(s, pers[0]);
      [CountOf(t)] + Counts(t, pers[1..])
  }

  /** The direction flag after each update of a trace. */
  function Dirs(s: RepState, pers: seq<real>): (ds: seq<int>)
    ensures |ds| == |pers|
    decreases |pers|
  {
    if pers == [] then [] else
      var t := Step(s, pers[0]);
      [t.dir] + Dirs(t, pers[1..])
  }

  /** The number of entries of `pers` that lie exactly on a boundary. */
  function BoundaryHits(pers: seq<real>): (n: nat)
    ensures n <= |pers|
    decreases |pers|
  {
    if pers == [] then 0
    else (if pers[0] == Top || pers[0] == Bottom then 1 else 0) + BoundaryHits(pers[1..])
  }

  /** `n` full curls: the percentage touches the top and then the bottom, `n` times. */
  function Cycles(n: nat): (pers: seq<real>)
    ensures |pers| == 2 * n
  {
    if n == 0 then [] else Cycles(n - 1) + [Top, Bottom]
  }

  // ---------------------------------------------------------------------------
  // One update
  // ---------------------------------------------------------------------------

  /** The fresh state satisfies the invariant and shows zero repetitions. */
  lemma InitInv()
    ensures Inv(Init) && CountOf(Init) == 0.0 && Reps(Init) == 0
  {
  }

  /** An update keeps the invariant. */
  lemma StepInv(s: RepState, per: real)
    requires Inv(s)
    ensures Inv(Step(s, per))
  {
  }

  /** An update never lowers the count and raises it by at most one half. */
  lemma StepGain(s: RepState, per: real)
    ensures s.halves <= Step(s, per).halves <= s.halves + 1
    ensures CountOf(s) <= CountOf(Step(s, per)) <= CountOf(s) + 0.5
  {
  }

  /** Resetting twice is resetting once. */
  lemma ResetIdempotent(s: RepState)
    ensures ResetState(ResetState(s)) == ResetState(s) && Inv(ResetState(s))
  {
  }

  /** Feeding the same percentage twice in a row acts like feeding it once. */
  lemma StepIdempotent(s: RepState, per: real)
    ensures Step(Step(s, per), per) == Step(s, per)
  {
  }

  /** The shown repetition number is the count of completed pairs of halves. */
  lemma RepsIsHalfOfHalves(s: RepState)
    requires Inv(s)
    ensures Reps(s) == s.halves / 2
    ensures Reps(s) as real <= CountOf(s) < Reps(s) as real + 1.0
  {
  }

  // ---------------------------------------------------------------------------
  // Whole traces
  // ---------------------------------------------------------------------------

  /** Feeding `xs` and then `ys` is feeding `xs + ys`. */
  lemma {:induction false} FoldAppend(s: RepState, xs: seq<real>, ys: seq<real>)
    ensures Fold(s, xs + ys) == Fold(Fold(s, xs), ys)
    decreases |xs|
  {
    if xs == [] {
      assert xs + ys == ys;
    } else {
      assert (xs + ys)[0] == xs[0];
      assert (xs + ys)[1..] == xs[1..] + ys;
      FoldAppend(Step(s, xs[0]), xs[1..], ys);
    }
  }

  /** Every trace keeps the invariant. */
  lemma {:induction false} FoldInv(s: RepState, pers: seq<real>)
    requires Inv(s)
    ensures Inv(Fold(s, pers))
    decreases |pers|
  {
    if pers != [] {
      StepInv(s, pers[0]);
      FoldInv(Step(s, pers[0]), pers[1..]);
    }
  }

  /**
   Without a reset the count never goes down, and it rises by at most one half
   per percentage that lies exactly on a boundary.
   */
  lemma {:induction false} FoldGain(s: RepState, pers: seq<real>)
    ensures s.halves <= Fold(s, pers).halves <= s.halves + BoundaryHits(pers)
    decreases |pers|
  {
    if pers != [] {
      FoldGain(Step(s, pers[0]), pers[1..]);
    }
  }

  /** Percentages that never touch 0 or 100 exactly never change the state. */
  lemma {:induction false} InteriorIsInert(s: RepState, pers: seq<real>)
    requires forall i :: 0 <= i < |pers| ==> pers[i] != Top && pers[i] != Bottom
    ensures Fold(s, pers) == s
    decreases |pers|
  {
    if pers != [] {
      InteriorIsInert(s, pers[1..]);
    }
  }

  /** A repeated percentage in the middle of a trace changes nothing. */
  lemma RepeatIsIgnored(s: RepState, xs: seq<real>, per: real, ys: seq<real>)
    ensures Fold(s, xs + [per, per] + ys) == Fold(s, xs + [per] + ys)
  {
    FoldAppend(s, xs + [per, per], ys);
    FoldAppend(s, xs, [per, per]);
    FoldAppend(s, xs + [per], ys);
    FoldAppend(s, xs, [per]);
    StepIdempotent(Fold(s, xs), per);
  }

  /** Without touching 0, a trace adds at most the one pending half (none if it is already pending). */
  lemma {:induction false} NoBottomGain(s: RepState, pers: seq<real>)
    requires s.dir == 0 || s.dir == 1
    requires forall i :: 0 <= i < |pers| ==> pers[i] != Bottom
    ensures Fold(s, pers).halves <= s.halves + 1 - s.dir
    decreases |pers|
  {
    if pers != [] {
      NoBottomGain(Step(s, pers[0]), pers[1..]);
    }
  }

  /** Without touching 100, a trace adds at most the one pending half (none if none is pending). */
  lemma {:induction false} NoTopGain(s: RepState, pers: seq<real>)
    requires s.dir == 0 || s.dir == 1
    requires forall i :: 0 <= i < |pers| ==> pers[i] != Top
    ensures Fold(s, pers).halves <= s.halves + s.dir
    decreases |pers|
  {
    if pers != [] {
      NoTopGain(Step(s, pers[0]), pers[1..]);
    }
  }

  /** A whole repetition is counted only if the percentage touches both 0 and 100. */
  lemma FullRepNeedsBothBoundaries(s: RepState, pers: seq<real>)
    requires Inv(s)
    requires Fold(s, pers).halves >= s.halves + 2
    ensures Top in pers && Bottom in pers
  {
    if Top !in pers {
      NoTopGain(s, pers);
    }
    if Bottom !in pers {
      NoBottomGain(s, pers);
    }
  }

  /** From a fresh counter, `n` full curls count exactly `n` repetitions and leave no half pending. */
  lemma {:induction false} CyclesCount(n: nat)
    ensures Fold(Init, Cycles(n)) == RepState(2 * n, 0)
    ensures Reps(Fold(Init, Cycles(n))) == n
  {
    if n > 0 {
      CyclesCount(n - 1);
      FoldAppend(Init, Cycles(n - 1), [Top, Bottom]);
      var mid := RepState(2 * (n - 1), 0);
      assert Fold(mid, [Top, Bottom]) == Fold(RepState(2 * n - 1, 1), [Bottom]);
      assert Fold(RepState(2 * n - 1, 1), [Bottom]) == Fold(RepState(2 * n, 0), []);
    }
    RepsIsHalfOfHalves(RepState(2 * n, 0));
  }

  /** The trace 50, 100, 50, 0 from a fresh counter: counts 0, 0.5, 0.5, 1 and flags 0, 1, 1, 0. */
  lemma ExampleTrace()
    ensures Counts(Init, [50.0, 100.0, 50.0, 0.0]) == [0.0, 0.5, 0.5, 1.0]
    ensures Dirs(Init, [50.0, 100.0, 50.0, 0.0]) == [0, 1, 1, 0]
  {
  }

  /** The trace 100, 100 from a fresh counter counts one half, not two. */
  lemma ExampleRepeatedTop()
    ensures Counts(Init, [100.0, 100.0]) == [0.5, 0.5]
  {
  }

  // ---------------------------------------------------------------------------
  // The loop variables, updated in place
  // ---------------------------------------------------------------------------

  /** The direction flag and the repetition count of the frame loop. */
  class RepCounter {
    var halves: int
    var dir: int

    /** The value the two variables hold. */
    function State(): (s: RepState)
      reads this
    {
      RepState(halves, dir)
    }

    ghost predicate Valid()
      reads this
    {
      Inv(State())
    }

    /** Both variables start at 0. */
    constructor ()
      ensures State() == Init && Valid()
    {
      halves := 0;
      dir := 0;
    }

    /** The count as the application holds it. */
    function Count(): (c: real)
      reads this
      requires Valid()
      ensures 0.0 <= c
    {
      CountOf(State())
    }

    /** The number shown on screen, `int(count)`. */
    function ShownReps(): (r: int)
      reads this
      requires Valid()
      ensures r == halves / 2
      ensures r as real <= Count() < r as real + 1.0
    {
      RepsIsHalfOfHalves(State());
      Reps(State())
    }

    /** The two guarded half-repetition increments of one frame. */
    method Update(per: real)
      modifies this
      ensures State() == Step(old(State()), per)
      ensures old(Valid()) ==> Valid()
      ensures old(halves) <= halves <= old(halves) + 1
    {
      if per == Top && dir == 0 {
        halves := halves + 1;
        dir := 1;
      }
      if per == Bottom && dir == 1 {
        halves := halves + 1;
        dir := 0;
      }
    }

    /** The reset command. */
    method Reset()
      modifies this
      ensures halves == 0 && dir == 0
      ensures State() == ResetState(old(State())) && Valid()
    {
      halves := 0;
      dir := 0;
    }
  }
}
