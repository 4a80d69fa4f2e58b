/**
 The frame loop of the live bicep counter.

 Each camera frame yields a list of pose landmarks (possibly empty), the
 completion percentage computed from the shoulder-elbow-wrist angle, and the
 two key polls of that frame: reset and quit. The loop runs the repetition
 update only when landmarks were found, then shows the repetition number,
 then applies the reset command, then stops if quit was pressed. A failed
 camera read also stops the loop; here that is the end of the frame sequence.
 */
module BicepApp {
  import opened RepTracker

  datatype Option<T> = None | Some(value: T)

  /** One row of the detector's landmark list: landmark id and pixel coordinates. */
  datatype Landmark = Landmark(id: int, x: int, y: int)

  /**
   What one iteration of the loop consumes. `per` is the completion percentage
   derived from the landmarks; it is looked at only when `landmarks` is non-empty.
   */
  datatype Frame = Frame(landmarks: seq<Landmark>, per: real, resetKey: bool, quitKey: bool)

  /** The state after one frame: the guarded update, then the reset command. */
  function FrameStep(s: RepState, f: Frame): (t: RepState)
    ensures f.resetKey ==> t == Init
    ensures !f.resetKey && |f.landmarks| == 0 ==> t == s
    ensures !f.resetKey && |f.landmarks| != 0 ==> t == Step(s, f.per)
    ensures Inv(s) ==> Inv(t)
  {
    var updated := if |f.landmarks| != 0 then Step(s, f.per) else s;
    if f.resetKey then ResetState(updated) else updated
  }

  /**
   The repetition number drawn on a frame: shown only on frames with landmarks,
   after that frame's update and before its reset.
   */
  function FrameDisplay(s: RepState, f: Frame): (shown: Option<int>)
    ensures shown.Some? <==> |f.landmarks| != 0
    ensures shown.Some? ==> shown.value == Reps(Step(s, f.per))
    ensures Inv(s) && shown.Some? ==> 0 <= shown.value == Step(s, f.per).halves / 2
  {
    if |f.landmarks| != 0 then Some(Reps(Step(s, f.per))) else None
  }

  /** The state when the loop ends: after the quit frame, or after the last frame. */
  function Final(s: RepState, frames: seq<Frame>): (t: RepState)
    ensures Inv(s) ==> Inv(t)
    decreases |frames|
  {
    if frames == [] then s
    else
      var next := FrameStep(s, frames[0]);
      if frames[0].quitKey then next else Final(next, frames[1..])
  }

  /** The repetition number drawn on each frame the loop processes. */
  function Shown(s: RepState, frames: seq<Frame>): (shown: seq<Option<int>>)
    ensures |shown| <= |frames|
    ensures Inv(s) ==> forall i :: 0 <= i < |shown| && shown[i].Some? ==> 0 <= shown[i].value
    decreases |frames|
  {
    if frames == [] then []
    else
      var first := FrameDisplay(s, frames[0]);
      if frames[0].quitKey then [first]
      else [first] + Shown(FrameStep(s, frames[0]), frames[1..])
  }

  /** The percentages that reach the repetition update: those of frames with landmarks. */
  function Percentages(frames: seq<Frame>): (pers: seq<real>)
    ensures |pers| <= |frames|
    decreases |frames|
  {
    if frames == [] then []
    else (if |frames[0].landmarks| != 0 then [frames[0].per] else []) + Percentages(frames[1..])
  }

  predicate NoReset(frames: seq<Frame>) {
    forall i :: 0 <= i < |frames| ==> !frames[i].resetKey
  }

  predicate NoQuit(frames: seq<Frame>) {
    forall i :: 0 <= i < |frames| ==> !frames[i].quitKey
  }

  // ---------------------------------------------------------------------------
  // The loop, updating the counter in place
  // ---------------------------------------------------------------------------

  /** One frame's repetition logic on the counter; returns the number drawn, if any. */
  method ProcessFrame(c: RepCounter, f: Frame) returns (shown: Option<int>)
    requires c.Valid()
    modifies c
    ensures c.Valid()
    ensures c.State() == FrameStep(old(c.State()), f)
    ensures shown == FrameDisplay(old(c.State()), f)
  {
    shown := None;
    if |f.landmarks| != 0 {
      c.Update(f.per);
      shown := Some(c.ShownReps());
    }
    if f.resetKey {
      c.Reset();
    }
  }

  /**
   The whole session from a fresh counter: the numbers drawn on each processed
   frame and the counter's state when the loop ends.
   */
  method RunSession(frames: seq<Frame>) returns (shown: seq<Option<int>>, final: RepState)
    ensures shown == Shown(Init, frames)
    ensures final == Final(Init, frames)
    ensures Inv(final)
  {
    var c := new RepCounter();
    shown := [];
    var i := 0;
    while i < |frames|
      invariant 0 <= i <= |frames|
      invariant c.Valid()
      invariant Final(Init, frames) == Final(c.State(), frames[i..])
      invariant Shown(Init, frames) == shown + Shown(c.State(), frames[i..])
    {
      ghost var before := c.State();
      assert frames[i..][0] == frames[i] && frames[i..][1..] == frames[i + 1..];
      var drawn := ProcessFrame(c, frames[i]);
      shown := shown + [drawn];
      if frames[i].quitKey {
        assert Final(before, frames[i..]) == c.State();
        assert Shown(before, frames[i..]) == [drawn];
        break;
      }
      i := i + 1;
    }
    final := c.State();
  }

  // ---------------------------------------------------------------------------
  // Properties of whole sessions
  // ---------------------------------------------------------------------------

  /** A frame without landmarks and without reset changes nothing and draws no number. */
  lemma EmptyFrameIsInert(s: RepState, f: Frame)
    requires |f.landmarks| == 0 && !f.resetKey
    ensures FrameStep(s, f) == s && FrameDisplay(s, f) == None
  {
  }

  /** Frames after the first quit frame are never looked at. */
  lemma {:induction false} QuitStops(s: RepState, frames: seq<Frame>, k: nat)
    requires k < |frames| && frames[k].quitKey
    ensures Final(s, frames) == Final(s, frames[..k + 1])
    ensures Shown(s, frames) == Shown(s, frames[..k + 1])
    decreases k
  {
    var prefix := frames[..k + 1];
    assert prefix[0] == frames[0];
    if k > 0 && !frames[0].quitKey {
      assert prefix[1..] == frames[1..][..k];
      QuitStops(FrameStep(s, frames[0]), frames[1..], k - 1);
    }
  }

  /**
   Without reset or quit, a session is the pure update applied to the
   percentages of the frames that have landmarks, in order.
   */
  lemma {:induction false} SessionIsFold(s: RepState, frames: seq<Frame>)
    requires NoReset(frames) && NoQuit(frames)
    ensures Final(s, frames) == Fold(s, Percentages(frames))
    decreases |frames|
  {
    if frames != [] {
      var f := frames[0];
      SessionIsFold(FrameStep(s, f), frames[1..]);
      if |f.landmarks| != 0 {
        assert Percentages(frames) == [f.per] + Percentages(frames[1..]);
      } else {
        assert Percentages(frames) == Percentages(frames[1..]);
      }
    }
  }

  /** Without a reset, the count at the end of a session is at least the count at its start. */
  lemma {:induction false} NoResetNeverLowers(s: RepState, frames: seq<Frame>)
    requires NoReset(frames)
    ensures s.halves <= Final(s, frames).halves
    decreases |frames|
  {
    if frames != [] {
      StepGain(s, frames[0].per);
      if !frames[0].quitKey {
        NoResetNeverLowers(FrameStep(s, frames[0]), frames[1..]);
      }
    }
  }

  /** The shown number never goes down from one update to the next. */
  lemma RepsMonotone(s: RepState, t: RepState)
    requires Inv(s) && Inv(t) && s.halves <= t.halves
    ensures Reps(s) <= Reps(t)
  {
    RepsIsHalfOfHalves(s);
    RepsIsHalfOfHalves(t);
  }

  /** Without a reset, every number drawn is at least the one the starting state would show. */
  lemma {:induction false} ShownAtLeastStart(s: RepState, frames: seq<Frame>, i: nat)
    requires Inv(s) && NoReset(frames)
    requires i < |Shown(s, frames)| && Shown(s, frames)[i].Some?
    ensures Reps(s) <= Shown(s, frames)[i].value
    decreases |frames|
  {
    var f := frames[0];
    var t := FrameStep(s, f);
    StepGain(s, f.per);
    StepInv(s, f.per);
    if i == 0 {
      RepsMonotone(s, Step(s, f.per));
    } else {
      ShownAtLeastStart(t, frames[1..], i - 1);
      RepsMonotone(s, t);
    }
  }

  /** Without a reset, the numbers drawn over a session never go down. */
  lemma {:induction false} ShownNonDecreasing(s: RepState, frames: seq<Frame>, i: nat, j: nat)
    requires Inv(s) && NoReset(frames)
    requires i < j < |Shown(s, frames)|
    requires Shown(s, frames)[i].Some? && Shown(s, frames)[j].Some?
    ensures Shown(s, frames)[i].value <= Shown(s, frames)[j].value
    decreases |frames|
  {
    var f := frames[0];
    var t := FrameStep(s, f);
    StepInv(s, f.per);
    if i == 0 {
      ShownAtLeastStart(t, frames[1..], j - 1);
    } else {
      ShownNonDecreasing(t, frames[1..], i - 1, j - 1);
    }
  }

  /** A reset on the final frame leaves a fresh counter, whatever came before. */
  lemma {:induction false} ResetOnLastFrame(s: RepState, frames: seq<Frame>)
    requires |frames| > 0 && frames[|frames| - 1].resetKey
    requires NoQuit(frames[..|frames| - 1])
    ensures Final(s, frames) == Init
    decreases |frames|
  {
    if |frames| > 1 {
      assert frames[1..][..|frames| - 2] == frames[..|frames| - 1][1..];
      ResetOnLastFrame(FrameStep(s, frames[0]), frames[1..]);
    }
  }
}
