/** One pass of the firmware's main loop: take the latest distance reading,
    move the displayed distance a quarter of the way towards it, count stable
    frames, and decide whether to redraw, fade or sleep. The scene drawing,
    the render pass and the display's power switch are what the loop asks
    for; a `FrameAction` records those requests. */
module FrameLoop {
  import opened Bytes
  import opened Options

  /** `kSleepThresholdFrames`: five seconds at 60 frames per second. */
  const SleepThresholdFrames: nat := 300
  /** `kFadeFrames`: the last second before sleeping only fades. */
  const FadeFrames: nat := 60
  /** A frame is stable when the distance moved by at most this many mm. */
  const StableMm: nat := 10

  /** The loop's own variables. */
  datatype LoopState = LoopState(distanceMm: U32, displayMm: U32, stableCount: nat, sleeping: bool)

  /** What the frame does to the backbuffer. */
  datatype Drawing =
    | Redraw    // the scene is drawn from scratch
    | FadeOnly  // `Fade()` alone
    | Untouched

  /** The requests one pass makes: the `Enable` calls on the display, in
      order, the drawing, and whether a render pass (`BeginRender` plus
      `Display::Render`) runs. */
  datatype FrameAction = FrameAction(enables: seq<bool>, drawing: Drawing, renderPass: bool)

  /** `int16_t delta = distance_mm - display_mm;`: the `uint32_t` difference
      truncated to 16 bits. Nearby values give their exact difference. */
  function Delta(distanceMm: U32, displayMm: U32): (d: int)
    ensures -0x8000 <= d < 0x8000
    ensures -0x8000 <= distanceMm - displayMm < 0x8000 ==> d == distanceMm - displayMm
    ensures (d - (distanceMm - displayMm)) % 0x1_0000 == 0
  {
    var x := distanceMm - displayMm;
    if -0x8000 <= x < 0x8000 then (ToInt16Exact(x, x); ToInt16(x)) else ToInt16(x)
  }

  /** `ToInt16` is determined by the value modulo 2^16. */
  lemma ToInt16Exact(x: int, v: int)
    requires -0x8000 <= v < 0x8000 && (x - v) % 0x1_0000 == 0
    ensures ToInt16(x) == v
  {
    var k := (x - v) / 0x1_0000;
    assert x == k * 0x1_0000 + v;
    if v >= 0 {
      DivModUnique(x, 0x1_0000, k, v);
    } else {
      DivModUnique(x, 0x1_0000, k - 1, v + 0x1_0000);
    }
  }

  /** `display_mm` after the frame: a quarter of the difference (truncated
      toward zero) is added in `uint32_t`; a zero difference snaps it to the
      reading. */
  function NextDisplayMm(distanceMm: U32, displayMm: U32): U32 {
    var d := Delta(distanceMm, displayMm);
    if d != 0 then ToU32(displayMm + TruncDiv(d, 4)) else distanceMm
  }

  /** The loop variables after one pass, given what `GetDistanceMM`
      reported (nothing leaves `distance_mm` as it was). */
  function NextState(s: LoopState, reading: Option<U32>): LoopState {
    var distanceMm := if reading.Some? then reading.value else s.distanceMm;
    var d := Delta(distanceMm, s.displayMm);
    var stable := if Abs(d) <= StableMm then s.stableCount + 1 else 0;
    var awake := if Abs(d) <= StableMm then s.sleeping else false;
    LoopState(distanceMm, NextDisplayMm(distanceMm, s.displayMm), stable,
      if stable > SleepThresholdFrames then true else awake)
  }

  /** The requests of one pass. */
  function NextAction(s: LoopState, reading: Option<U32>): FrameAction {
    var t := NextState(s, reading);
    var d := Delta(t.distanceMm, s.displayMm);
    var wake := if Abs(d) <= StableMm then [] else [true];
    if t.stableCount > SleepThresholdFrames then
      FrameAction(wake + [false], Untouched, !t.sleeping)
    else if t.stableCount > SleepThresholdFrames - FadeFrames then
      FrameAction(wake, if t.stableCount % 3 == 0 then FadeOnly else Untouched, !t.sleeping)
    else
      FrameAction(wake, Redraw, !t.sleeping)
  }

  // ------------------------------------------------------ the displayed value

  /** The difference left after a pass is the old one minus its truncated
      quarter, whatever the values and however they wrapped; a zero
      difference stays zero. */
  lemma DeltaStep(distanceMm: U32, displayMm: U32)
    ensures var d := Delta(distanceMm, displayMm);
      Delta(distanceMm, NextDisplayMm(distanceMm, displayMm)) == d - TruncDiv(d, 4)
  {
    var d := Delta(distanceMm, displayMm);
    var next := NextDisplayMm(distanceMm, displayMm);
    if d != 0 {
      var t := TruncDiv(d, 4);
      assert next == ToU32(displayMm + t);
      ShiftedDifference(distanceMm, displayMm, d, t, next);
      assert -0x8000 <= d - t < 0x8000;
      ToInt16Exact(distanceMm - next, d - t);
    }
  }

  /** Adding `t` to `y` modulo 2^32 takes `t` off a difference that is `d`
      modulo 2^16. */
  lemma ShiftedDifference(x: int, y: int, d: int, t: int, next: int)
    requires (d - (x - y)) % 0x1_0000 == 0
    requires (next - (y + t)) % 0x1_0000_0000 == 0
    ensures ((x - next) - (d - t)) % 0x1_0000 == 0
  {
    var k := (d - (x - y)) / 0x1_0000;
    assert d - (x - y) == k * 0x1_0000;
    var j := (next - (y + t)) / 0x1_0000_0000;
    assert next - (y + t) == j * 0x1_0000_0000;
    var m := -(k + j * 0x1_0000);
    assert (x - next) - (d - t) == m * 0x1_0000;
    DivModUnique((x - next) - (d - t), 0x1_0000, m, 0);
  }

  /** The displayed distance moves towards the reading and never overshoots:
      the difference keeps its sign and does not grow, and it shrinks while
      it is at least 4. */
  lemma ApproachesReading(distanceMm: U32, displayMm: U32)
    ensures var d, d' := Delta(distanceMm, displayMm), Delta(distanceMm, NextDisplayMm(distanceMm, displayMm));
      && Abs(d') <= Abs(d)
      && (d > 0 ==> d' > 0) && (d < 0 ==> d' < 0) && (d == 0 ==> d' == 0)
      && (Abs(d) >= 4 ==> Abs(d') < Abs(d))
  {
    DeltaStep(distanceMm, displayMm);
  }

  /** A difference of 1 to 3 mm is never closed: its quarter truncates to
      zero, so the displayed value stays where it is. */
  lemma SmallDifferenceSticks(distanceMm: U32, displayMm: U32)
    requires 0 < Abs(Delta(distanceMm, displayMm)) < 4
    ensures NextDisplayMm(distanceMm, displayMm) == displayMm
  {
  }

  // ------------------------------------------------------ sleeping and waking

  /** More than 10 mm of movement wakes the device: the count restarts, the
      display is switched on, the scene is redrawn and rendered. */
  lemma MovementWakes(s: LoopState, reading: Option<U32>)
    requires Abs(Delta(NextState(s, reading).distanceMm, s.displayMm)) > StableMm
    ensures var t, a := NextState(s, reading), NextAction(s, reading);
      && t.stableCount == 0 && !t.sleeping
      && a == FrameAction([true], Redraw, true)
  {
  }

  /** A stable frame only counts: the count grows by one, a sleeping device
      keeps sleeping and the display is not switched on. */
  lemma StillnessCounts(s: LoopState, reading: Option<U32>)
    requires Abs(Delta(NextState(s, reading).distanceMm, s.displayMm)) <= StableMm
    ensures var t, a := NextState(s, reading), NextAction(s, reading);
      && t.stableCount == s.stableCount + 1
      && (s.sleeping ==> t.sleeping)
      && true !in a.enables
  {
  }

  /** What a pass draws depends only on the new count: a redraw up to 240,
      a fade on every third frame of (240, 300], nothing after 300, when the
      device falls asleep and switches the display off. */
  lemma DrawingWindow(s: LoopState, reading: Option<U32>)
    ensures var t, a := NextState(s, reading), NextAction(s, reading);
      && (a.drawing == Redraw <==> t.stableCount <= SleepThresholdFrames - FadeFrames)
      && (a.drawing == FadeOnly <==>
            SleepThresholdFrames - FadeFrames < t.stableCount <= SleepThresholdFrames && t.stableCount % 3 == 0)
      && (t.stableCount > SleepThresholdFrames <==> t.sleeping && false in a.enables)
  {
    var t, a := NextState(s, reading), NextAction(s, reading);
    if t.stableCount <= SleepThresholdFrames && t.sleeping {
      assert false !in a.enables;
    }
  }

  /** A render pass runs exactly when the device is awake after the pass's
      decisions. */
  lemma RenderPassWhenAwake(s: LoopState, reading: Option<U32>)
    ensures NextAction(s, reading).renderPass <==> !NextState(s, reading).sleeping
  {
  }

  /** The state after a run of passes, one per reading. */
  function Run(s: LoopState, readings: seq<Option<U32>>): LoopState
    decreases |readings|
  {
    if |readings| == 0 then s else Run(NextState(s, readings[0]), readings[1..])
  }

  /** A device whose sensor reports nothing new, once the displayed value is
      within 10 mm, keeps counting and is asleep after 301 passes (a
      reported value equal to the last one behaves the same). */
  lemma {:induction false} IdleSleeps(s: LoopState, readings: seq<Option<U32>>)
    requires Abs(Delta(s.distanceMm, s.displayMm)) <= StableMm
    requires s.stableCount > SleepThresholdFrames ==> s.sleeping
    requires forall i :: 0 <= i < |readings| ==> readings[i] == None || readings[i] == Some(s.distanceMm)
    ensures Run(s, readings).stableCount == s.stableCount + |readings|
    ensures Run(s, readings).distanceMm == s.distanceMm
    ensures Abs(Delta(Run(s, readings).distanceMm, Run(s, readings).displayMm)) <= StableMm
    ensures s.sleeping ==> Run(s, readings).sleeping
    ensures s.stableCount + |readings| > SleepThresholdFrames ==> Run(s, readings).sleeping
    decreases |readings|
  {
    if |readings| > 0 {
      var t := NextState(s, readings[0]);
      assert Run(s, readings) == Run(t, readings[1..]);
      ApproachesReading(s.distanceMm, s.displayMm);
      assert t.distanceMm == s.distanceMm;
      var rest := readings[1..];
      assert forall i :: 0 <= i < |rest| ==> rest[i] == readings[i + 1];
      IdleSleeps(t, rest);
    }
  }

  /** `app_main`'s loop variables. `frame` counts passes. */
  class MainLoop {
    var distanceMm: U32
    var displayMm: U32
    var stableCount: nat
    var sleeping: bool
    var frame: U32

    function State(): LoopState
      reads this
    {
      LoopState(distanceMm, displayMm, stableCount, sleeping)
    }

    constructor ()
      ensures State() == LoopState(0, 0, 0, false) && frame == 0
    {
      distanceMm := 0;
      displayMm := 0;
      stableCount := 0;
      sleeping := false;
      frame := 0;
    }

    /** One pass of the loop; `reading` is what `GetDistanceMM` reported. */
    method Step(reading: Option<U32>) returns (action: FrameAction)
      modifies this
      ensures State() == NextState(old(State()), reading)
      ensures action == NextAction(old(State()), reading)
      ensures frame == (old(frame) + 1) % 0x1_0000_0000
    {
      ghost var s0 := State();
      if reading.Some? {
        distanceMm := reading.value;
      }
      var delta := ToInt16(distanceMm - displayMm);
      assert delta == Delta(distanceMm, s0.displayMm);
      if delta != 0 {
        displayMm := ToU32(displayMm + TruncDiv(delta, 4));
      } else {
        displayMm := distanceMm;
      }
      assert displayMm == NextDisplayMm(distanceMm, s0.displayMm);
      ghost var t := NextState(s0, reading);
      assert t.distanceMm == distanceMm && t.displayMm == displayMm;
      var enables: seq<bool> := [];
      if Abs(delta) <= StableMm {
        stableCount := stableCount + 1;
      } else {
        stableCount := 0;
        sleeping := false;
        enables := enables + [true];
      }
      assert stableCount == t.stableCount;
      var drawing := Untouched;
      if stableCount > SleepThresholdFrames {
        sleeping := true;
        enables := enables + [false];
      } else if stableCount > SleepThresholdFrames - FadeFrames {
        if stableCount % 3 == 0 {
          drawing := FadeOnly;
        }
      } else {
        drawing := Redraw;
      }
      action := FrameAction(enables, drawing, !sleeping);
      frame := (frame + 1) % 0x1_0000_0000;
    }
  }
}
