/**
  The browser's playback controller: which motion of the library is shown,
  the playback clock and speed, the key toggles, and the blender it drives.

  The motion library is a fixed sequence of motions; the distance map and
  the blender's "first animation is done" test are external and are
  supplied as function values. Floats are exact reals. The camera, the
  mouse, drawing and the `d`-key dump are outside this model.
 */
module Browsing {
  import opened MachineInt
  import opened Blending

  /** The keys the controller reacts to; `OtherKey` is every other key. */
  datatype Key = Tab | KeyA | Escape | PageUp | PageDown | Right | Left | Space | OtherKey

  /** A key press, or any other input event (mouse motion, key release, ...). */
  datatype Event = KeyDown(key: Key) | OtherEvent

  /** The step LEFT and RIGHT move the paused clock by, in seconds. */
  const SCRUB_STEP: real := 1.0 / 120.0

  /**
    `switch_motion(delta)` on the index: the unsigned sum, and when it is
    not a valid index, 0 for a forward step and the last index otherwise.
   */
  function SwitchIndex(cur: u32, delta: i16, count: u32): (r: u32)
    requires 0 < count
    ensures r < count
    ensures 0 <= cur + delta < count ==> r == cur + delta
    ensures cur == count - 1 && delta == 1 ==> r == 0
    ensures cur == 0 && delta == -1 ==> r == count - 1
    // past the end: a forward step lands on 0, any other on the last index
    ensures count <= cur + delta < U32 ==> r == if delta > 0 then 0 else count - 1
    // before the start: the sum wraps to a huge value, so the last index
    ensures cur + delta < 0 && count <= 0xFFFF_8000 ==> r == count - 1
  {
    var next := Wrap(cur + delta);
    if next >= count then
      if delta > 0 then 0 else count - 1
    else next
  }

  /** The auto-advance step `++current_motion`, back to 0 at the end of the library. */
  function AdvanceIndex(cur: u32, count: u32): (r: u32)
    requires 0 < count && cur < count
    ensures r < count
    ensures cur + 1 < count ==> r == cur + 1
    ensures cur == count - 1 ==> r == 0
  {
    var next := Wrap(cur + 1);
    if next >= count then 0 else next
  }

  /** SPACE: play speed 1 -> 0.5 -> 0.2 -> 0.1 -> 0 -> 1; any other speed goes back to 1. */
  function NextPlaySpeed(s: real): (r: real)
    ensures r in {1.0, 0.5, 0.2, 0.1, 0.0}
    ensures r < s || s == 0.0 || r == 1.0
    // the successor of each speed of the cycle
    ensures s == 1.0 ==> r == 0.5
    ensures s == 0.5 ==> r == 0.2
    ensures s == 0.2 ==> r == 0.1
    ensures s == 0.1 ==> r == 0.0
    // a speed off the cycle (0 included) goes back to full speed
    ensures s !in {1.0, 0.5, 0.2, 0.1} ==> r == 1.0
  {
    if s == 1.0 then 0.5
    else if s == 0.5 then 0.2
    else if s == 0.2 then 0.1
    else if s == 0.1 then 0.0
    else 1.0
  }

  /** `NextPlaySpeed` applied n times. */
  function SpeedAfter(s: real, n: nat): real
  {
    if n == 0 then s else NextPlaySpeed(SpeedAfter(s, n - 1))
  }

  /** Every speed of the cycle comes back after five presses of SPACE, and no sooner. */
  lemma PlaySpeedCycle(s: real)
    requires s in {1.0, 0.5, 0.2, 0.1, 0.0}
    ensures SpeedAfter(s, 5) == s
    ensures forall n :: 0 < n < 5 ==> SpeedAfter(s, n) != s
  {
    assert SpeedAfter(s, 1) == NextPlaySpeed(s);
    assert SpeedAfter(s, 2) == NextPlaySpeed(NextPlaySpeed(s));
    assert SpeedAfter(s, 3) == NextPlaySpeed(NextPlaySpeed(NextPlaySpeed(s)));
    assert SpeedAfter(s, 4) == NextPlaySpeed(NextPlaySpeed(NextPlaySpeed(NextPlaySpeed(s))));
  }

  /** Any starting speed is on the cycle after one press, and the speed then repeats every five presses. */
  lemma {:induction false} PlaySpeedPeriodic(s: real, n: nat)
    requires n >= 1
    ensures SpeedAfter(s, n + 5) == SpeedAfter(s, n)
  {
    if n == 1 {
      PlaySpeedCycle(NextPlaySpeed(s));
      SpeedAfterShift(s, 5);
    } else {
      PlaySpeedPeriodic(s, n - 1);
    }
  }

  /** n + 1 presses from s are n presses from the speed after the first press. */
  lemma {:induction false} SpeedAfterShift(s: real, n: nat)
    ensures SpeedAfter(s, n + 1) == SpeedAfter(NextPlaySpeed(s), n)
  {
    if n > 0 {
      SpeedAfterShift(s, n - 1);
    }
  }

  /** The clock after `time = elapsed * play_speed + time`, clamped from below at 0. */
  function AdvanceClock(time: real, elapsed: real, playSpeed: real): (t: real)
    ensures t >= 0.0
    ensures t >= elapsed * playSpeed + time
    ensures elapsed * playSpeed + time >= 0.0 ==> t == elapsed * playSpeed + time
    ensures elapsed * playSpeed + time < 0.0 ==> t == 0.0
  {
    var t := elapsed * playSpeed + time;
    if t < 0.0 then 0.0 else t
  }

  /**
    `(unsigned int)(time / timestep)`: the number of whole timesteps in
    `time`, truncated; a count beyond the unsigned range is reduced
    modulo 2^32, which the C conversion leaves undefined.
   */
  function FrameAt(time: real, timestep: real): (f: u32)
    requires time >= 0.0 && timestep > 0.0
    ensures (time / timestep).Floor < U32 ==> f as real <= time / timestep < f as real + 1.0
  {
    Wrap((time / timestep).Floor)
  }

  /** The step handed to `changeFrame`: `(int) new_frame - frame`, an unsigned difference read as an int. */
  function FrameDelta(oldFrame: u32, newFrame: u32): (d: i32)
    ensures I32_MIN <= newFrame - oldFrame <= I32_MAX ==> d == newFrame - oldFrame
  {
    ToInt32(Wrap(newFrame - oldFrame))
  }

  /**
    In unsigned arithmetic the step always takes the old frame to the new
    one, so the controller's frame and the blender's cursor move by the
    same amount even across wrap-around.
   */
  lemma FrameDeltaLands(oldFrame: u32, newFrame: u32)
    ensures Wrap(oldFrame + FrameDelta(oldFrame, newFrame)) == newFrame
  {
    var d := FrameDelta(oldFrame, newFrame);
    var x := Wrap(newFrame - oldFrame);
    assert (d - x) % U32 == 0;
    assert (x - (newFrame - oldFrame)) % U32 == 0;
    ModSum(d - x, x - (newFrame - oldFrame));
    assert (oldFrame + d - newFrame) % U32 == 0;
    ModStep(oldFrame + d, newFrame);
  }

  lemma ModSum(a: int, b: int)
    requires a % U32 == 0 && b % U32 == 0
    ensures (a + b) % U32 == 0
  {
    var qa := a / U32;
    var qb := b / U32;
    assert a == qa * U32;
    assert b == qb * U32;
    assert a + b == (qa + qb) * U32;
  }

  lemma ModStep(x: int, y: int)
    requires 0 <= y < U32 && (x - y) % U32 == 0
    ensures x % U32 == y
  {
    var q := (x - y) / U32;
    assert x == q * U32 + y;
  }

  /** The controller fields other than the blender. */
  datatype Controls = Controls(currentMotion: u32, time: real, playSpeed: real, frame: u32,
                               track: bool, autoAdvance: bool, quitFlag: bool)

  /**
    What a key other than PAGE UP and PAGE DOWN does to the controls: TAB
    toggles tracking, `a` toggles auto-advance, ESC raises the quit flag,
    RIGHT and LEFT step the clock by 1/120 s only while paused, SPACE moves
    to the next play speed. No key moves the motion index or the frame.
   */
  function ControlKey(c: Controls, key: Key): (r: Controls)
    ensures r.currentMotion == c.currentMotion && r.frame == c.frame
    ensures r.track == (c.track != (key == Tab))
    ensures r.autoAdvance == (c.autoAdvance != (key == KeyA))
    ensures r.quitFlag == (c.quitFlag || key == Escape)
    ensures r.time == c.time + if c.playSpeed != 0.0 then 0.0
                               else if key == Right then SCRUB_STEP
                               else if key == Left then -SCRUB_STEP
                               else 0.0
    ensures r.playSpeed == if key == Space then NextPlaySpeed(c.playSpeed) else c.playSpeed
  {
    match key
    case Tab => c.(track := !c.track)
    case KeyA => c.(autoAdvance := !c.autoAdvance)
    case Escape => c.(quitFlag := true)
    case Right => if c.playSpeed == 0.0 then c.(time := c.time + SCRUB_STEP) else c
    case Left => if c.playSpeed == 0.0 then c.(time := c.time - SCRUB_STEP) else c
    case Space => c.(playSpeed := NextPlaySpeed(c.playSpeed))
    case _ => c
  }

  /** Pressing TAB twice, or `a` twice, gives back the controls. */
  lemma TogglesAreInvolutions(c: Controls)
    ensures ControlKey(ControlKey(c, Tab), Tab) == c
    ensures ControlKey(ControlKey(c, KeyA), KeyA) == c
  {
  }

  /** While paused, RIGHT then LEFT (or LEFT then RIGHT) returns the clock to where it was; while playing neither moves it. */
  lemma ScrubRoundTrip(c: Controls)
    ensures c.playSpeed == 0.0 ==> ControlKey(ControlKey(c, Right), Left) == c
    ensures c.playSpeed == 0.0 ==> ControlKey(ControlKey(c, Left), Right) == c
    ensures c.playSpeed != 0.0 ==> ControlKey(c, Right) == c && ControlKey(c, Left) == c
  {
  }

  /** ESC is idempotent, and SPACE is the only key that changes the speed. */
  lemma QuitAndSpeed(c: Controls, key: Key)
    ensures ControlKey(ControlKey(c, Escape), Escape) == ControlKey(c, Escape)
    ensures key != Space ==> ControlKey(c, key).playSpeed == c.playSpeed
  {
  }

  class BrowseMode {
    /**
      The motion library (`Library::motion(i)`), the distance map and the
      blender's completion test, which sees the blender's from motion, its
      path and its cursor.
     */
    const motions: seq<Motion>
    const align: Aligner
    const firstAnimationIsDone: (Motion, Path, u32) -> bool
    /** The controller's own blender object; `operator=` overwrites it in place. */
    const blender: LerpBlender
    var currentMotion: u32
    var time: real
    var playSpeed: real
    var frame: u32
    var track: bool
    var autoAdvance: bool
    var quitFlag: bool

    ghost function Fields(): Controls
      reads this
    {
      Controls(currentMotion, time, playSpeed, frame, track, autoAdvance, quitFlag)
    }

    /**
      The library holds at least the two motions the constructor blends and
      is indexed by unsigned ints; every skeleton has a positive timestep;
      the current motion is a valid index.
     */
    ghost predicate Valid()
      reads this, blender
    {
      && 2 <= |motions| < U32
      && (forall i :: 0 <= i < |motions| ==> motions[i].timestep > 0.0)
      && currentMotion < |motions|
      && blender.Valid()
    }

    /** The constructor: a blender from motion 0 into motion 1, auto-advance on, tracking off, speed 1, at time 0. */
    constructor (motions: seq<Motion>, align: Aligner, firstAnimationIsDone: (Motion, Path, u32) -> bool)
      requires 2 <= |motions| < U32
      requires forall i :: 0 <= i < |motions| ==> motions[i].timestep > 0.0
      ensures Valid() && fresh(blender)
      ensures this.motions == motions && this.align == align && this.firstAnimationIsDone == firstAnimationIsDone
      ensures Fields() == Controls(0, 0.0, 1.0, 0, false, true, false)
      ensures blender.fromMotion == motions[0] && blender.toMotion == motions[1]
      ensures blender.path == align(motions[0], motions[1], blender.nInterpFrames)
      ensures blender.curFrame == 0 && blender.lastFrame == 0
      ensures blender.globalState == ClearedState && blender.velocityControl == ClearedControl
    {
      this.motions := motions;
      this.align := align;
      this.firstAnimationIsDone := firstAnimationIsDone;
      autoAdvance := true;
      blender := new LerpBlender(motions[0], motions[1], align);
      track := false;
      currentMotion := 0;
      time := 0.0;
      playSpeed := 1.0;
      frame := 0;
      quitFlag := false;
    }

    /**
      `switch_motion(delta)`: move the index as `SwitchIndex` says, rewind
      the clock, and replace the blender by a fresh one from the new motion
      into the one after it; the old blender's global state is dropped.
     */
    method SwitchMotion(delta: i16)
      requires Valid()
      modifies this, blender
      ensures Valid()
      ensures Fields() == old(Fields()).(currentMotion := SwitchIndex(old(currentMotion), delta, |motions|),
                                         time := 0.0, frame := 0)
      ensures blender.fromMotion == motions[currentMotion]
      ensures blender.toMotion == motions[(currentMotion + 1) % |motions|]
      ensures blender.nInterpFrames == InterpFrames(blender.fromMotion.frames, blender.toMotion.frames)
      ensures blender.path == align(blender.fromMotion, blender.toMotion, blender.nInterpFrames)
      ensures blender.curFrame == 0 && blender.lastFrame == 0
      ensures blender.globalState == ClearedState && blender.velocityControl == ClearedControl
    {
      currentMotion := SwitchIndex(currentMotion, delta, |motions|);
      time := 0.0;
      frame := 0;
      var m1 := motions[currentMotion];
      var m2 := motions[(currentMotion + 1) % |motions|];
      var b := new LerpBlender(m1, m2, align);
      blender.Assign(b);
    }

    /**
      `handle_event` for the key presses that drive playback: PAGE UP and
      PAGE DOWN switch motion; every other key acts on the controls as
      `ControlKey` says; other events change nothing.
     */
    method HandleEvent(ev: Event)
      requires Valid()
      modifies this, blender
      ensures Valid()
      ensures ev == KeyDown(PageUp) ==>
                Fields() == old(Fields()).(currentMotion := SwitchIndex(old(currentMotion), 1, |motions|),
                                           time := 0.0, frame := 0)
      ensures ev == KeyDown(PageDown) ==>
                Fields() == old(Fields()).(currentMotion := SwitchIndex(old(currentMotion), -1, |motions|),
                                           time := 0.0, frame := 0)
      ensures ev == KeyDown(PageUp) || ev == KeyDown(PageDown) ==>
                blender.fromMotion == motions[currentMotion] && blender.toMotion == motions[(currentMotion + 1) % |motions|]
                && blender.path == align(blender.fromMotion, blender.toMotion, blender.nInterpFrames)
                && blender.nInterpFrames == InterpFrames(blender.fromMotion.frames, blender.toMotion.frames)
                && blender.curFrame == 0 && blender.lastFrame == 0
                && blender.globalState == ClearedState && blender.velocityControl == ClearedControl
      ensures ev.KeyDown? && ev.key != PageUp && ev.key != PageDown ==>
                Fields() == ControlKey(old(Fields()), ev.key) && unchanged(blender)
      ensures ev == OtherEvent ==> Fields() == old(Fields()) && unchanged(blender)
    {
      if ev == KeyDown(Tab) {
        track := !track;
      } else if ev == KeyDown(KeyA) {
        autoAdvance := !autoAdvance;
      } else if ev == KeyDown(Escape) {
        quitFlag := true;
      } else if ev == KeyDown(PageUp) {
        SwitchMotion(1);
      } else if ev == KeyDown(PageDown) {
        SwitchMotion(-1);
      } else if ev == KeyDown(Right) && playSpeed == 0.0 {
        time := time + SCRUB_STEP;
      } else if ev == KeyDown(Left) && playSpeed == 0.0 {
        time := time - SCRUB_STEP;
      } else if ev == KeyDown(Space) {
        playSpeed := NextPlaySpeed(playSpeed);
      }
    }

    /**
      `update(elapsed)` up to the pose query. A motion with no frames
      stops it before anything changes. Otherwise the clock advances and is
      clamped at 0, the frame is the whole number of timesteps in it, the
      blender moves by the frame difference, and when auto-advance is on and
      the blender reports its first motion done, the next motion of the
      library is chained on with `blendFromBlend`.
     */
    method Update(elapsed: real)
      requires Valid()
      requires motions[currentMotion].frames != 0 ==> blender.curFrame < |blender.path|
      modifies this, blender
      ensures Valid()
      ensures old(motions[currentMotion].frames) == 0 ==> Fields() == old(Fields()) && unchanged(blender)
      ensures old(motions[currentMotion].frames) != 0 ==>
                && time == AdvanceClock(old(time), elapsed, old(playSpeed))
                && frame == FrameAt(time, motions[old(currentMotion)].timestep)
                && playSpeed == old(playSpeed) && track == old(track)
                && autoAdvance == old(autoAdvance) && quitFlag == old(quitFlag)
      ensures old(motions[currentMotion].frames) != 0 ==>
                var s := StepFrame(old(|blender.path|), old(blender.curFrame), old(blender.lastFrame),
                                   FrameDelta(old(frame), frame));
                var state := if s.clearsState then ClearedState else old(blender.globalState);
                if old(autoAdvance) && firstAnimationIsDone(old(blender.fromMotion), old(blender.path), s.cur) then
                  && currentMotion == AdvanceIndex(old(currentMotion), |motions|)
                  && blender.fromMotion == old(blender.toMotion) && blender.toMotion == motions[currentMotion]
                  && blender.nInterpFrames == InterpFrames(blender.fromMotion.frames, blender.toMotion.frames)
                  && blender.path == align(blender.fromMotion, blender.toMotion, blender.nInterpFrames)
                  && blender.curFrame == FirstFromMatch(old(blender.path), old(blender.path)[s.cur].1)
                  && blender.lastFrame == Wrap(blender.curFrame - Wrap(s.cur - s.last))
                  && blender.globalState == state && blender.velocityControl == ClearedControl
                else
                  && currentMotion == old(currentMotion)
                  && blender.fromMotion == old(blender.fromMotion) && blender.toMotion == old(blender.toMotion)
                  && blender.path == old(blender.path) && blender.nInterpFrames == old(blender.nInterpFrames)
                  && blender.curFrame == s.cur && blender.lastFrame == s.last
                  && blender.globalState == state && blender.velocityControl == old(blender.velocityControl)
    {
      var motion := motions[currentMotion];
      if motion.frames == 0 {
        return;
      }
      time := AdvanceClock(time, elapsed, playSpeed);
      var newFrame := FrameAt(time, motion.timestep);
      blender.ChangeFrame(FrameDelta(frame, newFrame));
      frame := newFrame;
      AutoAdvance();
    }

    /**
      The first auto-advance after the constructor blends motion 1 into
      itself: the controller moves to motion 1, and `blendFromBlend` starts
      the new blender from the old blender's "to" motion, which is motion 1
      as well.
     */
    static method FirstAutoAdvanceBlendsIntoItself(motions: seq<Motion>, align: Aligner)
      returns (from: Motion, to: Motion)
      requires 2 <= |motions| < U32
      requires forall i :: 0 <= i < |motions| ==> motions[i].timestep > 0.0
      requires |align(motions[0], motions[1], InterpFrames(motions[0].frames, motions[1].frames))| > 0
      ensures from == motions[1] && to == motions[1]
    {
      var mode := new BrowseMode(motions, align, (m: Motion, p: Path, c: u32) => true);
      mode.AutoAdvance();
      from := mode.blender.fromMotion;
      to := mode.blender.toMotion;
    }

    /** The end of `update()`: once the blend is over and auto-advance is on, chain into the next motion. */
    method AutoAdvance()
      requires Valid() && blender.curFrame < |blender.path|
      modifies this, blender
      ensures Valid()
      ensures time == old(time) && frame == old(frame) && playSpeed == old(playSpeed)
      ensures track == old(track) && autoAdvance == old(autoAdvance) && quitFlag == old(quitFlag)
      ensures old(autoAdvance) && firstAnimationIsDone(old(blender.fromMotion), old(blender.path), old(blender.curFrame)) ==>
                && currentMotion == AdvanceIndex(old(currentMotion), |motions|)
                && blender.fromMotion == old(blender.toMotion) && blender.toMotion == motions[currentMotion]
                && blender.nInterpFrames == InterpFrames(blender.fromMotion.frames, blender.toMotion.frames)
                && blender.path == align(blender.fromMotion, blender.toMotion, blender.nInterpFrames)
                && blender.curFrame == FirstFromMatch(old(blender.path), old(blender.path)[old(blender.curFrame)].1)
                && blender.lastFrame == Wrap(blender.curFrame - Wrap(old(blender.curFrame) - old(blender.lastFrame)))
                && blender.globalState == old(blender.globalState) && blender.velocityControl == ClearedControl
      ensures !(old(autoAdvance) && firstAnimationIsDone(old(blender.fromMotion), old(blender.path), old(blender.curFrame))) ==>
                currentMotion == old(currentMotion) && unchanged(blender)
    {
      if autoAdvance && firstAnimationIsDone(blender.fromMotion, blender.path, blender.curFrame) {
        currentMotion := AdvanceIndex(currentMotion, |motions|);
        var next := LerpBlender.BlendFromBlend(blender, motions[currentMotion], align);
        blender.Assign(next);
      }
    }
  }
}
