/**
  The blend playback cursor: a blender over two motions, the alignment path
  between them, and a cursor that moves along that path.

  The alignment path is computed by an external distance map and arrives
  here as an `Aligner` function. The world-space state and the velocity
  control are opaque values whose only visible feature is their cleared
  value. `cur_frame` and `last_frame` are unsigned ints that index the path,
  not frame numbers of either motion.
 */
module Blending {
  import opened MachineInt

  /** A loaded motion: only its name, frame count and timestep matter for the bookkeeping. */
  datatype Motion = Motion(filename: string, frames: u32, timestep: real)

  /** A (from-frame, to-frame) pair of the alignment. */
  type FramePair = (u32, u32)

  /** An alignment path; it is indexed by unsigned ints, so its length fits in 32 bits. */
  type Path = p: seq<FramePair> | |p| < U32

  /** The external distance map: the shortest path between two motions for a given interpolation window. */
  type Aligner = (Motion, Motion, u32) -> Path

  /** Accumulated world-space offset. Its integration is external; only `clear()` is visible here. */
  datatype GlobalState = ClearedState | Accumulated(token: nat)

  /** The desired root velocity fed into the global state. Only `clear()` is visible here. */
  datatype VelocityControl = ClearedControl | Desired(token: nat)

  const INTERP_DIVISOR: nat := 4

  /**
    The interpolation window: a quarter (rounded down) of the shorter
    motion's frame count, i.e. the largest n with 4 * n no larger than
    either frame count.
   */
  function InterpFrames(nFrom: u32, nTo: u32): (n: u32)
    ensures INTERP_DIVISOR * n <= nFrom && INTERP_DIVISOR * n <= nTo
    ensures INTERP_DIVISOR * (n + 1) > nFrom || INTERP_DIVISOR * (n + 1) > nTo
  {
    if nFrom < nTo then nFrom / INTERP_DIVISOR else nTo / INTERP_DIVISOR
  }

  /** The cursor fields `changeFrame` rewrites, and whether it clears the global state. */
  datatype FrameStep = FrameStep(cur: u32, last: u32, clearsState: bool)

  /**
    `changeFrame(delta)` on a path of length n. The sum `cur + delta` is
    unsigned, so an underflow wraps to a huge value and takes the
    "past the end" branch; there a positive delta resets the cursor to the
    start, a negative one puts it on the last pair, and a zero delta keeps it.
   */
  function StepFrame(n: nat, cur: u32, last: u32, delta: i32): (r: FrameStep)
    requires n < U32
    // in range: move by delta, remember where we were, keep the state
    ensures 0 <= cur + delta < n ==> r == FrameStep(cur + delta, cur, false)
    // overshoot: back to the start, state cleared
    ensures delta > 0 && n <= cur + delta < U32 ==> r == FrameStep(0, 0, true)
    // underflow: onto the last pair; last may be out of range (or wrap); state cleared
    ensures delta < 0 && cur + delta < 0 && 0 < n <= 0x8000_0000 ==>
              r.cur == n - 1 && r.last == Wrap(n - 1 + delta) && r.clearsState
    // a zero delta on an out-of-range cursor changes only last
    ensures delta == 0 && cur >= n ==> r == FrameStep(cur, cur, false)
    // the cursor never leaves a non-empty path once inside it
    ensures cur < n ==> r.cur < n
    // the state is cleared exactly when the cursor jumps
    ensures r.clearsState <==> Wrap(cur + delta) >= n && delta != 0
  {
    var sum := Wrap(cur + delta);
    if sum >= n then
      if delta > 0 then FrameStep(0, 0, true)
      else if delta < 0 then
        var c := Wrap(n - 1);
        FrameStep(c, Wrap(c + delta), true)
      else FrameStep(cur, cur, false)
    else FrameStep(sum, cur, false)
  }

  /**
    The least index of `path` whose first (from) frame is `target`, or
    `|path|` when there is none.
   */
  function FirstFromMatch(path: seq<FramePair>, target: u32): (i: nat)
    ensures i <= |path|
    ensures i < |path| ==> path[i].0 == target
    ensures forall j :: 0 <= j < i ==> path[j].0 != target
  {
    if |path| == 0 then 0
    else if path[0].0 == target then 0
    else 1 + FirstFromMatch(path[1..], target)
  }

  /**
    As written, `blendFromBlend` looks for the old cursor's to-frame among
    the from-frames of the old path. Here the old blender shows frame 5 of
    its to motion at cursor 0, and the new path over that motion starts
    at frame 5. The scan of the old path stops at index 1 instead, where
    the new path shows frame 6: playback jumps a frame.
   */
  lemma OldPathScanSkipsFrame()
    ensures var oldPath: seq<FramePair> := [(0, 5), (5, 6)];
            var newPath: seq<FramePair> := [(5, 0), (6, 1)];
            var target := oldPath[0].1;
            FirstFromMatch(oldPath, target) == 1 && newPath[1].0 != target
            && FirstFromMatch(newPath, target) == 0
  {
    var oldPath: seq<FramePair> := [(0, 5), (5, 6)];
    assert oldPath[1..] == [(5, 6)];
    var newPath: seq<FramePair> := [(5, 0), (6, 1)];
    assert FirstFromMatch(newPath, 5) == 0;
  }

  /**
    The cursor the comment in `blendFromBlend` describes: the first place in
    the new path whose from-frame is the frame the old blender was showing
    of the motion they share. When the new path has such a place, the new
    blender starts exactly there.
   */
  function ContinuationCursor(oldPath: seq<FramePair>, oldCur: nat, newPath: seq<FramePair>): (i: nat)
    requires oldCur < |oldPath|
    ensures i <= |newPath|
    ensures i < |newPath| ==> newPath[i].0 == oldPath[oldCur].1
    ensures (exists j :: 0 <= j < |newPath| && newPath[j].0 == oldPath[oldCur].1) ==> i < |newPath|
    ensures forall j :: 0 <= j < i ==> newPath[j].0 != oldPath[oldCur].1
  {
    FirstFromMatch(newPath, oldPath[oldCur].1)
  }

  /** The blend weight once `expf(to_frame / n_interp_frames) - 1` is known: clamped from above at 1, never below. */
  function ClampWeight(e: real): (w: real)
    ensures w <= 1.0
    ensures e - 1.0 <= 1.0 ==> w == e - 1.0
    ensures e - 1.0 > 1.0 ==> w == 1.0
  {
    var v := e - 1.0;
    if v > 1.0 then 1.0 else v
  }

  /** What `getPose` reads from the path and the weights it derives before the external pose work. */
  datatype PoseSample = PoseSample(current: FramePair, previous: FramePair, weight: real, complement: real)

  class LerpBlender {
    var fromMotion: Motion
    var toMotion: Motion
    /** The distance map's shortest path. */
    var path: Path
    var lastFrame: u32
    var curFrame: u32
    var nFromFrames: u32
    var nToFrames: u32
    var nInterpFrames: u32
    var globalState: GlobalState
    var velocityControl: VelocityControl

    /** The frame counts are those of the two motions, and the window is derived from them. */
    ghost predicate Valid()
      reads this
    {
      && nFromFrames == fromMotion.frames
      && nToFrames == toMotion.frames
      && nInterpFrames == InterpFrames(nFromFrames, nToFrames)
    }

    /** `LerpBlender(f, t)`: window from the frame counts, path from the distance map, cursor at 0, state cleared. */
    constructor (f: Motion, t: Motion, align: Aligner)
      ensures Valid()
      ensures fromMotion == f && toMotion == t
      ensures nInterpFrames == InterpFrames(f.frames, t.frames)
      ensures path == align(f, t, nInterpFrames)
      ensures lastFrame == 0 && curFrame == 0
      ensures globalState == ClearedState && velocityControl == ClearedControl
    {
      fromMotion := f;
      toMotion := t;
      lastFrame := 0;
      curFrame := 0;
      nFromFrames := f.frames;
      nToFrames := t.frames;
      var n := if f.frames < t.frames then f.frames / INTERP_DIVISOR else t.frames / INTERP_DIVISOR;
      nInterpFrames := n;
      path := align(f, t, n);
      globalState := ClearedState;
      velocityControl := ClearedControl;
    }

    /** The copy constructor: every field copied. */
    constructor Copy(other: LerpBlender)
      ensures fromMotion == other.fromMotion && toMotion == other.toMotion && path == other.path
      ensures lastFrame == other.lastFrame && curFrame == other.curFrame
      ensures nFromFrames == other.nFromFrames && nToFrames == other.nToFrames
      ensures nInterpFrames == other.nInterpFrames
      ensures globalState == other.globalState && velocityControl == other.velocityControl
      ensures other.Valid() ==> Valid()
    {
      fromMotion := other.fromMotion;
      toMotion := other.toMotion;
      globalState := other.globalState;
      velocityControl := other.velocityControl;
      path := other.path;
      lastFrame := other.lastFrame;
      curFrame := other.curFrame;
      nFromFrames := other.nFromFrames;
      nToFrames := other.nToFrames;
      nInterpFrames := other.nInterpFrames;
    }

    /** `operator=`: every field taken from `other`; assigning an object to itself changes nothing. */
    method Assign(other: LerpBlender)
      modifies this
      ensures fromMotion == old(other.fromMotion) && toMotion == old(other.toMotion)
      ensures path == old(other.path)
      ensures lastFrame == old(other.lastFrame) && curFrame == old(other.curFrame)
      ensures nFromFrames == old(other.nFromFrames) && nToFrames == old(other.nToFrames)
      ensures nInterpFrames == old(other.nInterpFrames)
      ensures globalState == old(other.globalState) && velocityControl == old(other.velocityControl)
      ensures other == this ==> unchanged(this)
      ensures old(other.Valid()) ==> Valid()
    {
      if this == other {
        return;
      }
      fromMotion := other.fromMotion;
      toMotion := other.toMotion;
      path := other.path;
      lastFrame := other.lastFrame;
      curFrame := other.curFrame;
      nFromFrames := other.nFromFrames;
      nToFrames := other.nToFrames;
      nInterpFrames := other.nInterpFrames;
      globalState := other.globalState;
      velocityControl := other.velocityControl;
    }

    /**
      `blendFromBlend(old, m)`: a blender from `old`'s "to" motion into `m`.
      Its cursor is found by scanning `old`'s path (not the new one) for the
      first pair whose from-frame is the to-frame `old` currently shows.
      `last_frame` keeps `old`'s distance to its cursor, in unsigned
      arithmetic. The global state is carried over; the velocity control
      stays cleared.
     */
    static method BlendFromBlend(prev: LerpBlender, m: Motion, align: Aligner) returns (blender: LerpBlender)
      requires prev.curFrame < |prev.path|
      ensures fresh(blender) && blender.Valid()
      ensures blender.fromMotion == prev.toMotion && blender.toMotion == m
      ensures blender.nInterpFrames == InterpFrames(prev.toMotion.frames, m.frames)
      ensures blender.path == align(prev.toMotion, m, blender.nInterpFrames)
      ensures blender.curFrame == FirstFromMatch(prev.path, prev.path[prev.curFrame].1)
      ensures blender.lastFrame == Wrap(blender.curFrame - Wrap(prev.curFrame - prev.lastFrame))
      ensures blender.globalState == prev.globalState
      ensures blender.velocityControl == ClearedControl
    {
      blender := new LerpBlender(prev.toMotion, m, align);
      blender.curFrame := 0;
      var oldPath := prev.path;
      var target := oldPath[prev.curFrame].1;
      var it := 0;
      while it < |oldPath|
        invariant 0 <= it <= |oldPath|
        invariant blender.curFrame == it
        invariant forall j :: 0 <= j < it ==> oldPath[j].0 != target
        invariant blender.Valid() && fresh(blender)
        invariant blender.fromMotion == prev.toMotion && blender.toMotion == m
        invariant blender.nInterpFrames == InterpFrames(prev.toMotion.frames, m.frames)
        invariant blender.path == align(prev.toMotion, m, blender.nInterpFrames)
        invariant blender.velocityControl == ClearedControl
        modifies blender
      {
        if oldPath[it].0 == target {
          break;
        }
        it := it + 1;
        blender.curFrame := blender.curFrame + 1;
      }
      blender.lastFrame := Wrap(blender.curFrame - Wrap(prev.curFrame - prev.lastFrame));
      blender.globalState := prev.globalState;
    }

    /** `changeFrame(delta)`: the cursor moves as `StepFrame` says; a jump clears the global state. */
    method ChangeFrame(delta: i32)
      modifies this
      ensures var s := StepFrame(old(|path|), old(curFrame), old(lastFrame), delta);
              curFrame == s.cur && lastFrame == s.last &&
              globalState == (if s.clearsState then ClearedState else old(globalState))
      ensures fromMotion == old(fromMotion) && toMotion == old(toMotion) && path == old(path)
      ensures nFromFrames == old(nFromFrames) && nToFrames == old(nToFrames)
      ensures nInterpFrames == old(nInterpFrames) && velocityControl == old(velocityControl)
    {
      lastFrame := curFrame;
      if Wrap(curFrame + delta) >= |path| {
        if delta > 0 {
          lastFrame := 0;
          curFrame := 0;
          globalState := ClearedState;
        } else if delta < 0 {
          curFrame := Wrap(|path| - 1);
          lastFrame := Wrap(curFrame + delta);
          globalState := ClearedState;
        }
      } else {
        curFrame := Wrap(curFrame + delta);
      }
    }

    /**
      The part of `getPose` that is index bookkeeping: the pair at the
      cursor and the pair at `last_frame` are read (both must be on the
      path), and the weight is `expf(to_frame / n_interp_frames) - 1`
      clamped at 1. `expRamp(f, n)` stands for the float value
      `expf((float) f / n)`, which is outside this model.
     */
    method GetPose(expRamp: (u32, u32) -> real) returns (s: PoseSample)
      requires curFrame < |path| && lastFrame < |path|
      ensures s.current == path[curFrame] && s.previous == path[lastFrame]
      ensures s.weight == ClampWeight(expRamp(path[curFrame].1, nInterpFrames))
      ensures s.weight <= 1.0 && s.weight + s.complement == 1.0 && s.complement >= 0.0
    {
      var framePair := path[curFrame];
      var interpValue := expRamp(framePair.1, nInterpFrames) - 1.0;
      if interpValue > 1.0 {
        interpValue := 1.0;
      }
      var interpConjugate := 1.0 - interpValue;
      var lastPair := path[lastFrame];
      s := PoseSample(framePair, lastPair, interpValue, interpConjugate);
    }
  }
}
