/** The per-frame update of the scene (`animate` in script.js): spin the model,
    dolly the camera toward it during the introductory zoom, and mark the zoom
    complete when the camera reaches its target distance.

    Distances and angles are integers in hundredths of a scene unit (of a
    radian for the spin), so the camera starts at 1000 (`z = 10`), steps by 5
    (0.05) toward 200 (2), and the model turns by 1 (0.01 rad) per frame.
    The floating-point rounding of these steps is not modelled. */
module Scene {

  /** Camera distance set by `initThree`. */
  const StartZ: int := 1000
  /** Camera step per frame during the zoom. */
  const ZoomStep: int := 5
  /** Distance at which the zoom is complete. */
  const ZoomTarget: int := 200
  /** Rotation about the y axis per frame, once the model is loaded. */
  const SpinStep: int := 1

  /** The state `animate` reads and writes: whether `heart` is set, its
      `rotation.y`, `camera.position.z` and `animationComplete`. */
  datatype SceneState = SceneState(loaded: bool, spin: int, z: int, complete: bool)

  /** The state after `initThree`, before the model has loaded. */
  function Initial(): SceneState {
    SceneState(false, 0, StartZ, false)
  }

  /** The invariant of every reachable state: the camera lies between just
      short of the target and its start, and the flag is set exactly when the
      camera has reached the target distance. */
  predicate Inv(s: SceneState) {
    ZoomTarget - ZoomStep < s.z <= StartZ && (s.complete <==> s.z <= ZoomTarget)
  }

  /** Whether the zoom branch runs on this frame. */
  predicate Zooming(s: SceneState) {
    s.loaded && !s.complete && s.z > ZoomTarget
  }

  /** The state after one frame. */
  function Next(s: SceneState): (r: SceneState)
    ensures !s.loaded ==> r == s
    ensures s.loaded ==> r.loaded && r.spin == s.spin + SpinStep
    ensures r.z == (if Zooming(s) then s.z - ZoomStep else s.z)
    ensures s.complete ==> r.complete && r.z == s.z
    ensures r.complete <==> s.complete || (Zooming(s) && r.z <= ZoomTarget)
  {
    if !s.loaded then s
    else
      var z := if !s.complete && s.z > ZoomTarget then s.z - ZoomStep else s.z;
      var complete := s.complete || (!s.complete && s.z > ZoomTarget && z <= ZoomTarget);
      SceneState(true, s.spin + SpinStep, z, complete)
  }

  /** Whether this frame reveals the countdown (adds `visible`, removes
      `hidden`): exactly when it turns the flag from false to true. */
  predicate Reveals(s: SceneState)
    ensures Reveals(s) <==> !s.complete && Next(s).complete
  {
    Zooming(s) && s.z - ZoomStep <= ZoomTarget
  }

  /** Every frame keeps the invariant. */
  lemma NextKeepsInv(s: SceneState)
    requires Inv(s)
    ensures Inv(Next(s))
  {
  }

  /** The state after `n` frames. */
  function Run(s: SceneState, n: nat): SceneState
    decreases n
  {
    if n == 0 then s else Run(Next(s), n - 1)
  }

  /** How many of the first `n` frames reveal the countdown. */
  function RevealCount(s: SceneState, n: nat): nat
    decreases n
  {
    if n == 0 then 0 else (if Reveals(s) then 1 else 0) + RevealCount(Next(s), n - 1)
  }

  /** Any number of frames keeps the invariant. */
  lemma {:induction false} RunKeepsInv(s: SceneState, n: nat)
    requires Inv(s)
    ensures Inv(Run(s, n))
    decreases n
  {
    if n > 0 {
      NextKeepsInv(s);
      RunKeepsInv(Next(s), n - 1);
    }
  }

  /** Before the model loads, frames change nothing. */
  lemma {:induction false} RunBeforeLoad(s: SceneState, n: nat)
    requires !s.loaded
    ensures Run(s, n) == s && RevealCount(s, n) == 0
    decreases n
  {
    if n > 0 {
      RunBeforeLoad(Next(s), n - 1);
    }
  }

  /** After load, each frame adds one spin step, whatever the zoom phase. */
  lemma {:induction false} RunSpins(s: SceneState, n: nat)
    requires s.loaded
    ensures Run(s, n).loaded && Run(s, n).spin == s.spin + n * SpinStep
    decreases n
  {
    if n > 0 {
      RunSpins(Next(s), n - 1);
    }
  }

  /** Once the zoom is complete the flag stays set, the camera never moves
      again and the countdown is not revealed a second time. */
  lemma {:induction false} RunAfterComplete(s: SceneState, n: nat)
    requires s.complete
    ensures Run(s, n).complete && Run(s, n).z == s.z && RevealCount(s, n) == 0
    decreases n
  {
    if n > 0 {
      RunAfterComplete(Next(s), n - 1);
    }
  }

  /** The countdown is revealed at most once over any run of frames. */
  lemma {:induction false} RevealAtMostOnce(s: SceneState, n: nat)
    ensures RevealCount(s, n) <= 1
    decreases n
  {
    if n > 0 {
      if Reveals(s) {
        RunAfterComplete(Next(s), n - 1);
      } else {
        RevealAtMostOnce(Next(s), n - 1);
      }
    }
  }

  /** From a reachable loaded state the zoom completes: within
      `(z - ZoomTarget) / ZoomStep + 1` frames the flag is set, the camera
      stands within one step short of the target, and the countdown has been
      revealed exactly once unless it already was. */
  lemma {:induction false} ZoomCompletes(s: SceneState, n: nat)
    requires Inv(s) && s.loaded
    requires n >= (s.z - ZoomTarget) / ZoomStep + 1
    ensures Run(s, n).complete
    ensures ZoomTarget - ZoomStep < Run(s, n).z <= ZoomTarget
    ensures RevealCount(s, n) == (if s.complete then 0 else 1)
    decreases n
  {
    if s.complete {
      RunAfterComplete(s, n);
    } else {
      var t := Next(s);
      NextKeepsInv(s);
      if t.complete {
        RunAfterComplete(t, n - 1);
      } else {
        ZoomCompletes(t, n - 1);
      }
    }
  }

  /** The scene controller: the module-level variables of script.js that
      `animate` and the model loader update in place. */
  class SceneController {
    /** `heart` is set. */
    var heartLoaded: bool
    /** `heart.rotation.y`, in hundredths of a radian. */
    var spin: int
    /** `camera.position.z`, in hundredths. */
    var z: int
    var animationComplete: bool

    function State(): SceneState
      reads this
    {
      SceneState(heartLoaded, spin, z, animationComplete)
    }

    ghost predicate Valid()
      reads this
    {
      Inv(State())
    }

    /** `initThree`: camera at its start distance, no model yet, zoom pending. */
    constructor ()
      ensures State() == Initial() && Valid()
    {
      heartLoaded, spin, z, animationComplete := false, 0, StartZ, false;
    }

    /** The loader's success callback, or the fallback `createSimpleHeart`:
        `heart` becomes a fresh model whose y rotation is zero. The camera and
        the flag are untouched. */
    method LoadModel()
      requires Valid()
      modifies this
      ensures Valid()
      ensures heartLoaded && spin == 0
      ensures z == old(z) && animationComplete == old(animationComplete)
    {
      heartLoaded, spin := true, 0;
    }

    /** The whole load callback: set `heart`, then call `animate` once, so the
        first frame runs inside the callback. Returns whether that frame
        revealed the countdown. */
    method OnModelLoaded() returns (revealed: bool)
      requires Valid()
      modifies this
      ensures Valid()
      ensures State() == Next(SceneState(true, 0, old(z), old(animationComplete)))
      ensures heartLoaded && spin == SpinStep
      ensures revealed <==> !old(animationComplete) && animationComplete
    {
      LoadModel();
      revealed := Frame();
    }

    /** One call of `animate`. Returns whether this frame revealed the
        countdown container. */
    method Frame() returns (revealed: bool)
      requires Valid()
      modifies this
      ensures Valid()
      ensures State() == Next(old(State()))
      ensures revealed <==> !old(animationComplete) && animationComplete
      ensures !old(heartLoaded) ==> State() == old(State()) && !revealed
      ensures old(heartLoaded) ==> spin == old(spin) + SpinStep
      ensures old(animationComplete) ==> animationComplete && z == old(z)
      ensures animationComplete && !old(animationComplete) ==> z <= ZoomTarget
    {
      revealed := false;
      if heartLoaded {
        spin := spin + SpinStep;
        if !animationComplete && z > ZoomTarget {
          z := z - ZoomStep;
          if z <= ZoomTarget {
            animationComplete := true;
            revealed := true;
          }
        }
      }
    }
  }
}
