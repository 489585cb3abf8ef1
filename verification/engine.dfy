/** The engine's scene-switch state machine (src/Melkam/core/Engine.cpp). The
    shared scene pointers become indices into the engine's own store of scenes;
    the window, the clock and rendering are parameters or left out. */
module EngineLoop {
  import opened Wrappers
  import SceneStore

  datatype EngineState = Uninitialized | Running | ShuttingDown

  /** A scene handle: an index into the store. */
  type SceneHandle = nat

  datatype Engine = Engine(
    state: EngineState,
    scenes: seq<SceneStore.Scene>,
    active: Option<SceneHandle>,
    pending: Option<SceneHandle>,
    reload: bool)

  /** Every handle the engine holds names a scene of its store. */
  predicate Names(e: Engine, h: Option<SceneHandle>) {
    h.Some? ==> h.value < |e.scenes|
  }

  predicate Valid(e: Engine) {
    Names(e, e.active) && Names(e, e.pending)
  }

  /** The constructor: no scenes, nothing requested, not yet running. */
  function NewEngine(): (r: Engine)
    ensures r.state == Uninitialized && Valid(r)
    ensures r.active.None? && r.pending.None? && !r.reload
  {
    Engine(Uninitialized, [], None, None, false)
  }

  function GetState(e: Engine): EngineState { e.state }

  function ActiveScene(e: Engine): Option<SceneHandle> { e.active }

  /** `shutdown`: the state becomes ShuttingDown, nothing else changes. */
  function Shutdown(e: Engine): (r: Engine)
    ensures GetState(r) == ShuttingDown
    ensures r.scenes == e.scenes && r.active == e.active && r.pending == e.pending && r.reload == e.reload
  {
    e.(state := ShuttingDown)
  }

  /** `createScene`: a fresh empty scene joins the store; it becomes active
      only when no scene is active yet. */
  function CreateScene(e: Engine, name: string): (r: (Engine, SceneHandle))
    requires Valid(e)
    ensures Valid(r.0)
    ensures r.1 == |e.scenes| && r.0.scenes == e.scenes + [SceneStore.NewScene(name)]
    ensures e.active.None? ==> r.0.active == Some(r.1)
    ensures e.active.Some? ==> r.0.active == e.active
    ensures r.0.pending == e.pending && r.0.reload == e.reload && r.0.state == e.state
  {
    var h := |e.scenes|;
    var e1 := e.(scenes := e.scenes + [SceneStore.NewScene(name)]);
    (if e.active.None? then e1.(active := Some(h)) else e1, h)
  }

  /** `setActiveScene`: switch immediately (a null pointer clears it). */
  function SetActiveScene(e: Engine, h: Option<SceneHandle>): (r: Engine)
    requires Valid(e) && Names(e, h)
    ensures Valid(r) && ActiveScene(r) == h
    ensures r.scenes == e.scenes && r.pending == e.pending && r.reload == e.reload && r.state == e.state
  {
    e.(active := h)
  }

  /** `requestSceneChange`: only record the scene for the end of the frame. */
  function RequestSceneChange(e: Engine, h: Option<SceneHandle>): (r: Engine)
    requires Valid(e) && Names(e, h)
    ensures Valid(r) && r.pending == h
    ensures r.active == e.active && r.scenes == e.scenes && r.reload == e.reload && r.state == e.state
  {
    e.(pending := h)
  }

  /** `requestSceneReload`: only raise the flag. */
  function RequestSceneReload(e: Engine): (r: Engine)
    requires Valid(e)
    ensures Valid(r) && r.reload
    ensures r.active == e.active && r.scenes == e.scenes && r.pending == e.pending && r.state == e.state
  {
    e.(reload := true)
  }

  /** The end-of-frame switch of the main loop. A pending scene becomes active
      and cancels any reload; otherwise a reload with an active scene rebuilds
      that scene (its builder callback being `build`) and lowers the flag; a
      reload with no active scene stays raised. */
  function EndOfFrame(e: Engine, build: SceneStore.Scene -> SceneStore.Scene): (r: Engine)
    requires Valid(e)
    ensures Valid(r) && r.pending.None? && r.state == e.state && |r.scenes| == |e.scenes|
    ensures e.pending.Some? ==> r.active == e.pending && !r.reload && r.scenes == e.scenes
    ensures e.pending.None? && e.reload && e.active.Some? ==>
      !r.reload && r.active == e.active &&
      r.scenes == e.scenes[e.active.value := SceneStore.Rebuild(e.scenes[e.active.value], build).1]
    ensures e.pending.None? && !(e.reload && e.active.Some?) ==> r == e
  {
    if e.pending.Some? then
      e.(active := e.pending, pending := None, reload := false)
    else if e.reload && e.active.Some? then
      var a := e.active.value;
      e.(scenes := e.scenes[a := SceneStore.Rebuild(e.scenes[a], build).1], reload := false)
    else e
  }

  /** Nothing is left to do after the switch: a pending request or a reload
      with an active scene is consumed, so running the switch again changes
      nothing. */
  lemma EndOfFrameSettles(e: Engine, build: SceneStore.Scene -> SceneStore.Scene)
    requires Valid(e)
    ensures var r := EndOfFrame(e, build);
      r.pending.None? && !(r.reload && r.active.Some?) && EndOfFrame(r, build) == r
  {
  }

  /** Requests take effect only at the end of the frame: right after them the
      active scene is still the old one. */
  lemma RequestsAreDeferred(e: Engine, h: Option<SceneHandle>)
    requires Valid(e) && Names(e, h)
    ensures ActiveScene(RequestSceneChange(e, h)) == ActiveScene(e)
    ensures ActiveScene(RequestSceneReload(e)) == ActiveScene(e)
    ensures RequestSceneReload(e).scenes == e.scenes
  {
  }

  /** A change requested in the same frame as a reload wins over it: the new
      scene becomes active unrebuilt and the reload is dropped. */
  lemma ChangeBeatsReload(e: Engine, h: SceneHandle, build: SceneStore.Scene -> SceneStore.Scene)
    requires Valid(e) && h < |e.scenes|
    ensures var r := EndOfFrame(RequestSceneChange(RequestSceneReload(e), Some(h)), build);
      r.active == Some(h) && !r.reload && r.scenes == e.scenes
    ensures var r := EndOfFrame(RequestSceneReload(RequestSceneChange(e, Some(h))), build);
      r.active == Some(h) && !r.reload && r.scenes == e.scenes
  {
  }

  /** The first scene created becomes active; a second one does not displace
      it. */
  lemma FirstSceneIsActive(a: string, b: string)
    ensures var (e1, h1) := CreateScene(NewEngine(), a);
      var (e2, h2) := CreateScene(e1, b);
      h1 == 0 && h2 == 1 && ActiveScene(e1) == Some(0) && ActiveScene(e2) == Some(0)
  {
  }

  /** A call on the engine made by code running inside a frame's update (a
      button callback, say): `requestSceneChange`, `requestSceneReload`,
      `setActiveScene` or `shutdown`. */
  datatype Request =
    | Change(scene: Option<SceneHandle>)
    | Reload
    | Activate(scene: Option<SceneHandle>)
    | Stop

  /** What the clock and the callbacks supply for one pass of the loop: the
      measured frame time and the engine calls made during that update, in
      order. */
  datatype FrameInput = FrameInput(dt: real, requests: seq<Request>)

  /** Every scene a request names is one of the first `n` of the store. */
  predicate RequestsName(n: nat, reqs: seq<Request>) {
    forall q | q in reqs :: (q.Change? || q.Activate?) && q.scene.Some? ==> q.scene.value < n
  }

  predicate FramesName(n: nat, frames: seq<FrameInput>) {
    forall f | f in frames :: RequestsName(n, f.requests)
  }

  /** No request of `reqs` is a change request. */
  predicate NoChange(reqs: seq<Request>) {
    forall q | q in reqs :: !q.Change?
  }

  /** No request of `reqs` is an immediate switch. */
  predicate NoActivate(reqs: seq<Request>) {
    forall q | q in reqs :: !q.Activate?
  }

  /** One engine call. */
  function Perform(e: Engine, q: Request): (r: Engine)
    requires Valid(e) && RequestsName(|e.scenes|, [q])
    ensures Valid(r) && r.scenes == e.scenes
    ensures r.state == (if q.Stop? then ShuttingDown else e.state)
    ensures r.reload == (e.reload || q.Reload?)
    ensures r.pending == (if q.Change? then q.scene else e.pending)
    ensures r.active == (if q.Activate? then q.scene else e.active)
  {
    assert q in [q];
    match q
    case Change(h) => RequestSceneChange(e, h)
    case Reload => RequestSceneReload(e)
    case Activate(h) => SetActiveScene(e, h)
    case Stop => Shutdown(e)
  }

  /** The engine calls of one update, in the order they were made. Only a
      stop touches the state, a reload request raises the flag for good, and
      the last change request and the last immediate switch decide the
      pending and the active scene. */
  function PerformAll(e: Engine, reqs: seq<Request>): (r: Engine)
    requires Valid(e) && RequestsName(|e.scenes|, reqs)
    ensures Valid(r) && r.scenes == e.scenes
    ensures Stop in reqs ==> r.state == ShuttingDown
    ensures Stop !in reqs ==> r.state == e.state
    ensures r.reload <==> e.reload || Reload in reqs
    ensures NoChange(reqs) ==> r.pending == e.pending
    ensures NoActivate(reqs) ==> r.active == e.active
    ensures reqs != [] && reqs[|reqs| - 1].Change? ==> r.pending == reqs[|reqs| - 1].scene
    ensures reqs != [] && reqs[|reqs| - 1].Activate? ==> r.active == reqs[|reqs| - 1].scene
    decreases |reqs|
  {
    if reqs == [] then e
    else
      var n := |reqs| - 1;
      var front := reqs[..n];
      assert reqs == front + [reqs[n]];
      assert forall q | q in front :: q in reqs;
      Perform(PerformAll(e, front), reqs[n])
  }

  /** Performing two runs of requests one after the other is performing
      them together. */
  lemma {:induction false} PerformAllAppend(e: Engine, a: seq<Request>, b: seq<Request>)
    requires Valid(e) && RequestsName(|e.scenes|, a + b)
    ensures RequestsName(|e.scenes|, a) && RequestsName(|PerformAll(e, a).scenes|, b)
    ensures PerformAll(e, a + b) == PerformAll(PerformAll(e, a), b)
    decreases |b|
  {
    assert forall q | q in a :: q in a + b;
    assert forall q | q in b :: q in a + b;
    if b == [] {
      assert a + b == a;
    } else {
      var n := |b| - 1;
      assert a + b == (a + b[..n]) + [b[n]];
      assert b == b[..n] + [b[n]];
      assert forall q | q in b[..n] :: q in b;
      assert forall q | q in a + b[..n] :: q in a + b;
      PerformAllAppend(e, a, b[..n]);
    }
  }

  /** The last change request of an update decides the pending scene,
      whatever comes after it. */
  lemma LastChangeWins(e: Engine, pre: seq<Request>, h: Option<SceneHandle>, post: seq<Request>)
    requires Valid(e) && RequestsName(|e.scenes|, pre + [Change(h)] + post) && NoChange(post)
    ensures PerformAll(e, pre + [Change(h)] + post).pending == h
  {
    PerformAllAppend(e, pre + [Change(h)], post);
  }

  /** The last immediate switch of an update decides the active scene,
      whatever comes after it. */
  lemma LastActivateWins(e: Engine, pre: seq<Request>, h: Option<SceneHandle>, post: seq<Request>)
    requires Valid(e) && RequestsName(|e.scenes|, pre + [Activate(h)] + post) && NoActivate(post)
    ensures PerformAll(e, pre + [Activate(h)] + post).active == h
  {
    PerformAllAppend(e, pre + [Activate(h)], post);
  }

  /** One pass of `run`'s loop: the active scene's update, as the calls it
      makes on its systems, during which the engine calls of `f` are made;
      then the end-of-frame switch. */
  function Frame(e: Engine, f: FrameInput, fuel: nat, build: SceneStore.Scene -> SceneStore.Scene): (r: (seq<SceneStore.Call>, Engine))
    requires Valid(e) && RequestsName(|e.scenes|, f.requests)
    ensures Valid(r.1) && r.1 == EndOfFrame(PerformAll(e, f.requests), build)
    ensures e.active.None? ==> r.0 == []
    ensures e.active.Some? ==> r.0 == SceneStore.Update(e.scenes[e.active.value], f.dt, fuel)
  {
    var calls := if e.active.Some? then SceneStore.Update(e.scenes[e.active.value], f.dt, fuel) else [];
    (calls, EndOfFrame(PerformAll(e, f.requests), build))
  }

  /** The passes of `run`'s loop over `frames`, while the state stays
      Running: the calls made on systems, in order, and the engine after the
      last pass. */
  function Frames(e: Engine, frames: seq<FrameInput>, fuel: nat, build: SceneStore.Scene -> SceneStore.Scene): (r: (seq<SceneStore.Call>, Engine))
    requires Valid(e) && FramesName(|e.scenes|, frames)
    ensures Valid(r.1) && |r.1.scenes| == |e.scenes|
    ensures e.state != Running || frames == [] ==> r == ([], e)
    ensures e.state == Running && frames != [] ==> r.1.pending.None?
    decreases |frames|
  {
    if e.state != Running || frames == [] then ([], e)
    else
      var (c, e1) := Frame(e, frames[0], fuel, build);
      assert FramesName(|e1.scenes|, frames[1..]) by {
        forall f | f in frames[1..] ensures RequestsName(|e1.scenes|, f.requests) {
          assert f in frames;
        }
      }
      var (c1, e2) := Frames(e1, frames[1..], fuel, build);
      (c + c1, e2)
  }

  /** A scene change requested during frame k is the scene frame k + 1
      updates: the run's calls are frame k's, then the update of the
      requested scene, then those of the frames after. */
  lemma ChangeTakesEffectNextFrame(e: Engine, f: FrameInput, g: FrameInput, rest: seq<FrameInput>, h: SceneHandle,
                                   fuel: nat, build: SceneStore.Scene -> SceneStore.Scene)
    requires Valid(e) && e.state == Running && FramesName(|e.scenes|, [f, g] + rest)
    requires Stop !in f.requests && PerformAll(e, f.requests).pending == Some(h)
    ensures var (c, e1) := Frame(e, f, fuel, build);
      Frames(e, [f, g] + rest, fuel, build).0 ==
        c + (SceneStore.Update(e.scenes[h], g.dt, fuel) + Frames(Frame(e1, g, fuel, build).1, rest, fuel, build).0)
  {
    var frames := [f, g] + rest;
    assert f in frames && g in frames;
    var e1 := Frame(e, f, fuel, build).1;
    SwitchAfterChange(e, f, h, fuel, build);
    assert Stop !in f.requests;
    assert Frame(e1, g, fuel, build).0 == SceneStore.Update(e.scenes[h], g.dt, fuel);
    TwoFrames(e, f, g, rest, fuel, build);
  }

  /** Two passes of the loop, unfolded. */
  lemma TwoFrames(e: Engine, f: FrameInput, g: FrameInput, rest: seq<FrameInput>, fuel: nat, build: SceneStore.Scene -> SceneStore.Scene)
    requires Valid(e) && e.state == Running && FramesName(|e.scenes|, [f, g] + rest)
    requires Frame(e, f, fuel, build).1.state == Running
    ensures var (c, e1) := Frame(e, f, fuel, build);
      var (u, e2) := Frame(e1, g, fuel, build);
      Frames(e, [f, g] + rest, fuel, build).0 == c + (u + Frames(e2, rest, fuel, build).0)
  {
    var frames := [f, g] + rest;
    assert frames[0] == f && frames[1..] == [g] + rest && ([g] + rest)[0] == g && ([g] + rest)[1..] == rest;
    FramesStep(e, frames, fuel, build);
    FramesStep(Frame(e, f, fuel, build).1, [g] + rest, fuel, build);
  }

  /** The frame in which a change is requested ends on the requested
      scene, with the store untouched. */
  lemma SwitchAfterChange(e: Engine, f: FrameInput, h: SceneHandle, fuel: nat, build: SceneStore.Scene -> SceneStore.Scene)
    requires Valid(e) && RequestsName(|e.scenes|, f.requests)
    requires PerformAll(e, f.requests).pending == Some(h)
    ensures var e1 := Frame(e, f, fuel, build).1;
      e1.active == Some(h) && e1.scenes == e.scenes && e1.state == PerformAll(e, f.requests).state
    ensures Stop !in f.requests ==> Frame(e, f, fuel, build).1.state == e.state
  {
  }

  /** One step of the loop, unfolded. */
  lemma FramesStep(e: Engine, frames: seq<FrameInput>, fuel: nat, build: SceneStore.Scene -> SceneStore.Scene)
    requires Valid(e) && e.state == Running && frames != [] && FramesName(|e.scenes|, frames)
    ensures frames[0] in frames && RequestsName(|e.scenes|, frames[0].requests)
    ensures var (c, e1) := Frame(e, frames[0], fuel, build);
      FramesName(|e1.scenes|, frames[1..]) &&
      Frames(e, frames, fuel, build) == (c + Frames(e1, frames[1..], fuel, build).0, Frames(e1, frames[1..], fuel, build).1)
  {
    var e1 := Frame(e, frames[0], fuel, build).1;
    assert frames[0] in frames;
    forall f | f in frames[1..] ensures RequestsName(|e1.scenes|, f.requests) {
      assert f in frames;
    }
  }

  /** A stop requested during a frame ends the loop after that frame's
      switch: later frames make no calls and change nothing. */
  lemma StopEndsRun(e: Engine, f: FrameInput, rest: seq<FrameInput>, fuel: nat, build: SceneStore.Scene -> SceneStore.Scene)
    requires Valid(e) && e.state == Running && FramesName(|e.scenes|, [f] + rest)
    requires Stop in f.requests
    ensures Frames(e, [f] + rest, fuel, build) == Frame(e, f, fuel, build)
    ensures Frame(e, f, fuel, build).1.state == ShuttingDown
  {
    assert ([f] + rest)[0] == f && ([f] + rest)[1..] == rest;
    FramesStep(e, [f] + rest, fuel, build);
    var (c, _) := Frame(e, f, fuel, build);
    assert c + [] == c;
  }

  /** With no engine calls from inside the frames, each switch after the
      first has nothing to apply. */
  lemma QuietFrameSettles(e: Engine, f: FrameInput, fuel: nat, build: SceneStore.Scene -> SceneStore.Scene)
    requires Valid(e) && f.requests == []
    ensures var r := Frame(e, f, fuel, build).1;
      r.pending.None? && !(r.reload && r.active.Some?) && r.state == e.state
  {
    EndOfFrameSettles(e, build);
  }

  /** One pass of the loop moves the split point of the run's calls on by
      one frame. */
  lemma FramesAdvance(total: (seq<SceneStore.Call>, Engine), frames: seq<FrameInput>, i: nat, calls: seq<SceneStore.Call>, r: Engine,
                      fuel: nat, build: SceneStore.Scene -> SceneStore.Scene)
    requires Valid(r) && r.state == Running && i < |frames| && FramesName(|r.scenes|, frames[i..])
    requires total == (calls + Frames(r, frames[i..], fuel, build).0, Frames(r, frames[i..], fuel, build).1)
    ensures frames[i] in frames[i..] && RequestsName(|r.scenes|, frames[i].requests)
    ensures var (c, r1) := Frame(r, frames[i], fuel, build);
      FramesName(|r1.scenes|, frames[i + 1..]) &&
      total == ((calls + c) + Frames(r1, frames[i + 1..], fuel, build).0, Frames(r1, frames[i + 1..], fuel, build).1)
  {
    assert frames[i..][0] == frames[i] && frames[i..][1..] == frames[i + 1..];
    FramesStep(r, frames[i..], fuel, build);
    var (c, r1) := Frame(r, frames[i], fuel, build);
    var x := Frames(r1, frames[i + 1..], fuel, build).0;
    assert calls + (c + x) == (calls + c) + x;
  }

  /** `run`. The state becomes Running; a window that fails to open ends the
      run at once. Otherwise one pass runs per entry of `frames` (the window
      reporting a close request after the last) for as long as the state
      stays Running, and the run ends by shutting down. The calls made on
      systems are returned in order. */
  method Run(e: Engine, windowOpens: bool, frames: seq<FrameInput>, fuel: nat, build: SceneStore.Scene -> SceneStore.Scene)
    returns (r: Engine, calls: seq<SceneStore.Call>)
    requires Valid(e) && FramesName(|e.scenes|, frames)
    ensures GetState(r) == ShuttingDown && Valid(r) && |r.scenes| == |e.scenes|
    ensures !windowOpens ==> r == e.(state := ShuttingDown) && calls == []
    ensures windowOpens ==> (calls, r) == (Frames(e.(state := Running), frames, fuel, build).0,
                                           Shutdown(Frames(e.(state := Running), frames, fuel, build).1))
    ensures windowOpens && |frames| > 0 ==> r.pending.None?
    ensures windowOpens && |frames| == 0 ==> r == e.(state := ShuttingDown) && calls == []
  {
    r := e.(state := Running);
    calls := [];
    if !windowOpens {
      r := r.(state := ShuttingDown);
      return;
    }
    ghost var e0 := r;
    var i := 0;
    assert frames[i..] == frames;
    assert calls + Frames(r, frames[i..], fuel, build).0 == Frames(r, frames[i..], fuel, build).0;
    while i < |frames| && r.state == Running
      invariant 0 <= i <= |frames|
      invariant Valid(r) && |r.scenes| == |e.scenes|
      invariant FramesName(|r.scenes|, frames[i..])
      invariant Frames(e0, frames, fuel, build) == (calls + Frames(r, frames[i..], fuel, build).0, Frames(r, frames[i..], fuel, build).1)
      invariant i == 0 ==> r == e0 && calls == []
      invariant i > 0 ==> r.pending.None?
      decreases |frames| - i
    {
      FramesAdvance(Frames(e0, frames, fuel, build), frames, i, calls, r, fuel, build);
      var step := Frame(r, frames[i], fuel, build);
      calls := calls + step.0;
      r := step.1;
      i := i + 1;
    }
    assert Frames(r, frames[i..], fuel, build) == ([], r);
    assert calls + [] == calls;
    r := Shutdown(r);
  }
}
