/**
 * The Effekseer shim: a C++ export layer between the engine and the
 * Effekseer SDK.  It keeps a registry of effect prefabs under increasing
 * ids, a frame counter that drives the renderer's clock, and issues the
 * SDK's per-frame calls in a fixed order.
 *
 * SDK objects (effects, render passes, command buffers) are opaque
 * numbers.  What the SDK computes — the effect built from its data, the
 * effect's term, the handle its manager returns for a played effect — is
 * an input of the shim call that uses it.  Each shim call is a step from
 * one context to the next that also yields the call's reply and the SDK
 * calls it makes, in order.
 */
module Effekseer {
  import opened Wrappers
  import Util

  predicate IsMatrix(m: seq<seq<real>>)
  {
    |m| == 4 && forall i :: 0 <= i < 4 ==> |m[i]| == 4
  }

  /** A 4×4 matrix, as the engine's `Matrix` and the SDK's `Matrix44` both hold it: four rows of four. */
  type Matrix = m: seq<seq<real>> | IsMatrix(m)
    witness [[0.0, 0.0, 0.0, 0.0], [0.0, 0.0, 0.0, 0.0], [0.0, 0.0, 0.0, 0.0], [0.0, 0.0, 0.0, 0.0]]

  /** The sixteen values of a matrix in memory order, row after row. */
  function Values(m: Matrix): (f: seq<real>)
    ensures |f| == 16
  {
    seq(16, k requires 0 <= k < 16 => m[k / 4][k % 4])
  }

  /** The matrix whose memory holds the sixteen values `f`. */
  function FromValues(f: seq<real>): Matrix
    requires |f| == 16
  {
    seq(4, i requires 0 <= i < 4 => seq(4, j requires 0 <= j < 4 => f[4 * i + j]))
  }

  lemma ValuesRoundTrip(m: Matrix)
    ensures FromValues(Values(m)) == m
  {
    var r := FromValues(Values(m));
    forall i, j | 0 <= i < 4 && 0 <= j < 4
      ensures r[i][j] == m[i][j]
    {
      Util.DivUnique(4 * i + j, 4, i, j);
    }
    forall i | 0 <= i < 4
      ensures r[i] == m[i]
    {
    }
  }

  /**
   * The copy in the matrix sync calls: the sixteen values of the engine's
   * matrix are copied, in memory order, into a zeroed SDK matrix; every
   * entry arrives unchanged and in its place.
   */
  function CopyMatrix(m: Matrix): (r: Matrix)
    ensures r == m
  {
    ValuesRoundTrip(m);
    FromValues(Values(m))
  }

  /** The SDK calls the shim makes, in the order it makes them. */
  datatype SdkCall =
    | SetExternalCommandBuffer(handle: nat)
    | CommandListBegin
    | BeginRenderPass(pass: Option<nat>)
    | ManagerUpdate
    | SetTime(seconds: real)
    | BeginRendering
    | ManagerDraw
    | EndRendering
    | EndRenderPass
    | CommandListEnd
    | Execute
    | ManagerPlay(effect: nat)
    | SetProjectionMatrix(m: Matrix)
    | SetCameraMatrix(m: Matrix)

  /**
   * The shim's context: the frame counter, the prefab registry from id to
   * effect, the last id handed out, and the render pass stored by the
   * external-Vulkan start-up (`None` for a null pointer).
   */
  datatype Context = Context(time: int, prefabs: map<int, nat>, prefabIdx: int, renderPass: Option<nat>)

  /** The id counter never went below its start, and every registered id was handed out: it lies between 1 and the last id. */
  predicate WellFormed(c: Context)
  {
    c.prefabIdx >= 0 && forall k :: k in c.prefabs ==> 1 <= k <= c.prefabIdx
  }

  /**
   * `Startup`: a new context at frame 0 with an empty registry and the id
   * counter at 0; the render pass pointer of a new context is null.
   */
  function Startup(): (c: Context)
    ensures WellFormed(c) && c.prefabs == map[] && c.prefabIdx == 0 && c.time == 0 && c.renderPass.None?
  {
    Context(0, map[], 0, None)
  }

  /** `StartupWithExternalVulkan`: `Startup`, then the render pass built on the shared textures is stored. */
  function StartupWithExternalVulkan(renderPass: nat): (c: Context)
    ensures WellFormed(c) && c.prefabs == map[] && c.time == 0 && c.renderPass == Some(renderPass)
  {
    Startup().(renderPass := Some(renderPass))
  }

  datatype EffectInfo = EffectInfo(duration: int, prefabId: int)

  /**
   * `LoadEffectPrefab`: the id counter is incremented first and the new
   * value is the effect's id.  The registry insertion keeps an entry that
   * is already there; the reply carries the id and the effect's term.
   */
  function LoadEffectPrefab(c: Context, effect: nat, termMax: int): (r: (Context, EffectInfo))
    ensures r.1 == EffectInfo(termMax, c.prefabIdx + 1) && r.0.prefabIdx == r.1.prefabId
    ensures WellFormed(c) ==> c.prefabIdx + 1 !in c.prefabs && r.0.prefabs == c.prefabs[c.prefabIdx + 1 := effect]
    ensures WellFormed(c) ==> WellFormed(r.0)
    ensures r.0.time == c.time && r.0.renderPass == c.renderPass
  {
    var idx := c.prefabIdx + 1;
    var prefabs := if idx in c.prefabs then c.prefabs else c.prefabs[idx := effect];
    (c.(prefabs := prefabs, prefabIdx := idx), EffectInfo(termMax, idx))
  }

  /** `ReleaseEffectPrefab`: exactly that id leaves the registry; an unknown id changes nothing. */
  function ReleaseEffectPrefab(c: Context, handle: int): (r: Context)
    ensures r.prefabs == c.prefabs - {handle}
    ensures r.time == c.time && r.prefabIdx == c.prefabIdx && r.renderPass == c.renderPass
    ensures WellFormed(c) ==> WellFormed(r)
  {
    if handle !in c.prefabs then c else c.(prefabs := c.prefabs - {handle})
  }

  /**
   * `PlayEffect`: an id not in the registry answers -1 and leaves the
   * manager alone; otherwise the registered effect is played and the
   * manager's handle, `managerHandle`, is returned.
   */
  function PlayEffect(c: Context, idx: int, managerHandle: int): (r: (int, seq<SdkCall>))
    ensures idx !in c.prefabs ==> r == (-1, [])
    ensures idx in c.prefabs ==> r == (managerHandle, [ManagerPlay(c.prefabs[idx])])
  {
    if idx !in c.prefabs then (-1, []) else (managerHandle, [ManagerPlay(c.prefabs[idx])])
  }

  /**
   * The calls of one frame after the optional external command buffer:
   * the command list and render pass are opened, the manager updates its
   * effects, the renderer's clock is set and rendering begins; then the
   * effects are drawn and everything is closed and submitted.
   */
  function FrameCalls(pass: Option<nat>, seconds: real): seq<SdkCall>
  {
    FrameOpen(pass, seconds) + FRAME_CLOSE
  }

  function FrameOpen(pass: Option<nat>, seconds: real): seq<SdkCall>
  {
    [CommandListBegin, BeginRenderPass(pass), ManagerUpdate, SetTime(seconds), BeginRendering]
  }

  const FRAME_CLOSE: seq<SdkCall> := [ManagerDraw, EndRendering, EndRenderPass, CommandListEnd, Execute]

  /**
   * `UpdateFrame`: records and submits one frame and advances the frame
   * number; nothing else in the context changes.
   */
  function UpdateFrame(c: Context, renderPass: Option<nat>, externalCommandBuffer: nat): (r: (Context, seq<SdkCall>))
    ensures r.0 == c.(time := c.time + 1)
  {
    var pass := if renderPass.None? then c.renderPass else renderPass;
    var external := if externalCommandBuffer != 0 then [SetExternalCommandBuffer(externalCommandBuffer)] else [];
    (c.(time := c.time + 1), external + FrameCalls(pass, c.time as real / 60.0))
  }

  /**
   * A caller-supplied render pass wins over the stored one, and every
   * render pass the frame begins is that one.  An external command buffer
   * is installed, first, exactly when its handle is non-zero.
   */
  lemma UpdateFrameCalls(c: Context, renderPass: Option<nat>, externalCommandBuffer: nat)
    ensures var log := UpdateFrame(c, renderPass, externalCommandBuffer).1;
            && (forall k :: 0 <= k < |log| && log[k].SetExternalCommandBuffer? ==>
                  k == 0 && externalCommandBuffer != 0 && log[k].handle == externalCommandBuffer)
            && (externalCommandBuffer != 0 ==> |log| > 0 && log[0] == SetExternalCommandBuffer(externalCommandBuffer))
            && (forall k :: 0 <= k < |log| && log[k].BeginRenderPass? ==>
                  log[k].pass == (if renderPass.Some? then renderPass else c.renderPass))
            && BeginRenderPass(if renderPass.Some? then renderPass else c.renderPass) in log
  {
    var pass := if renderPass.None? then c.renderPass else renderPass;
    var external := if externalCommandBuffer != 0 then [SetExternalCommandBuffer(externalCommandBuffer)] else [];
    var log := external + FrameCalls(pass, c.time as real / 60.0);
    assert log[|external| + 1] == BeginRenderPass(pass);
    assert forall k :: |external| <= k < |log| ==> log[k] == FrameCalls(pass, c.time as real / 60.0)[k - |external|];
  }

  /** `SyncProjectionMatrix`: the renderer's projection becomes the engine's matrix. */
  function SyncProjectionMatrix(m: Matrix): (r: seq<SdkCall>)
    ensures r == [SetProjectionMatrix(m)]
  {
    [SetProjectionMatrix(CopyMatrix(m))]
  }

  /** `SyncViewMatrix`: the renderer's camera becomes the engine's view matrix. */
  function SyncViewMatrix(m: Matrix): (r: seq<SdkCall>)
    ensures r == [SetCameraMatrix(m)]
  {
    [SetCameraMatrix(CopyMatrix(m))]
  }

  /** A call across the shim, with what the SDK answers inside it as part of the call. */
  datatype ApiCall =
    | Load(effect: nat, termMax: int)
    | Release(id: int)
    | Play(id: int, managerHandle: int)
    | Update(renderPass: Option<nat>, commandBuffer: nat)
    | SyncProjection(projection: Matrix)
    | SyncView(view: Matrix)

  datatype Reply = NoReply | Info(info: EffectInfo) | Handle(handle: int)

  datatype Outcome = Outcome(ctx: Context, reply: Reply, sdk: seq<SdkCall>)

  /** One call across the shim from context `c`: the next context, the reply and the SDK calls made. */
  function Step(c: Context, call: ApiCall): Outcome
  {
    match call
    case Load(effect, termMax) =>
      var (c', info) := LoadEffectPrefab(c, effect, termMax);
      Outcome(c', Info(info), [])
    case Release(id) => Outcome(ReleaseEffectPrefab(c, id), NoReply, [])
    case Play(id, managerHandle) =>
      var (handle, sdk) := PlayEffect(c, id, managerHandle);
      Outcome(c, Handle(handle), sdk)
    case Update(renderPass, commandBuffer) =>
      var (c', sdk) := UpdateFrame(c, renderPass, commandBuffer);
      Outcome(c', NoReply, sdk)
    case SyncProjection(m) => Outcome(c, NoReply, SyncProjectionMatrix(m))
    case SyncView(m) => Outcome(c, NoReply, SyncViewMatrix(m))
  }

  /** What a sequence of calls leaves behind: the context, one reply per call, and every SDK call in order. */
  datatype Session = Session(ctx: Context, replies: seq<Reply>, sdk: seq<SdkCall>)

  function Run(start: Context, calls: seq<ApiCall>): (s: Session)
    ensures |s.replies| == |calls|
    decreases |calls|
  {
    if |calls| == 0 then Session(start, [], [])
    else
      var prev := Run(start, calls[..|calls| - 1]);
      var o := Step(prev.ctx, calls[|calls| - 1]);
      Session(o.ctx, prev.replies + [o.reply], prev.sdk + o.sdk)
  }

  function Loads(calls: seq<ApiCall>): nat
  {
    if |calls| == 0 then 0
    else Loads(calls[..|calls| - 1]) + (if calls[|calls| - 1].Load? then 1 else 0)
  }

  function Updates(calls: seq<ApiCall>): nat
  {
    if |calls| == 0 then 0
    else Updates(calls[..|calls| - 1]) + (if calls[|calls| - 1].Update? then 1 else 0)
  }

  /**
   * Over a session the frame counter advances once per `UpdateFrame`, the
   * id counter once per `LoadEffectPrefab`, and the stored render pass
   * never changes.
   */
  lemma {:induction false} RunCounters(start: Context, calls: seq<ApiCall>)
    ensures Run(start, calls).ctx.time == start.time + Updates(calls)
    ensures Run(start, calls).ctx.prefabIdx == start.prefabIdx + Loads(calls)
    ensures Run(start, calls).ctx.renderPass == start.renderPass
    decreases |calls|
  {
    if |calls| > 0 {
      RunCounters(start, calls[..|calls| - 1]);
    }
  }

  /** Every shim call keeps the registry's ids among those handed out. */
  lemma StepKeepsWellFormed(c: Context, call: ApiCall)
    requires WellFormed(c)
    ensures WellFormed(Step(c, call).ctx)
  {
  }

  /** Over a session the registry only ever holds ids that were handed out. */
  lemma {:induction false} RunKeepsWellFormed(start: Context, calls: seq<ApiCall>)
    requires WellFormed(start)
    ensures WellFormed(Run(start, calls).ctx)
    decreases |calls|
  {
    if |calls| > 0 {
      RunKeepsWellFormed(start, calls[..|calls| - 1]);
      StepKeepsWellFormed(Run(start, calls[..|calls| - 1]).ctx, calls[|calls| - 1]);
    }
  }

  /** The reply to each call is the reply of that call's step from the context the calls before it left. */
  lemma {:induction false} RunReplies(start: Context, calls: seq<ApiCall>, i: nat)
    requires i < |calls|
    ensures Run(start, calls).replies[i] == Step(Run(start, calls[..i]).ctx, calls[i]).reply
    decreases |calls|
  {
    if i < |calls| - 1 {
      var prefix := calls[..|calls| - 1];
      RunReplies(start, prefix, i);
      assert prefix[..i] == calls[..i];
    } else {
      assert calls[..|calls| - 1] == calls[..i];
    }
  }

  lemma {:induction false} LoadsPrefix(calls: seq<ApiCall>, i: nat, j: nat)
    requires i <= j <= |calls|
    ensures Loads(calls[..i]) <= Loads(calls[..j])
    decreases j - i
  {
    if i < j {
      LoadsPrefix(calls, i, j - 1);
      assert calls[..j][..j - 1] == calls[..j - 1];
    }
  }

  /**
   * From either start-up (the id counter at 0) the k-th
   * `LoadEffectPrefab` of a session is given id k, whatever was released
   * in between, and reports the effect's term.
   */
  lemma LoadIdsCount(start: Context, calls: seq<ApiCall>, i: nat)
    requires start.prefabIdx == 0
    requires i < |calls| && calls[i].Load?
    ensures Run(start, calls).replies[i] == Info(EffectInfo(calls[i].termMax, Loads(calls[..i]) + 1))
  {
    RunReplies(start, calls, i);
    RunCounters(start, calls[..i]);
  }

  /** Ids are never reused: a later load always gets a larger id than an earlier one. */
  lemma IdsIncrease(start: Context, calls: seq<ApiCall>, i: nat, j: nat)
    requires start.prefabIdx == 0
    requires i < j < |calls| && calls[i].Load? && calls[j].Load?
    ensures Run(start, calls).replies[i].Info? && Run(start, calls).replies[j].Info?
    ensures Run(start, calls).replies[i].info.prefabId < Run(start, calls).replies[j].info.prefabId
  {
    LoadIdsCount(start, calls, i);
    LoadIdsCount(start, calls, j);
    LoadsPrefix(calls, i + 1, j);
    assert calls[..i + 1][..i] == calls[..i];
  }

  /** Call `i` loaded the effect that is due under id `k`, and no later call released `k`. */
  predicate LiveAt(calls: seq<ApiCall>, i: int, k: int)
  {
    0 <= i < |calls| && calls[i].Load? && Loads(calls[..i]) + 1 == k
    && forall j :: i < j < |calls| ==> calls[j] != Release(k)
  }

  lemma LiveAtExtend(calls: seq<ApiCall>, k: int, i: int)
    requires |calls| > 0 && calls[|calls| - 1] != Release(k)
    requires 0 <= i < |calls| - 1
    ensures LiveAt(calls, i, k) <==> LiveAt(calls[..|calls| - 1], i, k)
  {
    assert calls[..|calls| - 1][..i] == calls[..i];
  }

  lemma LiveAtReleased(calls: seq<ApiCall>, k: int, i: int)
    requires |calls| > 0 && calls[|calls| - 1] == Release(k)
    ensures !LiveAt(calls, i, k)
  {
    if 0 <= i < |calls| - 1 {
      assert calls[|calls| - 1] == Release(k);
    }
  }

  /** No load before the last call was given the id the next load will get. */
  lemma NoEarlierLoadOwns(calls: seq<ApiCall>, k: int, i: int)
    requires |calls| > 0 && k == Loads(calls[..|calls| - 1]) + 1
    requires 0 <= i < |calls| - 1
    ensures !LiveAt(calls, i, k)
  {
    LoadsPrefix(calls, i + 1, |calls| - 1);
    assert calls[..i + 1][..i] == calls[..i];
  }

  /** A step that neither releases `k` nor hands `k` out leaves `k`'s entry as it was. */
  lemma StepKeepsOthers(c: Context, call: ApiCall, k: int)
    requires WellFormed(c)
    requires call != Release(k) && (call.Load? ==> k != c.prefabIdx + 1)
    ensures k in Step(c, call).ctx.prefabs <==> k in c.prefabs
    ensures k in c.prefabs ==> Step(c, call).ctx.prefabs[k] == c.prefabs[k]
  {
  }

  /**
   * From `Startup`, the registry is exactly the effects whose load was not
   * followed by a release of their id, each under the id its load was
   * given and holding the effect that load brought.
   */
  lemma {:induction false} RegistryIsLiveLoads(calls: seq<ApiCall>, k: int)
    ensures k in Run(Startup(), calls).ctx.prefabs <==> exists i :: LiveAt(calls, i, k)
    ensures forall i :: LiveAt(calls, i, k) ==> Run(Startup(), calls).ctx.prefabs[k] == calls[i].effect
    decreases |calls|
  {
    if |calls| > 0 {
      var n := |calls|;
      var p := calls[..n - 1];
      var last := calls[n - 1];
      var c := Run(Startup(), p).ctx;
      RegistryIsLiveLoads(p, k);
      RunCounters(Startup(), p);
      RunKeepsWellFormed(Startup(), p);
      var c' := Run(Startup(), calls).ctx;
      assert c' == Step(c, last).ctx;
      if last == Release(k) {
        forall i
          ensures !LiveAt(calls, i, k)
        {
          LiveAtReleased(calls, k, i);
        }
      } else if last.Load? && k == Loads(p) + 1 {
        assert LiveAt(calls, n - 1, k);
        forall i | i != n - 1
          ensures !LiveAt(calls, i, k)
        {
          if 0 <= i < n - 1 {
            NoEarlierLoadOwns(calls, k, i);
          }
        }
      } else {
        StepKeepsOthers(c, last, k);
        forall i | 0 <= i < n - 1
          ensures LiveAt(calls, i, k) <==> LiveAt(p, i, k)
        {
          LiveAtExtend(calls, k, i);
        }
        assert !LiveAt(calls, n - 1, k);
        assert forall i :: LiveAt(calls, i, k) <==> LiveAt(p, i, k);
      }
    }
  }

  /**
   * `PlayEffect` of an id whose prefab is not live — never handed out, or
   * released since — answers -1 and makes no SDK call.
   */
  lemma PlayOfReleasedFails(calls: seq<ApiCall>, k: int, managerHandle: int)
    requires forall i :: !LiveAt(calls, i, k)
    ensures Step(Run(Startup(), calls).ctx, Play(k, managerHandle)) == Outcome(Run(Startup(), calls).ctx, Handle(-1), [])
  {
    RegistryIsLiveLoads(calls, k);
  }

  /** `PlayEffect` of a live id plays the effect that id's load brought and returns the manager's handle. */
  lemma PlayOfLivePlaysItsEffect(calls: seq<ApiCall>, i: int, k: int, managerHandle: int)
    requires LiveAt(calls, i, k)
    ensures Step(Run(Startup(), calls).ctx, Play(k, managerHandle)).reply == Handle(managerHandle)
    ensures Step(Run(Startup(), calls).ctx, Play(k, managerHandle)).sdk == [ManagerPlay(calls[i].effect)]
  {
    RegistryIsLiveLoads(calls, k);
  }

  /** The SDK calls of `log` seen through `f`: each call's view, in order. */
  function Pick<T>(log: seq<SdkCall>, f: SdkCall -> seq<T>): seq<T>
  {
    if |log| == 0 then [] else f(log[0]) + Pick(log[1..], f)
  }

  lemma {:induction false} PickAppend<T>(a: seq<SdkCall>, b: seq<SdkCall>, f: SdkCall -> seq<T>)
    ensures Pick(a + b, f) == Pick(a, f) + Pick(b, f)
    decreases |a|
  {
    if |a| == 0 {
      assert a + b == b;
    } else {
      PickAppend(a[1..], b, f);
      assert (a + b)[1..] == a[1..] + b;
    }
  }

  /** The times the renderer's clock is set to. */
  function TimeOf(x: SdkCall): seq<real>
  {
    if x.SetTime? then [x.seconds] else []
  }

  /** The calls that shape a frame, without their arguments. */
  datatype Phase = OpenPass | UpdateEffects | SetClock | OpenRendering | DrawEffects | CloseRendering | ClosePass

  function PhaseOf(x: SdkCall): seq<Phase>
  {
    match x
    case BeginRenderPass(_) => [OpenPass]
    case ManagerUpdate => [UpdateEffects]
    case SetTime(_) => [SetClock]
    case BeginRendering => [OpenRendering]
    case ManagerDraw => [DrawEffects]
    case EndRendering => [CloseRendering]
    case EndRenderPass => [ClosePass]
    case _ => []
  }

  /**
   * One frame: inside the render pass the manager updates its effects, the
   * clock is set, and the effects are drawn between the renderer's begin
   * and end.
   */
  const FRAME: seq<Phase> := [OpenPass, UpdateEffects, SetClock, OpenRendering, DrawEffects, CloseRendering, ClosePass]

  /** `n` copies of `p`, one after another. */
  function Repeat(p: seq<Phase>, n: nat): seq<Phase>
  {
    if n == 0 then [] else Repeat(p, n - 1) + p
  }

  /** A view of a log is its first call's view followed by the rest's. */
  lemma PickFrom<T>(log: seq<SdkCall>, k: nat, f: SdkCall -> seq<T>)
    requires k < |log|
    ensures Pick(log[k..], f) == f(log[k]) + Pick(log[k + 1..], f)
  {
    assert log[k..][1..] == log[k + 1..];
  }

  lemma FrameOpenPicked(pass: Option<nat>, seconds: real)
    ensures Pick(FrameOpen(pass, seconds), PhaseOf) == [OpenPass, UpdateEffects, SetClock, OpenRendering]
  {
    var log := FrameOpen(pass, seconds);
    assert Pick(log[5..], PhaseOf) == [];
    PickFrom(log, 4, PhaseOf);
    assert Pick(log[4..], PhaseOf) == [OpenRendering];
    PickFrom(log, 3, PhaseOf);
    assert Pick(log[3..], PhaseOf) == [SetClock, OpenRendering];
    PickFrom(log, 2, PhaseOf);
    assert Pick(log[2..], PhaseOf) == [UpdateEffects, SetClock, OpenRendering];
    PickFrom(log, 1, PhaseOf);
    assert Pick(log[1..], PhaseOf) == [OpenPass, UpdateEffects, SetClock, OpenRendering];
    PickFrom(log, 0, PhaseOf);
    assert Pick(log[0..], PhaseOf) == [OpenPass, UpdateEffects, SetClock, OpenRendering];
    assert log[0..] == log;
  }

  lemma FrameOpenTimes(pass: Option<nat>, seconds: real)
    ensures Pick(FrameOpen(pass, seconds), TimeOf) == [seconds]
  {
    var log := FrameOpen(pass, seconds);
    assert Pick(log[5..], TimeOf) == [];
    PickFrom(log, 4, TimeOf);
    assert Pick(log[4..], TimeOf) == [];
    PickFrom(log, 3, TimeOf);
    assert Pick(log[3..], TimeOf) == [seconds];
    PickFrom(log, 2, TimeOf);
    assert Pick(log[2..], TimeOf) == [seconds];
    PickFrom(log, 1, TimeOf);
    assert Pick(log[1..], TimeOf) == [seconds];
    PickFrom(log, 0, TimeOf);
    assert Pick(log[0..], TimeOf) == [seconds];
    assert log[0..] == log;
  }

  lemma FrameClosePicked()
    ensures Pick(FRAME_CLOSE, PhaseOf) == [DrawEffects, CloseRendering, ClosePass]
  {
    var log := FRAME_CLOSE;
    assert Pick(log[5..], PhaseOf) == [];
    PickFrom(log, 4, PhaseOf);
    assert Pick(log[4..], PhaseOf) == [];
    PickFrom(log, 3, PhaseOf);
    assert Pick(log[3..], PhaseOf) == [];
    PickFrom(log, 2, PhaseOf);
    assert Pick(log[2..], PhaseOf) == [ClosePass];
    PickFrom(log, 1, PhaseOf);
    assert Pick(log[1..], PhaseOf) == [CloseRendering, ClosePass];
    PickFrom(log, 0, PhaseOf);
    assert Pick(log[0..], PhaseOf) == [DrawEffects, CloseRendering, ClosePass];
    assert log[0..] == log;
  }

  lemma FrameCloseTimes()
    ensures Pick(FRAME_CLOSE, TimeOf) == []
  {
    var log := FRAME_CLOSE;
    assert Pick(log[5..], TimeOf) == [];
    PickFrom(log, 4, TimeOf);
    assert Pick(log[4..], TimeOf) == [];
    PickFrom(log, 3, TimeOf);
    assert Pick(log[3..], TimeOf) == [];
    PickFrom(log, 2, TimeOf);
    assert Pick(log[2..], TimeOf) == [];
    PickFrom(log, 1, TimeOf);
    assert Pick(log[1..], TimeOf) == [];
    PickFrom(log, 0, TimeOf);
    assert Pick(log[0..], TimeOf) == [];
    assert log[0..] == log;
  }

  lemma FramePhases(pass: Option<nat>, seconds: real)
    ensures Pick(FrameCalls(pass, seconds), PhaseOf) == FRAME
    ensures Pick(FrameCalls(pass, seconds), TimeOf) == [seconds]
  {
    PickAppend(FrameOpen(pass, seconds), FRAME_CLOSE, PhaseOf);
    PickAppend(FrameOpen(pass, seconds), FRAME_CLOSE, TimeOf);
    FrameOpenPicked(pass, seconds);
    FrameOpenTimes(pass, seconds);
    FrameClosePicked();
    FrameCloseTimes();
  }

  /** A frame's calls seen as phases and as clock settings, whatever came before them. */
  lemma UpdateFramePicked(c: Context, renderPass: Option<nat>, commandBuffer: nat)
    ensures Pick(UpdateFrame(c, renderPass, commandBuffer).1, PhaseOf) == FRAME
    ensures Pick(UpdateFrame(c, renderPass, commandBuffer).1, TimeOf) == [c.time as real / 60.0]
  {
    var pass := if renderPass.None? then c.renderPass else renderPass;
    var external := if commandBuffer != 0 then [SetExternalCommandBuffer(commandBuffer)] else [];
    var frame := FrameCalls(pass, c.time as real / 60.0);
    assert UpdateFrame(c, renderPass, commandBuffer).1 == external + frame;
    PickAppend(external, frame, PhaseOf);
    PickAppend(external, frame, TimeOf);
    FramePhases(pass, c.time as real / 60.0);
    if |external| > 0 {
      assert Pick(external[1..], PhaseOf) == [] && Pick(external[1..], TimeOf) == [];
    }
  }

  /** The calls that are not `UpdateFrame` make no SDK call that shapes a frame or sets the clock. */
  lemma OtherStepPicked(c: Context, call: ApiCall)
    requires !call.Update?
    ensures Pick(Step(c, call).sdk, PhaseOf) == [] && Pick(Step(c, call).sdk, TimeOf) == []
  {
    var sdk := Step(c, call).sdk;
    assert |sdk| <= 1 && forall k :: 0 <= k < |sdk| ==> sdk[k].ManagerPlay? || sdk[k].SetProjectionMatrix? || sdk[k].SetCameraMatrix?;
    if |sdk| == 1 {
      assert Pick(sdk[1..], PhaseOf) == [] && Pick(sdk[1..], TimeOf) == [];
    }
  }

  /** What one shim call contributes to the frame structure and to the clock. */
  lemma StepPicked(c: Context, call: ApiCall)
    ensures Pick(Step(c, call).sdk, PhaseOf) == if call.Update? then FRAME else []
    ensures Pick(Step(c, call).sdk, TimeOf) == if call.Update? then [c.time as real / 60.0] else []
  {
    if call.Update? {
      UpdateFramePicked(c, call.renderPass, call.commandBuffer);
    } else {
      OtherStepPicked(c, call);
    }
  }

  /** The renderer's clock over a session: the frames set it to their frame numbers over 60, in order. */
  function Clock(start: int, frames: nat): (r: seq<real>)
    ensures |r| == frames
  {
    seq(frames, k requires 0 <= k < frames => (start + k) as real / 60.0)
  }

  lemma ClockSnoc(start: int, frames: nat)
    ensures Clock(start, frames + 1) == Clock(start, frames) + [(start + frames) as real / 60.0]
  {
  }

  /** The SDK calls of a session are those of the calls before the last, then the last call's. */
  lemma RunSnoc(start: Context, calls: seq<ApiCall>)
    requires |calls| > 0
    ensures var prev := Run(start, calls[..|calls| - 1]);
            Run(start, calls).sdk == prev.sdk + Step(prev.ctx, calls[|calls| - 1]).sdk
  {
  }

  /**
   * Over a whole session the SDK sees one complete frame per
   * `UpdateFrame` and nothing of a frame outside one: the manager is only
   * updated and drawn inside a render pass, and drawing happens only
   * between the renderer's begin and end.
   */
  lemma {:induction false} SessionFrames(start: Context, calls: seq<ApiCall>)
    ensures Pick(Run(start, calls).sdk, PhaseOf) == Repeat(FRAME, Updates(calls))
    decreases |calls|
  {
    if |calls| > 0 {
      var p := calls[..|calls| - 1];
      var last := calls[|calls| - 1];
      var prev := Run(start, p);
      SessionFrames(start, p);
      RunSnoc(start, calls);
      StepPicked(prev.ctx, last);
      FramesAppend(prev.sdk, Step(prev.ctx, last).sdk, Updates(p), last.Update?);
      assert Updates(calls) == Updates(p) + if last.Update? then 1 else 0;
    }
  }

  lemma FramesAppend(log: seq<SdkCall>, more: seq<SdkCall>, n: nat, frame: bool)
    requires Pick(log, PhaseOf) == Repeat(FRAME, n)
    requires Pick(more, PhaseOf) == if frame then FRAME else []
    ensures Pick(log + more, PhaseOf) == Repeat(FRAME, n + if frame then 1 else 0)
  {
    PickAppend(log, more, PhaseOf);
  }

  /**
   * The renderer's clock over a session is set once per frame, to the
   * frame number before that frame's increment, over 60.
   */
  lemma {:induction false} SessionClock(start: Context, calls: seq<ApiCall>)
    ensures Pick(Run(start, calls).sdk, TimeOf) == Clock(start.time, Updates(calls))
    decreases |calls|
  {
    if |calls| > 0 {
      var p := calls[..|calls| - 1];
      var last := calls[|calls| - 1];
      var prev := Run(start, p);
      SessionClock(start, p);
      RunCounters(start, p);
      RunSnoc(start, calls);
      StepPicked(prev.ctx, last);
      ClockAppend(prev.sdk, Step(prev.ctx, last).sdk, start.time, Updates(p), last.Update?);
      assert Updates(calls) == Updates(p) + if last.Update? then 1 else 0;
    }
  }

  lemma ClockAppend(log: seq<SdkCall>, more: seq<SdkCall>, start: int, n: nat, frame: bool)
    requires Pick(log, TimeOf) == Clock(start, n)
    requires Pick(more, TimeOf) == if frame then [(start + n) as real / 60.0] else []
    ensures Pick(log + more, TimeOf) == Clock(start, n + if frame then 1 else 0)
  {
    PickAppend(log, more, TimeOf);
    ClockSnoc(start, n);
  }

  /**
   * A frame drawn with a null render pass uses the one the external-Vulkan
   * start-up stored, however many calls came before it.
   */
  lemma NullPassUsesStored(renderPass: nat, calls: seq<ApiCall>, commandBuffer: nat)
    ensures var sdk := Step(Run(StartupWithExternalVulkan(renderPass), calls).ctx, Update(None, commandBuffer)).sdk;
            BeginRenderPass(Some(renderPass)) in sdk
            && forall k :: 0 <= k < |sdk| && sdk[k].BeginRenderPass? ==> sdk[k].pass == Some(renderPass)
  {
    RunCounters(StartupWithExternalVulkan(renderPass), calls);
    UpdateFrameCalls(Run(StartupWithExternalVulkan(renderPass), calls).ctx, None, commandBuffer);
  }
}
