/**
 * The animation command queue and the per-frame animation update: queued
 * Play/Stop commands are applied in order and the queue is cleared, and a
 * skin's joint matrices are laid out in fixed-size slots for upload.
 *
 * The animation player itself is not part of this model: it is reduced to
 * the clip it will play and whether it is playing, and whether its update
 * reported a change is a parameter.
 */
module AnimationSystem {
  import opened Wrappers
  import RenderContext

  const MAX_JOINTS_PER_MESH: nat := 512
  const MAT4_SIZE: nat := 64

  datatype AnimCommand = Play(index: nat) | Stop

  /** `AnimCommands::create`: an empty queue. */
  function CreateQueue(): (q: seq<AnimCommand>)
    ensures |q| == 0
  {
    []
  }

  /** `create_with_commands`: the queue in the given order. */
  function CreateWithCommands(commands: seq<AnimCommand>): (q: seq<AnimCommand>)
    ensures |q| == |commands| && forall i :: 0 <= i < |q| ==> q[i] == commands[i]
  {
    commands
  }

  /** `push` appends at the end; the returned queue is the same one, so pushes chain. */
  function Push(q: seq<AnimCommand>, c: AnimCommand): (r: seq<AnimCommand>)
    ensures |r| == |q| + 1 && r[|q|] == c && r[..|q|] == q
  {
    q + [c]
  }

  /** Pushing one command after another leaves them in push order. */
  lemma PushChain(a: AnimCommand, b: AnimCommand)
    ensures Push(Push(CreateQueue(), a), b) == CreateWithCommands([a, b])
  {
  }

  datatype Player = Player(current: nat, playing: bool)

  /** One command: Play selects the clip, then plays; Stop stops. */
  function ApplyCommand(p: Player, c: AnimCommand): Player
  {
    match c
    case Play(index) => Player(index, true)
    case Stop => Player(p.current, false)
  }

  /** The commands in queue order. */
  function ApplyCommands(p: Player, cmds: seq<AnimCommand>): Player
    decreases |cmds|
  {
    if |cmds| == 0 then p else ApplyCommands(ApplyCommand(p, cmds[0]), cmds[1..])
  }

  /** The clip of the last Play in `cmds`, or `start` when there is none. */
  function LastClip(start: nat, cmds: seq<AnimCommand>): nat
    decreases |cmds|
  {
    if |cmds| == 0 then start
    else if cmds[|cmds| - 1].Play? then cmds[|cmds| - 1].index
    else LastClip(start, cmds[..|cmds| - 1])
  }

  /** Applying a queue with one more command applies that command last. */
  lemma {:induction false} ApplyCommandsSnoc(p: Player, cmds: seq<AnimCommand>, c: AnimCommand)
    ensures ApplyCommands(p, cmds + [c]) == ApplyCommand(ApplyCommands(p, cmds), c)
    decreases |cmds|
  {
    if |cmds| == 0 {
      assert cmds + [c] == [c];
      assert [c][1..] == [];
    } else {
      assert (cmds + [c])[1..] == cmds[1..] + [c];
      ApplyCommandsSnoc(ApplyCommand(p, cmds[0]), cmds[1..], c);
    }
  }

  /** A queue leaves the player on the clip of its last Play, or on the one it had. */
  lemma {:induction false} ClipIsLastPlayed(p: Player, cmds: seq<AnimCommand>)
    ensures ApplyCommands(p, cmds).current == LastClip(p.current, cmds)
    decreases |cmds|
  {
    if |cmds| > 0 {
      var init := cmds[..|cmds| - 1];
      assert cmds == init + [cmds[|cmds| - 1]];
      ApplyCommandsSnoc(p, init, cmds[|cmds| - 1]);
      ClipIsLastPlayed(p, init);
    }
  }

  /**
   * The effect of a queue is decided by its last command: after a Play,
   * that clip plays; after a Stop, the player is stopped on the clip the
   * last earlier Play chose (or the one it had).
   */
  lemma {:induction false} LastCommandDecides(p: Player, cmds: seq<AnimCommand>)
    requires |cmds| > 0
    ensures cmds[|cmds| - 1].Play? ==> ApplyCommands(p, cmds) == Player(cmds[|cmds| - 1].index, true)
    ensures cmds[|cmds| - 1].Stop? ==>
              ApplyCommands(p, cmds) == Player(LastClip(p.current, cmds[..|cmds| - 1]), false)
  {
    var init := cmds[..|cmds| - 1];
    assert cmds == init + [cmds[|cmds| - 1]];
    ApplyCommandsSnoc(p, init, cmds[|cmds| - 1]);
    ClipIsLastPlayed(p, init);
  }

  datatype UpdateResult = UpdateResult(changed: bool, player: Option<Player>, queue: seq<AnimCommand>, recomputed: bool)

  /**
   * `update_animation_nodes`: without animation data it reports no change
   * and leaves the queue alone; with data it applies and clears the queue,
   * then reports the player's own change flag and recomputes node and skin
   * transforms exactly when that flag is set.
   */
  function UpdateAnimationNodes(data: Option<Player>, queue: seq<AnimCommand>, playerChanged: bool): (r: UpdateResult)
    ensures data.None? ==> !r.changed && r.queue == queue && r.player == None && !r.recomputed
    ensures data.Some? ==> r.queue == [] && r.player == Some(ApplyCommands(data.value, queue))
    ensures r.changed <==> data.Some? && playerChanged
    ensures r.recomputed <==> r.changed
  {
    match data
    case None => UpdateResult(false, None, queue, false)
    case Some(p) => UpdateResult(playerChanged, Some(ApplyCommands(p, queue)), [], playerChanged)
  }

  /** `AnimationWithNodes::create`: at least one skin, else it panics; one aligned slot block per skin. */
  function SkinBufferSize(skinCount: nat, minAlignment: nat): (r: Option<nat>)
    ensures r.None? <==> skinCount == 0
    ensures r.Some? ==> r.value == RenderContext.UboAlignment(minAlignment, MAX_JOINTS_PER_MESH * MAT4_SIZE) * skinCount
  {
    if skinCount == 0 then None
    else Some(RenderContext.UboAlignment(minAlignment, MAX_JOINTS_PER_MESH * MAT4_SIZE) * skinCount)
  }

  /**
   * `update_buffer`'s slots for one skin: 512 matrices, the first ones the
   * joints' matrices in joint order, the rest identity.  A skin with more
   * joints than slots panics on the index.
   */
  function SkinSlots<M>(joints: seq<M>, identity: M): (r: Option<seq<M>>)
    ensures r.None? <==> |joints| > MAX_JOINTS_PER_MESH
    ensures r.Some? ==> |r.value| == MAX_JOINTS_PER_MESH
                        && (forall j :: 0 <= j < |joints| ==> r.value[j] == joints[j])
                        && (forall j :: |joints| <= j < MAX_JOINTS_PER_MESH ==> r.value[j] == identity)
  {
    if |joints| > MAX_JOINTS_PER_MESH then None
    else Some(joints + seq(MAX_JOINTS_PER_MESH - |joints|, _ => identity))
  }
}
