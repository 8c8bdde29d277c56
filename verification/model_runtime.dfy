/**
 * The per-model runtime built when a model's renderer exists: one runtime
 * node per source node, the table of named nodes, the skin buffer when
 * the model has a skin, the joint-matrix write offsets, and the handling
 * of queued animation commands.
 *
 * Entity spawning is not modelled; node names are their hashes
 * (`None` for an unnamed node).
 */
module ModelRuntime {
  import opened Wrappers
  import RenderContext
  import AnimationSystem

  const MAX_JOINTS_PER_MESH: nat := AnimationSystem.MAX_JOINTS_PER_MESH
  const MAT4_SIZE: nat := AnimationSystem.MAT4_SIZE
  /** The bytes of one skin's joint block before alignment. */
  const SKIN_JOINTS_UBO_SIZE: nat := MAX_JOINTS_PER_MESH * MAT4_SIZE

  datatype ModelSkins = ModelSkins(skinCount: nat, elementSize: nat, bufferSize: nat, valid: bool)

  /** `create_model_skins`: one aligned block per skin; the skins start valid. */
  function CreateModelSkins(skinCount: nat, minAlignment: nat): (s: ModelSkins)
    ensures s.valid && s.skinCount == skinCount
    ensures s.elementSize == RenderContext.UboAlignment(minAlignment, SKIN_JOINTS_UBO_SIZE)
    ensures s.bufferSize == s.elementSize * skinCount
  {
    var elem := RenderContext.UboAlignment(minAlignment, SKIN_JOINTS_UBO_SIZE);
    ModelSkins(skinCount, elem, elem * skinCount, true)
  }

  /** `ModelSkins::destroy`: asserts validity, then clears it; `None` is the assertion panic. */
  function DestroySkins(s: ModelSkins): (r: Option<ModelSkins>)
    ensures r.None? <==> !s.valid
    ensures r.Some? ==> !r.value.valid && r.value == s.(valid := false)
  {
    if !s.valid then None else Some(s.(valid := false))
  }

  /** Destroying twice panics. */
  lemma DestroyTwicePanics(s: ModelSkins)
    requires DestroySkins(s).Some?
    ensures DestroySkins(DestroySkins(s).value).None?
  {
  }

  /** The named-node table: node names in node order, a later index replacing an earlier one. */
  function NamedNodes(names: seq<Option<nat>>): (m: map<nat, nat>)
    ensures forall k :: k in m ==> m[k] < |names| && names[m[k]] == Some(k)
    ensures forall i :: 0 <= i < |names| && names[i].Some? ==> names[i].value in m
  {
    if |names| == 0 then map[]
    else
      var init := NamedNodes(names[..|names| - 1]);
      var last := |names| - 1;
      assert forall i :: 0 <= i < last ==> names[..last][i] == names[i];
      if names[last].Some? then init[names[last].value := last] else init
  }

  /** Each name maps to the last node carrying it. */
  lemma {:induction false} NamedNodesLastWins(names: seq<Option<nat>>, i: nat)
    requires i < |names| && names[i].Some?
    requires forall j :: i < j < |names| ==> names[j] != names[i]
    ensures NamedNodes(names)[names[i].value] == i
  {
    if i < |names| - 1 {
      NamedNodesLastWins(names[..|names| - 1], i);
    }
  }

  datatype Runtime = Runtime(nodeCount: nat, namedNodes: map<nat, nat>, skins: Option<ModelSkins>, hasAnimations: bool)

  /**
   * `init_model_runtime_system` for one model: more than one skin panics
   * (`None`); otherwise one runtime node per source node, the named-node
   * table, skins only when the model has one, and the animations when it
   * has them.
   */
  function Init(names: seq<Option<nat>>, skinCount: nat, hasAnimations: bool, minAlignment: nat): (r: Option<Runtime>)
    ensures r.None? <==> skinCount > 1
    ensures r.Some? ==> r.value.nodeCount == |names| && r.value.namedNodes == NamedNodes(names)
                        && (r.value.skins.Some? <==> skinCount == 1)
                        && (r.value.skins.Some? ==> r.value.skins.value == CreateModelSkins(1, minAlignment))
                        && r.value.hasAnimations == hasAnimations
  {
    if skinCount > 1 then None
    else
      var skins := if skinCount > 0 then Some(CreateModelSkins(skinCount, minAlignment)) else None;
      Some(Runtime(|names|, NamedNodes(names), skins, hasAnimations))
  }

  /**
   * `update_skin_joint_matrix`'s write offset into the mapped skin buffer,
   * as written: nothing bounds the joint index, although a skin with more
   * than 512 joints is only warned about when it is read.
   */
  function JointOffset(skinIdx: nat, jointIdx: nat, elementSize: nat): nat
  {
    skinIdx * elementSize + jointIdx * MAT4_SIZE
  }

  /**
   * As written, the single skin's joint `elementSize / 64` (joint 512 when
   * the alignment divides 32 KiB) is written at or past the end of the
   * skin buffer.
   */
  lemma JointWriteOverrunsAsWritten(minAlignment: nat)
    requires minAlignment > 0
    ensures var s := CreateModelSkins(1, minAlignment);
            var j := s.elementSize / MAT4_SIZE;
            j >= MAX_JOINTS_PER_MESH && JointOffset(0, j, s.elementSize) + MAT4_SIZE > s.bufferSize
    ensures CreateModelSkins(1, 256).elementSize / MAT4_SIZE == 512
  {
    var e := CreateModelSkins(1, 256).elementSize;
    assert e % 256 == 0 && 32768 <= e < 33024;
    assert e == 32768;
  }

  /**
   * The write offset with the bound the joint block evidently intends: a
   * joint beyond the 512 slots of its skin's block is not written.
   */
  function CheckedJointOffset(skinIdx: nat, jointIdx: nat, elementSize: nat): (r: Option<nat>)
    ensures r.None? <==> jointIdx >= MAX_JOINTS_PER_MESH
    ensures r.Some? ==> r.value == JointOffset(skinIdx, jointIdx, elementSize)
  {
    if jointIdx >= MAX_JOINTS_PER_MESH then None else Some(JointOffset(skinIdx, jointIdx, elementSize))
  }

  /**
   * With the bound, for a skin index below the skin count every matrix
   * written lies wholly inside the skin buffer, within that skin's block.
   * The device's minimum alignment is positive.
   */
  lemma JointWriteInBounds(skinCount: nat, minAlignment: nat, skinIdx: nat, jointIdx: nat)
    requires minAlignment > 0 && skinIdx < skinCount
    ensures var s := CreateModelSkins(skinCount, minAlignment);
            var w := CheckedJointOffset(skinIdx, jointIdx, s.elementSize);
            w.Some? ==>
              skinIdx * s.elementSize <= w.value
              && w.value + MAT4_SIZE <= (skinIdx + 1) * s.elementSize
              && (skinIdx + 1) * s.elementSize <= s.bufferSize
  {
    var s := CreateModelSkins(skinCount, minAlignment);
    var e := s.elementSize;
    if jointIdx < MAX_JOINTS_PER_MESH {
      assert e >= SKIN_JOINTS_UBO_SIZE;
      assert jointIdx * MAT4_SIZE + MAT4_SIZE <= SKIN_JOINTS_UBO_SIZE;
      assert (skinIdx + 1) * e == skinIdx * e + e;
      assert (skinIdx + 1) * e <= skinCount * e by {
        MulMono(skinIdx + 1, skinCount, e);
      }
    }
  }

  lemma MulMono(a: nat, b: nat, e: nat)
    requires a <= b
    ensures a * e <= b * e
  {
    assert b * e == a * e + (b - a) * e;
  }

  /** `update_model_runtime_animation`: apply the queued commands in order, then clear the queue. */
  function RuntimeAnimationStep(p: AnimationSystem.Player, queue: seq<AnimationSystem.AnimCommand>)
    : (r: (AnimationSystem.Player, seq<AnimationSystem.AnimCommand>))
    ensures r.1 == []
    ensures |queue| > 0 && queue[|queue| - 1].Play? ==> r.0 == AnimationSystem.Player(queue[|queue| - 1].index, true)
    ensures |queue| > 0 && queue[|queue| - 1].Stop? ==> !r.0.playing
    ensures |queue| == 0 ==> r.0 == p
  {
    var after := AnimationSystem.ApplyCommands(p, queue);
    if |queue| > 0 then
      AnimationSystem.LastCommandDecides(p, queue);
      (after, [])
    else
      (after, [])
  }

  /** The runtime system and the animation system apply a queue the same way. */
  lemma RuntimeAgreesWithAnimationSystem(p: AnimationSystem.Player, queue: seq<AnimationSystem.AnimCommand>, changed: bool)
    ensures AnimationSystem.UpdateAnimationNodes(Some(p), queue, changed).player == Some(RuntimeAnimationStep(p, queue).0)
    ensures AnimationSystem.UpdateAnimationNodes(Some(p), queue, changed).queue == RuntimeAnimationStep(p, queue).1
  {
  }
}
