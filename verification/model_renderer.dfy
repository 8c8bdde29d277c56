/**
 * The model renderer: one primitive render per primitive of every
 * mesh-bearing node, created in node order, and the draw walk that pairs
 * each drawn primitive with a render through a running counter.
 *
 * The walk as written advances the counter only for nodes it draws; a
 * node whose transform lookup fails is skipped without advancing it, so
 * the following primitives use renders created for other primitives.
 * `draw` and `draw_shadow` share this walk.  `WalkAsWritten` models that
 * code and `Walk` the corrected walk, which advances the counter past a
 * skipped node's primitives.
 */
module ModelRenderer {
  import opened Wrappers
  import Material

  /** What a primitive render needs of its primitive: the material and the vertex layout's shader defines. */
  datatype PrimitiveInfo = PrimitiveInfo(material: Material.MaterialData, defines: seq<string>)

  /** The model as the renderer sees it: node mesh indices, meshes, and whether animations are present. */
  datatype ModelInfo = ModelInfo(nodeMeshes: seq<Option<nat>>, meshes: seq<seq<PrimitiveInfo>>, animations: Option<nat>)

  /** Every node's mesh index names a mesh. */
  predicate ValidModel(m: ModelInfo)
  {
    forall i :: 0 <= i < |m.nodeMeshes| && m.nodeMeshes[i].Some? ==> m.nodeMeshes[i].value < |m.meshes|
  }

  /** `has_animation`. */
  predicate HasAnimation(m: ModelInfo)
  {
    m.animations.Some?
  }

  /** `size_of::<ModelData>()`: one 4x4 `f32` matrix. */
  const MODEL_DATA_SIZE: nat := 64
  /** `size_of::<PrimitiveFragConstant>()`: one `Vec4`. */
  const FRAG_CONSTANT_SIZE: nat := 16

  datatype ShaderStage = VertexStage | FragmentStage
  datatype PushRange = PushRange(stage: ShaderStage, offset: nat, size: nat)

  datatype SetLayout = FrameUniformLayout | MaterialLayout | SkinLayout

  datatype PrimitiveRender = PrimitiveRender(tilling: Material.Vec4, defines: seq<string>,
                                             setLayouts: seq<SetLayout>, shadowSetLayouts: seq<SetLayout>,
                                             ranges: seq<PushRange>)

  /** A (node, primitive) pair in the order renders are created. */
  datatype Slot = Slot(node: nat, primitive: nat)

  /** Number of primitives node `i` draws: its mesh's primitive count, or 0 without a mesh. */
  function NodePrimitives(m: ModelInfo, i: nat): nat
    requires ValidModel(m) && i < |m.nodeMeshes|
  {
    if m.nodeMeshes[i].Some? then |m.meshes[m.nodeMeshes[i].value]| else 0
  }

  /** The slots of nodes `i..`, node by node and primitive by primitive. */
  function Slots(m: ModelInfo, i: nat): (r: seq<Slot>)
    requires ValidModel(m) && i <= |m.nodeMeshes|
    ensures forall k :: 0 <= k < |r| ==> i <= r[k].node < |m.nodeMeshes| && r[k].primitive < NodePrimitives(m, r[k].node)
    decreases |m.nodeMeshes| - i
  {
    if i == |m.nodeMeshes| then []
    else
      var n := NodePrimitives(m, i);
      seq(n, p requires 0 <= p < n => Slot(i, p)) + Slots(m, i + 1)
  }

  /** The primitive a slot stands for. */
  function PrimitiveOf(m: ModelInfo, s: Slot): PrimitiveInfo
    requires ValidModel(m) && s.node < |m.nodeMeshes| && s.primitive < NodePrimitives(m, s.node)
  {
    m.meshes[m.nodeMeshes[s.node].value][s.primitive]
  }

  /** The fragment constant's tilling: the color texture's tilling, or the default. */
  function FragTilling(mat: Material.MaterialData): (r: Material.Vec4)
    ensures mat.colorTexture.None? ==> r == Material.DEFAULT_TILLING
  {
    if mat.colorTexture.Some? then mat.colorTexture.value.tilling else Material.DEFAULT_TILLING
  }

  /** A material converted from glTF tiles its color texture by that texture's own transform. */
  lemma FragTillingFollowsGltf(g: Material.GltfMaterial)
    ensures var info := if g.specGloss.Some? then g.specGloss.value.diffuseTexture else g.metalRough.baseColorTexture;
            FragTilling(Material.FromGltf(g)) ==
              (if info.Some? then Material.TillingOf(info.value.transform) else Material.DEFAULT_TILLING)
  {
  }

  /** `PrimitiveRender::create`. */
  function CreatePrimitiveRender(m: ModelInfo, p: PrimitiveInfo): (r: PrimitiveRender)
    ensures r.tilling == FragTilling(p.material)
    ensures r.defines == p.defines + (if HasAnimation(m) then ["SKIN"] else [])
    ensures |r.setLayouts| >= 2 && r.setLayouts[..2] == [FrameUniformLayout, MaterialLayout]
    ensures |r.shadowSetLayouts| >= 1 && r.shadowSetLayouts[0] == FrameUniformLayout
    ensures SkinLayout in r.setLayouts <==> HasAnimation(m)
    ensures SkinLayout in r.shadowSetLayouts <==> HasAnimation(m)
  {
    var skin := if HasAnimation(m) then [SkinLayout] else [];
    PrimitiveRender(FragTilling(p.material), p.defines + (if HasAnimation(m) then ["SKIN"] else []),
                    [FrameUniformLayout, MaterialLayout] + skin, [FrameUniformLayout] + skin,
                    [PushRange(VertexStage, 0, MODEL_DATA_SIZE), PushRange(FragmentStage, MODEL_DATA_SIZE, FRAG_CONSTANT_SIZE)])
  }

  /** `ModelRenderer::create`'s loop over nodes `i..`. */
  function CreateFrom(m: ModelInfo, i: nat): (r: seq<PrimitiveRender>)
    requires ValidModel(m) && i <= |m.nodeMeshes|
    decreases |m.nodeMeshes| - i
  {
    if i == |m.nodeMeshes| then []
    else
      var n := NodePrimitives(m, i);
      seq(n, p requires 0 <= p < n => CreatePrimitiveRender(m, PrimitiveOf(m, Slot(i, p)))) + CreateFrom(m, i + 1)
  }

  /** One render per mesh-bearing node's primitive, in node order then primitive order. */
  lemma {:induction false} CreateFollowsSlots(m: ModelInfo, i: nat)
    requires ValidModel(m) && i <= |m.nodeMeshes|
    ensures |CreateFrom(m, i)| == |Slots(m, i)|
    ensures forall k :: 0 <= k < |Slots(m, i)| ==>
              CreateFrom(m, i)[k] == CreatePrimitiveRender(m, PrimitiveOf(m, Slots(m, i)[k]))
    decreases |m.nodeMeshes| - i
  {
    if i < |m.nodeMeshes| {
      CreateFollowsSlots(m, i + 1);
    }
  }

  /** The renders of a model, one per slot. */
  function Create(m: ModelInfo): (r: seq<PrimitiveRender>)
    requires ValidModel(m)
    ensures |r| == |Slots(m, 0)|
    ensures forall k :: 0 <= k < |r| ==> r[k] == CreatePrimitiveRender(m, PrimitiveOf(m, Slots(m, 0)[k]))
  {
    CreateFollowsSlots(m, 0);
    CreateFrom(m, 0)
  }

  /** A draw: which render is used for which node's primitive. */
  datatype DrawCall = DrawCall(render: nat, node: nat, primitive: nat)

  function NodeDraws(i: nat, n: nat, counter: nat): (r: seq<DrawCall>)
    ensures |r| == n && forall p :: 0 <= p < n ==> r[p] == DrawCall(counter + p, i, p)
  {
    seq(n, p requires 0 <= p < n => DrawCall(counter + p, i, p))
  }

  /**
   * The draw walk of `draw`/`draw_shadow` as written, from node `i` with
   * the counter at `counter`: a node whose transform lookup failed
   * (`found[i]` false) is skipped and the counter stays put.
   */
  function WalkAsWritten(m: ModelInfo, found: seq<bool>, i: nat, counter: nat): seq<DrawCall>
    requires ValidModel(m) && |found| == |m.nodeMeshes| && i <= |m.nodeMeshes|
    decreases |m.nodeMeshes| - i
  {
    if i == |m.nodeMeshes| then []
    else if m.nodeMeshes[i].Some? && !found[i] then WalkAsWritten(m, found, i + 1, counter)
    else
      var n := NodePrimitives(m, i);
      NodeDraws(i, n, counter) + WalkAsWritten(m, found, i + 1, counter + n)
  }

  /** The corrected walk: a skipped node still moves the counter past its primitives. */
  function Walk(m: ModelInfo, found: seq<bool>, i: nat, counter: nat): seq<DrawCall>
    requires ValidModel(m) && |found| == |m.nodeMeshes| && i <= |m.nodeMeshes|
    decreases |m.nodeMeshes| - i
  {
    if i == |m.nodeMeshes| then []
    else
      var n := NodePrimitives(m, i);
      (if m.nodeMeshes[i].Some? && !found[i] then [] else NodeDraws(i, n, counter))
      + Walk(m, found, i + 1, counter + n)
  }

  /** `render` is the render created for the draw's own primitive. */
  predicate Matches(m: ModelInfo, i: nat, counter: nat, d: DrawCall)
    requires ValidModel(m) && i <= |m.nodeMeshes|
  {
    counter <= d.render < counter + |Slots(m, i)| && Slots(m, i)[d.render - counter] == Slot(d.node, d.primitive)
  }

  lemma SlotsUnfold(m: ModelInfo, i: nat)
    requires ValidModel(m) && i < |m.nodeMeshes|
    ensures var n := NodePrimitives(m, i);
            |Slots(m, i)| == n + |Slots(m, i + 1)|
            && (forall p :: 0 <= p < n ==> Slots(m, i)[p] == Slot(i, p))
            && (forall k :: n <= k < |Slots(m, i)| ==> Slots(m, i)[k] == Slots(m, i + 1)[k - n])
  {
  }

  /** Every draw of the corrected walk uses the render created for its own (node, primitive). */
  lemma {:induction false} WalkMatchesSlots(m: ModelInfo, found: seq<bool>, i: nat, counter: nat)
    requires ValidModel(m) && |found| == |m.nodeMeshes| && i <= |m.nodeMeshes|
    ensures forall d :: d in Walk(m, found, i, counter) ==> Matches(m, i, counter, d)
    decreases |m.nodeMeshes| - i
  {
    if i < |m.nodeMeshes| {
      var n := NodePrimitives(m, i);
      var here := if m.nodeMeshes[i].Some? && !found[i] then [] else NodeDraws(i, n, counter);
      var rest := Walk(m, found, i + 1, counter + n);
      assert Walk(m, found, i, counter) == here + rest;
      SlotsUnfold(m, i);
      WalkMatchesSlots(m, found, i + 1, counter + n);
      forall d | d in here + rest ensures Matches(m, i, counter, d) {
        if d in here {
          var p :| 0 <= p < |here| && here[p] == d;
          assert d == DrawCall(counter + p, i, p);
        } else {
          assert d in rest;
          assert Matches(m, i + 1, counter + n, d);
        }
      }
    }
  }

  /** The corrected walk draws exactly the primitives of the nodes whose transform was found. */
  lemma {:induction false} WalkDrawsFoundNodes(m: ModelInfo, found: seq<bool>, i: nat, counter: nat)
    requires ValidModel(m) && |found| == |m.nodeMeshes| && i <= |m.nodeMeshes|
    ensures forall d :: d in Walk(m, found, i, counter) ==>
              i <= d.node < |m.nodeMeshes| && (m.nodeMeshes[d.node].None? || found[d.node])
    ensures |Walk(m, found, i, counter)| <= |Slots(m, i)|
    decreases |m.nodeMeshes| - i
  {
    if i < |m.nodeMeshes| {
      var n := NodePrimitives(m, i);
      var here := if m.nodeMeshes[i].Some? && !found[i] then [] else NodeDraws(i, n, counter);
      var rest := Walk(m, found, i + 1, counter + n);
      assert Walk(m, found, i, counter) == here + rest;
      SlotsUnfold(m, i);
      WalkDrawsFoundNodes(m, found, i + 1, counter + n);
    }
  }

  /** When every transform is found, the walk as written and the corrected walk agree. */
  lemma {:induction false} WalkAgreesWhenAllFound(m: ModelInfo, found: seq<bool>, i: nat, counter: nat)
    requires ValidModel(m) && |found| == |m.nodeMeshes| && i <= |m.nodeMeshes|
    requires forall j :: i <= j < |found| ==> found[j]
    ensures WalkAsWritten(m, found, i, counter) == Walk(m, found, i, counter)
    decreases |m.nodeMeshes| - i
  {
    if i < |m.nodeMeshes| {
      WalkAgreesWhenAllFound(m, found, i + 1, counter + NodePrimitives(m, i));
    }
  }

  /**
   * The walk as written mismatches renders: node A (mesh 0) has no
   * transform, node B (mesh 1) is then drawn with render 0, which was
   * created for A's primitive.
   */
  lemma AsWrittenSkipUsesWrongRender(pa: PrimitiveInfo, pb: PrimitiveInfo)
    ensures var m := ModelInfo([Some(0), Some(1)], [[pa], [pb]], None);
            ValidModel(m)
            && WalkAsWritten(m, [false, true], 0, 0) == [DrawCall(0, 1, 0)]
            && Slots(m, 0)[0] == Slot(0, 0)
            && !Matches(m, 0, 0, WalkAsWritten(m, [false, true], 0, 0)[0])
            && Walk(m, [false, true], 0, 0) == [DrawCall(1, 1, 0)]
  {
    var m := ModelInfo([Some(0), Some(1)], [[pa], [pb]], None);
    assert NodePrimitives(m, 0) == 1 && NodePrimitives(m, 1) == 1;
    assert Slots(m, 2) == [];
    assert Slots(m, 1) == [Slot(1, 0)];
    assert Slots(m, 0) == [Slot(0, 0), Slot(1, 0)];
    assert WalkAsWritten(m, [false, true], 2, 1) == [];
    assert WalkAsWritten(m, [false, true], 1, 0) == [DrawCall(0, 1, 0)];
    assert Walk(m, [false, true], 2, 2) == [];
    assert Walk(m, [false, true], 1, 1) == [DrawCall(1, 1, 0)];
  }

  /** The descriptor sets bound for a draw: frame uniform, material, then the skin set when skins are supplied. */
  function DrawSets(skins: Option<nat>): (r: seq<SetLayout>)
    ensures |r| == (if skins.Some? then 3 else 2) && r[..2] == [FrameUniformLayout, MaterialLayout]
  {
    [FrameUniformLayout, MaterialLayout] + (if skins.Some? then [SkinLayout] else [])
  }

  /** The shadow pass binds the frame uniform and, when supplied, the skin set. */
  function ShadowSets(skins: Option<nat>): (r: seq<SetLayout>)
    ensures |r| == (if skins.Some? then 2 else 1) && r[0] == FrameUniformLayout
  {
    [FrameUniformLayout] + (if skins.Some? then [SkinLayout] else [])
  }

  /**
   * The sets bound at draw time fit the render's pipeline layouts exactly
   * when skins are supplied for animated models only.
   */
  lemma BoundSetsFitLayouts(m: ModelInfo, p: PrimitiveInfo, skins: Option<nat>)
    ensures DrawSets(skins) == CreatePrimitiveRender(m, p).setLayouts <==> (skins.Some? <==> HasAnimation(m))
    ensures ShadowSets(skins) == CreatePrimitiveRender(m, p).shadowSetLayouts <==> (skins.Some? <==> HasAnimation(m))
  {
    var r := CreatePrimitiveRender(m, p);
    if skins.Some? != HasAnimation(m) {
      assert |DrawSets(skins)| != |r.setLayouts|;
      assert |ShadowSets(skins)| != |r.shadowSetLayouts|;
    }
  }

  /** A push-constant write of `draw`: stage, offset and byte count. */
  datatype Push = Push(stage: ShaderStage, offset: nat, size: nat)

  /** `draw` pushes the model matrix to the vertex stage at 0 and the fragment constant right after it. */
  const DRAW_PUSHES: seq<Push> := [Push(VertexStage, 0, MODEL_DATA_SIZE), Push(FragmentStage, MODEL_DATA_SIZE, FRAG_CONSTANT_SIZE)]

  /** The push lies inside a declared range of its own stage. */
  predicate Within(p: Push, ranges: seq<PushRange>)
  {
    exists k :: 0 <= k < |ranges| && ranges[k].stage == p.stage
      && ranges[k].offset <= p.offset && p.offset + p.size <= ranges[k].offset + ranges[k].size
  }

  /** Every push of `draw` falls inside the range its stage declares, and the two ranges do not overlap. */
  lemma PushesWithinRanges(m: ModelInfo, p: PrimitiveInfo)
    ensures var ranges := CreatePrimitiveRender(m, p).ranges;
            (forall k :: 0 <= k < |DRAW_PUSHES| ==> Within(DRAW_PUSHES[k], ranges))
            && ranges[0].offset + ranges[0].size <= ranges[1].offset
  {
    var ranges := CreatePrimitiveRender(m, p).ranges;
    assert Within(DRAW_PUSHES[0], ranges) by {
      assert ranges[0].stage == VertexStage;
    }
    assert Within(DRAW_PUSHES[1], ranges) by {
      assert ranges[1].stage == FragmentStage;
    }
  }
}
