/**
 * Image layout transitions and the mip chain of a sampled texture.
 *
 * Recorded commands are `Cmd` values; `Run` is their effect on the layout
 * of each mip level, which is how the model states that the barriers of a
 * command sequence fit together (each barrier finds the layout it names,
 * each blit reads a TRANSFER_SRC level and writes a TRANSFER_DST level).
 */
module Texture {
  import opened Wrappers
  import opened ProtoWire
  import Util
  import GpuBuffer

  datatype Layout =
    | Undefined | TransferDstOptimal | TransferSrcOptimal | ShaderReadOnlyOptimal
    | DepthStencilAttachmentOptimal | ColorAttachmentOptimal | PresentSrc | General

  datatype Access =
    | TransferWrite | TransferRead | ShaderRead
    | DepthStencilAttachmentRead | DepthStencilAttachmentWrite
    | ColorAttachmentRead | ColorAttachmentWrite

  datatype Stage = TopOfPipe | Transfer | FragmentShader | EarlyFragmentTests | ColorAttachmentOutput

  datatype Aspect = Color | Depth | Stencil

  /** Access masks and pipeline stages of a layout transition. */
  datatype Masks = Masks(srcAccess: set<Access>, dstAccess: set<Access>, srcStage: Stage, dstStage: Stage)

  /** The masks used for every pair the table does not name. */
  const DEFAULT_MASKS: Masks := Masks({}, {}, TopOfPipe, TopOfPipe)

  /** `cmd_transition_image_layout`'s match on (old, new). */
  function TransitionMasks(oldLayout: Layout, newLayout: Layout): Masks
  {
    match (oldLayout, newLayout)
    case (Undefined, TransferDstOptimal) => Masks({}, {TransferWrite}, TopOfPipe, Transfer)
    case (TransferDstOptimal, ShaderReadOnlyOptimal) => Masks({TransferWrite}, {ShaderRead}, Transfer, FragmentShader)
    case (Undefined, DepthStencilAttachmentOptimal) =>
      Masks({}, {DepthStencilAttachmentRead, DepthStencilAttachmentWrite}, TopOfPipe, EarlyFragmentTests)
    case (Undefined, ColorAttachmentOptimal) =>
      Masks({}, {ColorAttachmentRead, ColorAttachmentWrite}, TopOfPipe, ColorAttachmentOutput)
    case (ColorAttachmentOptimal, ShaderReadOnlyOptimal) =>
      Masks({ColorAttachmentWrite}, {ShaderRead}, ColorAttachmentOutput, FragmentShader)
    case (ColorAttachmentOptimal, TransferDstOptimal) =>
      Masks({ColorAttachmentWrite}, {TransferWrite}, ColorAttachmentOutput, Transfer)
    case _ => DEFAULT_MASKS
  }

  datatype Row = Row(oldLayout: Layout, newLayout: Layout, masks: Masks)

  /** The six supported transitions written as a table. */
  const TRANSITIONS: seq<Row> := [
    Row(Undefined, TransferDstOptimal, Masks({}, {TransferWrite}, TopOfPipe, Transfer)),
    Row(TransferDstOptimal, ShaderReadOnlyOptimal, Masks({TransferWrite}, {ShaderRead}, Transfer, FragmentShader)),
    Row(Undefined, DepthStencilAttachmentOptimal,
        Masks({}, {DepthStencilAttachmentRead, DepthStencilAttachmentWrite}, TopOfPipe, EarlyFragmentTests)),
    Row(Undefined, ColorAttachmentOptimal,
        Masks({}, {ColorAttachmentRead, ColorAttachmentWrite}, TopOfPipe, ColorAttachmentOutput)),
    Row(ColorAttachmentOptimal, ShaderReadOnlyOptimal,
        Masks({ColorAttachmentWrite}, {ShaderRead}, ColorAttachmentOutput, FragmentShader)),
    Row(ColorAttachmentOptimal, TransferDstOptimal,
        Masks({ColorAttachmentWrite}, {TransferWrite}, ColorAttachmentOutput, Transfer))
  ]

  /** Row `k` of the table names the pair (old, new). */
  predicate RowFor(k: nat, oldLayout: Layout, newLayout: Layout)
  {
    k < |TRANSITIONS| && TRANSITIONS[k].oldLayout == oldLayout && TRANSITIONS[k].newLayout == newLayout
  }

  /**
   * Each of the six listed pairs gets its row's masks and stages, and waits
   * on some destination access; every other pair gets empty masks and
   * TOP_OF_PIPE to TOP_OF_PIPE.
   */
  lemma TransitionFollowsTable(oldLayout: Layout, newLayout: Layout)
    ensures forall k: nat :: RowFor(k, oldLayout, newLayout) ==>
              TransitionMasks(oldLayout, newLayout) == TRANSITIONS[k].masks && TRANSITIONS[k].masks.dstAccess != {}
    ensures (forall k: nat :: !RowFor(k, oldLayout, newLayout)) ==> TransitionMasks(oldLayout, newLayout) == DEFAULT_MASKS
  {
    var t := TRANSITIONS;
    forall k: nat | RowFor(k, oldLayout, newLayout)
      ensures TransitionMasks(oldLayout, newLayout) == t[k].masks && t[k].masks.dstAccess != {}
    {
      assert k < 6;
    }
    if forall k: nat :: !RowFor(k, oldLayout, newLayout) {
      assert !RowFor(0, oldLayout, newLayout) && !RowFor(1, oldLayout, newLayout) && !RowFor(2, oldLayout, newLayout);
      assert !RowFor(3, oldLayout, newLayout) && !RowFor(4, oldLayout, newLayout) && !RowFor(5, oldLayout, newLayout);
    }
  }

  /** The aspect of the transition barrier. */
  function AspectMask(newLayout: Layout, format: Util.ImageFormat): (r: set<Aspect>)
    ensures Color in r <==> newLayout != DepthStencilAttachmentOptimal
    ensures Depth in r <==> newLayout == DepthStencilAttachmentOptimal
    ensures Stencil in r <==> newLayout == DepthStencilAttachmentOptimal && Util.HasStencilComponent(format)
  {
    if newLayout == DepthStencilAttachmentOptimal then
      if Util.HasStencilComponent(format) then {Depth, Stencil} else {Depth}
    else {Color}
  }

  /** `TextureHead`. */
  datatype Head = Head(width: nat, height: nat, depth: nat, arraySize: nat, mipCount: nat, format: Util.ImageFormat)

  /** `vk::ImageSubresourceRange`. */
  datatype Range = Range(aspect: set<Aspect>, baseMip: nat, levelCount: nat, baseLayer: nat, layerCount: nat)

  predicate Covers(r: Range, level: nat, layer: nat)
  {
    r.baseMip <= level < r.baseMip + r.levelCount && r.baseLayer <= layer < r.baseLayer + r.layerCount
  }

  datatype Cmd =
    | Barrier(masks: Masks, oldLayout: Layout, newLayout: Layout, range: Range)
    | Blit(srcLevel: nat, srcWidth: nat, srcHeight: nat, dstLevel: nat, dstWidth: nat, dstHeight: nat, layers: nat)
    | CopyBufferToImage(buffer: nat, level: nat, layers: nat, width: nat, height: nat)

  /** `cmd_transition_image_layout`: one barrier over every mip level and every array layer. */
  function Transition(head: Head, oldLayout: Layout, newLayout: Layout): (r: Cmd)
    ensures r.Barrier? && r.oldLayout == oldLayout && r.newLayout == newLayout
    ensures r.masks == TransitionMasks(oldLayout, newLayout) && r.range.aspect == AspectMask(newLayout, head.format)
    ensures forall level: nat, layer: nat :: level < head.mipCount && layer < head.arraySize ==> Covers(r.range, level, layer)
    ensures r.range.baseMip + r.range.levelCount == head.mipCount
  {
    Barrier(TransitionMasks(oldLayout, newLayout), oldLayout, newLayout,
            Range(AspectMask(newLayout, head.format), 0, head.mipCount, 0, head.arraySize))
  }

  /** `cmd_copy_buffer`: the whole buffer into mip 0 of every layer, extent w x h x 1. */
  function CopyBuffer(head: Head, buffer: nat, width: nat, height: nat): Cmd
  {
    CopyBufferToImage(buffer, 0, head.arraySize, width, height)
  }

  // ---------------------------------------------------------------------
  // Layout semantics of a command sequence

  /** The barrier finds every level it names in `oldLayout` (UNDEFINED accepts any) and moves it to `newLayout`. */
  function ApplyBarrier(layouts: seq<Layout>, oldLayout: Layout, newLayout: Layout, range: Range): Option<seq<Layout>>
  {
    var lo, hi := range.baseMip, range.baseMip + range.levelCount;
    if hi <= |layouts| && forall i :: lo <= i < hi ==> oldLayout == Undefined || layouts[i] == oldLayout then
      Some(seq(|layouts|, i requires 0 <= i < |layouts| => if lo <= i < hi then newLayout else layouts[i]))
    else None
  }

  function Apply(layouts: seq<Layout>, c: Cmd): Option<seq<Layout>>
  {
    match c
    case Barrier(_, o, n, range) => ApplyBarrier(layouts, o, n, range)
    case Blit(src, _, _, dst, _, _, _) =>
      if src < |layouts| && dst < |layouts| && layouts[src] == TransferSrcOptimal && layouts[dst] == TransferDstOptimal
      then Some(layouts) else None
    case CopyBufferToImage(_, level, _, _, _) =>
      if level < |layouts| && layouts[level] == TransferDstOptimal then Some(layouts) else None
  }

  /** The per-level layouts after the commands, or `None` if one of them finds a level in the wrong layout. */
  function Run(layouts: seq<Layout>, cmds: seq<Cmd>): Option<seq<Layout>>
  {
    if |cmds| == 0 then Some(layouts)
    else
      var prev := Run(layouts, cmds[..|cmds| - 1]);
      if prev.None? then None else Apply(prev.value, cmds[|cmds| - 1])
  }

  lemma RunSnoc(layouts: seq<Layout>, cmds: seq<Cmd>, c: Cmd)
    ensures Run(layouts, cmds + [c]) == (if Run(layouts, cmds).None? then None else Apply(Run(layouts, cmds).value, c))
  {
    assert (cmds + [c])[..|cmds|] == cmds;
  }

  /** A barrier on the single level `level` changes that level alone. */
  lemma BarrierOnLevel(layouts: seq<Layout>, level: nat, oldLayout: Layout, newLayout: Layout, masks: Masks, layers: nat)
    requires level < |layouts| && (oldLayout == Undefined || layouts[level] == oldLayout)
    ensures Apply(layouts, Barrier(masks, oldLayout, newLayout, Range({Color}, level, 1, 0, layers)))
            == Some(layouts[level := newLayout])
  {
    var r := ApplyBarrier(layouts, oldLayout, newLayout, Range({Color}, level, 1, 0, layers));
    assert r.Some?;
    assert r.value == layouts[level := newLayout];
  }

  /** A barrier over every level whose old layout matches leaves all levels in its new layout. */
  lemma BarrierAll(layouts: seq<Layout>, oldLayout: Layout, newLayout: Layout, range: Range)
    requires range.baseMip == 0 && range.levelCount == |layouts|
    requires oldLayout == Undefined || forall i :: 0 <= i < |layouts| ==> layouts[i] == oldLayout
    ensures ApplyBarrier(layouts, oldLayout, newLayout, range) == Some(Uniform(|layouts|, newLayout))
  {
    var r := ApplyBarrier(layouts, oldLayout, newLayout, range);
    assert r.Some?;
    assert r.value == Uniform(|layouts|, newLayout);
  }

  /** Levels below `k` are shader-readable, the rest still TRANSFER_DST. */
  function Partly(n: nat, k: nat): seq<Layout>
  {
    seq(n, i requires 0 <= i < n => if i < k then ShaderReadOnlyOptimal else TransferDstOptimal)
  }

  function Uniform(n: nat, l: Layout): seq<Layout>
  {
    seq(n, i requires 0 <= i < n => l)
  }

  // ---------------------------------------------------------------------
  // Mip chain

  /** One halving step on a side, never below 1. */
  function NextMip(w: nat): (r: nat)
  {
    if w > 1 then w / 2 else w
  }

  /** The side of level `k`. */
  function MipSize(w: nat, k: nat): nat
  {
    if k == 0 then w else NextMip(MipSize(w, k - 1))
  }

  lemma DivTwice(w: nat, a: nat)
    requires a > 0
    ensures (w / a) / 2 == w / (2 * a)
  {
    var q, r := w / a, w % a;
    var q2, r2 := q / 2, q % 2;
    assert w == a * q + r;
    assert q == 2 * q2 + r2;
    assert w == (2 * a) * q2 + (a * r2 + r) by {
      assert a * q == a * (2 * q2) + a * r2;
    }
    assert a * r2 + r < 2 * a by {
      assert r2 <= 1;
      assert a * r2 <= a;
    }
    Util.DivUnique(w, 2 * a, q2, a * r2 + r);
  }

  /**
   * The side of level `k` is `w / 2^k`, floored, but never less than 1;
   * so sides never grow and never reach 0.
   */
  lemma {:induction false} MipSizeClosedForm(w: nat, k: nat)
    requires w >= 1
    ensures MipSize(w, k) == (if w / Util.Pow2(k) == 0 then 1 else w / Util.Pow2(k))
    ensures 1 <= MipSize(w, k + 1) <= MipSize(w, k)
  {
    if k > 0 {
      MipSizeClosedForm(w, k - 1);
      DivTwice(w, Util.Pow2(k - 1));
    }
  }

  /** The barrier of the mip loop on a single level. */
  function LevelBarrier(head: Head, level: nat, masks: Masks, oldLayout: Layout, newLayout: Layout): Cmd
  {
    Barrier(masks, oldLayout, newLayout, Range({Color}, level, 1, 0, head.arraySize))
  }

  const TO_SOURCE: Masks := Masks({TransferWrite}, {TransferRead}, Transfer, Transfer)
  const SOURCE_TO_SHADER: Masks := Masks({TransferRead}, {ShaderRead}, Transfer, FragmentShader)
  const DEST_TO_SHADER: Masks := Masks({TransferWrite}, {ShaderRead}, Transfer, FragmentShader)

  /** The three commands of loop iteration `level`: level - 1 becomes a blit source, feeds `level`, then becomes shader-readable. */
  predicate LevelStep(cmds: seq<Cmd>, head: Head, width: nat, height: nat, level: nat)
    requires 1 <= level && 3 * level <= |cmds|
  {
    var b := 3 * (level - 1);
    cmds[b] == LevelBarrier(head, level - 1, TO_SOURCE, TransferDstOptimal, TransferSrcOptimal)
    && cmds[b + 1] == Blit(level - 1, MipSize(width, level - 1), MipSize(height, level - 1),
                           level, MipSize(width, level), MipSize(height, level), head.arraySize)
    && cmds[b + 2] == LevelBarrier(head, level - 1, SOURCE_TO_SHADER, TransferSrcOptimal, ShaderReadOnlyOptimal)
  }

  /**
   * `cmd_generate_mipmaps`: for each level 1..n-1 in order a barrier,
   * a blit from the previous level and a barrier to SHADER_READ on the
   * previous level; then the last level goes to SHADER_READ.  Starting
   * with every level in TRANSFER_DST, every command finds the layouts it
   * expects and every level ends shader-readable.
   */
  method GenerateMipmaps(head: Head, width: nat, height: nat, linearBlit: bool) returns (cmds: seq<Cmd>)
    requires linearBlit && head.mipCount >= 1
    ensures |cmds| == 3 * (head.mipCount - 1) + 1
    ensures forall level :: 1 <= level < head.mipCount ==> LevelStep(cmds, head, width, height, level)
    ensures cmds[|cmds| - 1] == LevelBarrier(head, head.mipCount - 1, DEST_TO_SHADER, TransferDstOptimal, ShaderReadOnlyOptimal)
    ensures Run(Uniform(head.mipCount, TransferDstOptimal), cmds) == Some(Uniform(head.mipCount, ShaderReadOnlyOptimal))
  {
    var n := head.mipCount;
    cmds := [];
    var mipWidth, mipHeight := width, height;
    assert Partly(n, 0) == Uniform(n, TransferDstOptimal);
    var level := 1;
    while level < n
      invariant 1 <= level <= n
      invariant |cmds| == 3 * (level - 1)
      invariant mipWidth == MipSize(width, level - 1) && mipHeight == MipSize(height, level - 1)
      invariant forall l :: 1 <= l < level ==> LevelStep(cmds, head, width, height, l)
      invariant Run(Uniform(n, TransferDstOptimal), cmds) == Some(Partly(n, level - 1))
    {
      var nextWidth := NextMip(mipWidth);
      var nextHeight := NextMip(mipHeight);
      var step := [LevelBarrier(head, level - 1, TO_SOURCE, TransferDstOptimal, TransferSrcOptimal),
                   Blit(level - 1, mipWidth, mipHeight, level, nextWidth, nextHeight, head.arraySize),
                   LevelBarrier(head, level - 1, SOURCE_TO_SHADER, TransferSrcOptimal, ShaderReadOnlyOptimal)];
      StepRuns(head, n, level, cmds, step);
      LevelStepsKept(cmds, step, head, width, height, level);
      cmds := cmds + step;
      mipWidth, mipHeight := nextWidth, nextHeight;
      level := level + 1;
    }
    var last := LevelBarrier(head, n - 1, DEST_TO_SHADER, TransferDstOptimal, ShaderReadOnlyOptimal);
    RunSnoc(Uniform(n, TransferDstOptimal), cmds, last);
    BarrierOnLevel(Partly(n, n - 1), n - 1, TransferDstOptimal, ShaderReadOnlyOptimal, DEST_TO_SHADER, head.arraySize);
    assert Partly(n, n - 1)[n - 1 := ShaderReadOnlyOptimal] == Uniform(n, ShaderReadOnlyOptimal);
    LevelStepsKept(cmds, [last], head, width, height, n);
    cmds := cmds + [last];
  }

  /** Appending commands keeps the loop iterations already recorded. */
  lemma LevelStepsKept(cmds: seq<Cmd>, extra: seq<Cmd>, head: Head, width: nat, height: nat, upto: nat)
    requires 1 <= upto && |cmds| == 3 * (upto - 1)
    requires forall l :: 1 <= l < upto ==> LevelStep(cmds, head, width, height, l)
    ensures forall l :: 1 <= l < upto ==> LevelStep(cmds + extra, head, width, height, l)
  {
    forall l | 1 <= l < upto ensures LevelStep(cmds + extra, head, width, height, l) {
      assert LevelStep(cmds, head, width, height, l);
      var b := 3 * (l - 1);
      assert (cmds + extra)[b] == cmds[b] && (cmds + extra)[b + 1] == cmds[b + 1] && (cmds + extra)[b + 2] == cmds[b + 2];
    }
  }

  /** One loop iteration keeps the per-level layouts in step: level - 1 becomes shader-readable. */
  lemma StepRuns(head: Head, n: nat, level: nat, cmds: seq<Cmd>, step: seq<Cmd>)
    requires 1 <= level < n
    requires Run(Uniform(n, TransferDstOptimal), cmds) == Some(Partly(n, level - 1))
    requires |step| == 3 && step[0] == LevelBarrier(head, level - 1, TO_SOURCE, TransferDstOptimal, TransferSrcOptimal)
    requires step[1].Blit? && step[1].srcLevel == level - 1 && step[1].dstLevel == level
    requires step[2] == LevelBarrier(head, level - 1, SOURCE_TO_SHADER, TransferSrcOptimal, ShaderReadOnlyOptimal)
    ensures Run(Uniform(n, TransferDstOptimal), cmds + step) == Some(Partly(n, level))
  {
    var init := Uniform(n, TransferDstOptimal);
    var mid := Partly(n, level - 1)[level - 1 := TransferSrcOptimal];
    RunSnoc(init, cmds, step[0]);
    BarrierOnLevel(Partly(n, level - 1), level - 1, TransferDstOptimal, TransferSrcOptimal, TO_SOURCE, head.arraySize);
    RunSnoc(init, cmds + [step[0]], step[1]);
    RunSnoc(init, cmds + [step[0]] + [step[1]], step[2]);
    BarrierOnLevel(mid, level - 1, TransferSrcOptimal, ShaderReadOnlyOptimal, SOURCE_TO_SHADER, head.arraySize);
    assert mid[level - 1 := ShaderReadOnlyOptimal] == Partly(n, level);
    assert cmds + step == cmds + [step[0]] + [step[1]] + [step[2]];
  }

  /** What `create_from_data` produces: the texture, its upload commands, the staging list and the driver log. */
  datatype TextureUpload = TextureUpload(head: Head, cmds: seq<Cmd>, staging: seq<GpuBuffer.Buffer>,
                                         log: seq<GpuBuffer.DriverCall>)

  function Singletons(data: seq<byte>): (r: seq<seq<byte>>)
    ensures |r| == |data| && Util.Uniform(r, 1)
  {
    seq(|data|, i requires 0 <= i < |data| => [data[i]])
  }

  lemma {:induction false} FlattenSingletons(data: seq<byte>)
    ensures Util.Flatten(Singletons(data)) == data
    decreases |data|
  {
    if |data| > 0 {
      FlattenSingletons(data[1..]);
      assert Singletons(data)[1..] == Singletons(data[1..]);
    }
  }

  /**
   * `create_from_data`: fill a TRANSFER_SRC host-visible staging buffer with
   * the pixels, transition the whole image UNDEFINED to TRANSFER_DST, copy
   * into mip 0, generate the mips, then queue the staging buffer on the
   * context.  From an image in UNDEFINED the whole sequence is well formed
   * and leaves every level shader-readable.
   */
  method CreateFromData(head: Head, data: seq<byte>, stagingHandle: nat, stagingMemory: nat, stagingInitial: seq<byte>,
                        linearBlit: bool, staging: seq<GpuBuffer.Buffer>, log: seq<GpuBuffer.DriverCall>)
    returns (r: TextureUpload)
    requires |stagingInitial| == |data| && linearBlit && head.mipCount >= 1
    ensures r.head == head && |r.cmds| == 3 * head.mipCount
    ensures r.cmds[0] == Transition(head, Undefined, TransferDstOptimal)
    ensures r.cmds[1] == CopyBufferToImage(stagingHandle, 0, head.arraySize, head.width, head.height)
    ensures forall level :: 1 <= level < head.mipCount ==> LevelStep(r.cmds[2..], head, head.width, head.height, level)
    ensures |r.staging| == |staging| + 1 && r.staging[..|staging|] == staging
    ensures r.staging[|staging|].handle == stagingHandle && r.staging[|staging|].contents == data
    ensures r.staging[|staging|].usage == {GpuBuffer.TransferSrc} && r.staging[|staging|].mapped
    ensures r.log == log + [GpuBuffer.MapMemory(stagingMemory)]
    ensures Run(Uniform(head.mipCount, Undefined), r.cmds) == Some(Uniform(head.mipCount, ShaderReadOnlyOptimal))
  {
    var n := head.mipCount;
    var buffer := GpuBuffer.Create(stagingHandle, stagingMemory, |data|, {GpuBuffer.TransferSrc},
                                   {GpuBuffer.HostVisible, GpuBuffer.HostCoherent}, stagingInitial);
    var (filled, log2) := GpuBuffer.Upload(buffer, log, Singletons(data), 1);
    FlattenSingletons(data);
    var toDst := Transition(head, Undefined, TransferDstOptimal);
    var copy := CopyBuffer(head, stagingHandle, head.width, head.height);
    var mips := GenerateMipmaps(head, head.width, head.height, linearBlit);
    var front := [toDst, copy];
    RunFront(n, stagingHandle, mips, head);
    r := TextureUpload(head, front + mips, staging + [filled], log2);
    assert r.cmds[2..] == mips;
  }

  /** Running the two setup commands from UNDEFINED leaves every level in TRANSFER_DST, so the mip commands run as proved. */
  lemma RunFront(n: nat, buffer: nat, mips: seq<Cmd>, head: Head)
    requires head.mipCount == n && n >= 1
    requires Run(Uniform(n, TransferDstOptimal), mips) == Some(Uniform(n, ShaderReadOnlyOptimal))
    ensures var front := [Transition(head, Undefined, TransferDstOptimal), CopyBuffer(head, buffer, head.width, head.height)];
            Run(Uniform(n, Undefined), front + mips) == Some(Uniform(n, ShaderReadOnlyOptimal))
  {
    var front := [Transition(head, Undefined, TransferDstOptimal), CopyBuffer(head, buffer, head.width, head.height)];
    var start := Uniform(n, Undefined);
    RunSnoc(start, [], front[0]);
    assert [] + [front[0]] == [front[0]];
    BarrierAll(start, Undefined, TransferDstOptimal, front[0].range);
    RunSnoc(start, [front[0]], front[1]);
    assert [front[0]] + [front[1]] == front;
    assert Run(start, front) == Some(Uniform(n, TransferDstOptimal));
    RunAppend(start, front, mips);
  }

  /** Running `a + b` is running `a` and then `b` from where `a` left off. */
  lemma {:induction false} RunAppend(layouts: seq<Layout>, a: seq<Cmd>, b: seq<Cmd>)
    requires Run(layouts, a).Some?
    ensures Run(layouts, a + b) == Run(Run(layouts, a).value, b)
    decreases |b|
  {
    if |b| == 0 {
      assert a + b == a;
    } else {
      var b0 := b[..|b| - 1];
      var c := b[|b| - 1];
      RunAppend(layouts, a, b0);
      assert a + b == (a + b0) + [c];
      RunSnoc(layouts, a + b0, c);
      RunSnoc(Run(layouts, a).value, b0, c);
      assert b0 + [c] == b;
    }
  }
}
