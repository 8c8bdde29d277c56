/**
 * The grass manager's sizing and scheduling: the blade count of the grid,
 * the compute dispatch size, the blade buffers, the blade vertex layout,
 * the indirect draw arguments and the generate-once flag.
 *
 * The slot counts come from a float division of the grid size by the slot
 * size and are taken as inputs.  The counts are `u32`; an overflow panics
 * (checked arithmetic), which the sizing reports as `None`.
 */
module Grass {
  import opened Wrappers

  const U32_LIMIT: nat := 0x1_0000_0000
  const COMPUTE_GROUP_LOCAL_SIZE: nat := 32

  /** A blade is four 4-float vectors: position, control point, guide and up. */
  const VEC4_SIZE: nat := 16
  const BLADE_SIZE: nat := 4 * VEC4_SIZE

  datatype Grid = Grid(slotX: nat, slotY: nat, grassCount: nat, dispatchSize: nat, bladeBytes: nat)

  /**
   * `GrassMgr::create`'s sizing: the blade count, the dispatch size
   * rounded up to whole groups of 32, and the size of each blade buffer.
   */
  function Size(slotX: nat, slotY: nat): (r: Option<Grid>)
    requires slotX < U32_LIMIT && slotY < U32_LIMIT
    ensures r.Some? <==> slotX * slotY * BLADE_SIZE < U32_LIMIT
    ensures r.Some? ==> r.value.grassCount == slotX * slotY
                        && r.value.bladeBytes == r.value.grassCount * BLADE_SIZE
                        && r.value.dispatchSize * COMPUTE_GROUP_LOCAL_SIZE >= r.value.grassCount
                        && (r.value.grassCount > 0 ==> (r.value.dispatchSize - 1) * COMPUTE_GROUP_LOCAL_SIZE < r.value.grassCount)
                        && (r.value.grassCount == 0 ==> r.value.dispatchSize == 0)
  {
    var count := slotX * slotY;
    if count >= U32_LIMIT || count + COMPUTE_GROUP_LOCAL_SIZE - 1 >= U32_LIMIT || count * BLADE_SIZE >= U32_LIMIT then
      None
    else
      var dispatch := (count + COMPUTE_GROUP_LOCAL_SIZE - 1) / COMPUTE_GROUP_LOCAL_SIZE;
      Some(Grid(slotX, slotY, count, dispatch, count * BLADE_SIZE))
  }

  /** The grid the renderer builds: 100 by 100 units in slots of 0.15, so 666 slots a side. */
  lemma DefaultGridSize()
    ensures Size(666, 666) == Some(Grid(666, 666, 443556, 13862, 28387584))
  {
  }

  datatype Attribute = Attribute(location: nat, binding: nat, offset: nat)

  /** The blade vertex input: one binding with the blade's stride, four attributes at 0, 16, 32 and 48. */
  const BLADE_STRIDE: nat := BLADE_SIZE
  const BLADE_ATTRIBUTES: seq<Attribute> :=
    [Attribute(0, 0, 0), Attribute(1, 0, 4 * 4), Attribute(2, 0, 4 * 4 * 2), Attribute(3, 0, 4 * 4 * 3)]

  /** The attributes tile the blade exactly: each starts where the previous vector ends, and the last ends at the stride. */
  lemma BladeLayoutTiles()
    ensures |BLADE_ATTRIBUTES| == 4
    ensures forall i :: 0 <= i < 4 ==>
              BLADE_ATTRIBUTES[i].location == i && BLADE_ATTRIBUTES[i].binding == 0 && BLADE_ATTRIBUTES[i].offset == i * VEC4_SIZE
    ensures BLADE_ATTRIBUTES[3].offset + VEC4_SIZE == BLADE_STRIDE
  {
  }

  /** The indirect draw arguments the update pass starts from. */
  datatype NumBlades = NumBlades(vertexCount: nat, instanceCount: nat, firstVertex: nat, firstInstance: nat)

  const INITIAL_NUM_BLADES: NumBlades := NumBlades(0, 1, 0, 0)

  datatype Pass = Generate | Update(waitsOnGenerate: bool)

  /**
   * `compute_grass_data`: the first call generates the blades and runs an
   * update that waits on the generation; every later call only updates,
   * with no waits.
   */
  function ComputeGrassData(hasGenerated: bool): (r: (bool, seq<Pass>))
    ensures r.0
    ensures !hasGenerated ==> r.1 == [Generate, Update(true)]
    ensures hasGenerated ==> r.1 == [Update(false)]
  {
    if !hasGenerated then (true, [Generate, Update(true)]) else (true, [Update(false)])
  }

  /** `n` frames from a fresh manager, whose flag starts false. */
  function Frames(hasGenerated: bool, n: nat): (r: (bool, seq<Pass>))
    decreases n
  {
    if n == 0 then (hasGenerated, [])
    else
      var (flag, passes) := ComputeGrassData(hasGenerated);
      var (last, rest) := Frames(flag, n - 1);
      (last, passes + rest)
  }

  function CountGenerate(passes: seq<Pass>): nat
  {
    if |passes| == 0 then 0 else (if passes[0] == Generate then 1 else 0) + CountGenerate(passes[1..])
  }

  lemma {:induction false} CountGenerateAppend(a: seq<Pass>, b: seq<Pass>)
    ensures CountGenerate(a + b) == CountGenerate(a) + CountGenerate(b)
  {
    if |a| > 0 {
      assert (a + b)[1..] == a[1..] + b;
      CountGenerateAppend(a[1..], b);
    } else {
      assert a + b == b;
    }
  }

  /** Once generated, every later frame is a single update with no waits. */
  lemma {:induction false} GeneratedStaysUpdateOnly(n: nat)
    ensures Frames(true, n).0
    ensures CountGenerate(Frames(true, n).1) == 0
    ensures |Frames(true, n).1| == n
    decreases n
  {
    if n > 0 {
      GeneratedStaysUpdateOnly(n - 1);
      CountGenerateAppend([Update(false)], Frames(true, n - 1).1);
    }
  }

  /**
   * Over any positive number of frames from a fresh manager, generation
   * runs exactly once, first, and the flag ends set.
   */
  lemma GenerateExactlyOnce(n: nat)
    requires n > 0
    ensures Frames(false, n).0
    ensures CountGenerate(Frames(false, n).1) == 1
    ensures Frames(false, n).1[0] == Generate
  {
    GeneratedStaysUpdateOnly(n - 1);
    CountGenerateAppend([Generate, Update(true)], Frames(true, n - 1).1);
  }
}
