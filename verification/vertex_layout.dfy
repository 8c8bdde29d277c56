/**
 * Shader attribute locations and the defines a vertex layout switches on.
 */
module ShaderConst {
  import opened Wrappers

  const LOCATION_IN_POS: nat := 0
  const LOCATION_IN_NORMAL: nat := 1
  const LOCATION_IN_TEX_COORD: nat := 2
  const LOCATION_IN_WEIGHTS: nat := 3
  const LOCATION_IN_JOINTS: nat := 4

  const DEFINE_IN_TEX_COORD: string := "IN_TEX_COORD"
  const DEFINE_IN_NORMAL: string := "IN_NORMAL"

  /** The static location-to-define table; only two locations have a define. */
  const DEFINE_MAP: map<nat, string> :=
    map[LOCATION_IN_TEX_COORD := DEFINE_IN_TEX_COORD, LOCATION_IN_NORMAL := DEFINE_IN_NORMAL]

  /** The five attribute locations are pairwise distinct and are 0..4. */
  lemma LocationsDistinct()
    ensures [LOCATION_IN_POS, LOCATION_IN_NORMAL, LOCATION_IN_TEX_COORD,
             LOCATION_IN_WEIGHTS, LOCATION_IN_JOINTS] == [0, 1, 2, 3, 4]
  {
  }

  /** `get_shader_define_name`: the define for a location, if it has one. */
  function DefineName(location: nat): (r: Option<string>)
    ensures r.Some? <==> location == LOCATION_IN_TEX_COORD || location == LOCATION_IN_NORMAL
    ensures location == LOCATION_IN_TEX_COORD ==> r == Some(DEFINE_IN_TEX_COORD)
    ensures location == LOCATION_IN_NORMAL ==> r == Some(DEFINE_IN_NORMAL)
  {
    if location in DEFINE_MAP then Some(DEFINE_MAP[location]) else None
  }
}

/**
 * The per-primitive vertex layout built while loading glTF meshes: the
 * format tables, the meta list with its buffer offsets, the index part,
 * and the binding/attribute descriptions and shader defines derived from it.
 */
module VertexLayout {
  import opened Wrappers
  import ShaderConst

  /** glTF accessor component types. */
  datatype DataType = I8 | U8 | I16 | U16 | U32 | F32

  /** The Vulkan formats the tables name; every other format is `OtherFormat`. */
  datatype Format =
    | R16_UINT | R32_UINT | R8G8_UINT | R32G32_UINT | R32G32_SFLOAT
    | R32G32B32_SFLOAT | R32G32B32A32_SFLOAT | R8G8B8A8_UINT | R32G32B32A32_UINT
    | OtherFormat(code: nat)

  datatype IndexType = UINT16 | UINT32

  /** Size in bytes of one component of a glTF data type. */
  function ComponentBytes(t: DataType): nat
  {
    match t
    case I8 => 1
    case U8 => 1
    case I16 => 2
    case U16 => 2
    case U32 => 4
    case F32 => 4
  }

  /** The (type, count) pairs `gltf_data_type_2_vk_format` accepts; all others panic. */
  predicate SupportedPair(t: DataType, n: nat)
  {
    (t == U16 && n == 1) || (t == U32 && n == 1)
    || (t == U8 && n == 2) || (t == U32 && n == 2) || (t == F32 && n == 2)
    || (t == F32 && n == 3)
    || (t == F32 && n == 4) || (t == U8 && n == 4) || (t == U32 && n == 4)
  }

  /** The formats `vk_format_size` knows; all others panic. */
  predicate SizedFormat(f: Format) { !f.OtherFormat? }

  predicate IndexDataType(t: DataType) { t == U16 || t == U32 }

  /** `gltf_data_type_vk_index`. */
  function IndexTypeOf(t: DataType): (r: IndexType)
    requires IndexDataType(t)
    ensures r == UINT16 <==> t == U16
  {
    if t == U16 then UINT16 else UINT32
  }

  /** `gltf_data_type_2_vk_format`. */
  function FormatOf(t: DataType, n: nat): (r: Format)
    requires SupportedPair(t, n)
    ensures SizedFormat(r)
  {
    match (t, n)
    case (U16, 1) => R16_UINT
    case (U32, 1) => R32_UINT
    case (U8, 2) => R8G8_UINT
    case (U32, 2) => R32G32_UINT
    case (F32, 2) => R32G32_SFLOAT
    case (F32, 3) => R32G32B32_SFLOAT
    case (F32, 4) => R32G32B32A32_SFLOAT
    case (U8, 4) => R8G8B8A8_UINT
    case (U32, 4) => R32G32B32A32_UINT
  }

  /** `vk_format_size`. */
  function FormatSize(f: Format): (r: nat)
    requires SizedFormat(f)
    ensures r > 0
  {
    match f
    case R16_UINT => 2
    case R32_UINT => 4
    case R8G8_UINT => 2
    case R32G32_UINT => 8
    case R32G32_SFLOAT => 8
    case R32G32B32_SFLOAT => 12
    case R32G32B32A32_SFLOAT => 16
    case R8G8B8A8_UINT => 4
    case R32G32B32A32_UINT => 16
  }

  /** `calculate_stride`: the size of the format chosen for the pair is component bytes times count. */
  function CalculateStride(t: DataType, n: nat): (r: nat)
    requires SupportedPair(t, n)
    ensures r == ComponentBytes(t) * n
  {
    FormatSize(FormatOf(t, n))
  }

  /** Different supported pairs never share a format, so the format determines the pair. */
  lemma FormatOfInjective(t1: DataType, n1: nat, t2: DataType, n2: nat)
    requires SupportedPair(t1, n1) && SupportedPair(t2, n2)
    ensures FormatOf(t1, n1) == FormatOf(t2, n2) <==> t1 == t2 && n1 == n2
  {
  }

  datatype VertexMeta = VertexMeta(format: Format, size: nat, location: nat)
  datatype BufferPart = BufferPart(index: nat, count: nat)

  datatype Layout = Layout(
    metas: seq<VertexMeta>,
    offsets: seq<nat>,
    indices: BufferPart,
    indicesType: IndexType,
    buffersRefOffsets: seq<nat>)

  /** Every meta has a known format whose size it records, and there is one offset per meta. */
  predicate Consistent(l: Layout)
  {
    |l.metas| == |l.offsets|
    && forall i :: 0 <= i < |l.metas| ==>
         SizedFormat(l.metas[i].format) && l.metas[i].size == FormatSize(l.metas[i].format)
  }

  /** `VertexLayout::create`. */
  function Create(): (r: Layout)
    ensures Consistent(r)
    ensures |r.metas| == 0 && |r.buffersRefOffsets| == 0
    ensures r.indices.count == 0 && r.indices.index == 0 && r.indicesType == UINT32
  {
    Layout([], [], BufferPart(0, 0), UINT32, [])
  }

  /** `set_indices`: only the index part and the index type change. */
  function SetIndices(l: Layout, offset: nat, count: nat, t: DataType): (r: Layout)
    requires IndexDataType(t)
    ensures r.indices.index == offset && r.indices.count == count
    ensures r.indicesType == UINT16 <==> t == U16
    ensures r.metas == l.metas && r.offsets == l.offsets && r.buffersRefOffsets == l.buffersRefOffsets
    ensures Consistent(l) ==> Consistent(r)
  {
    l.(indices := BufferPart(offset, count), indicesType := IndexTypeOf(t))
  }

  /** `push_meta`: one meta and one offset appended; nothing else changes. */
  function PushMeta(l: Layout, t: DataType, n: nat, offset: nat, location: nat): (r: Layout)
    requires SupportedPair(t, n)
    ensures |r.metas| == |l.metas| + 1 && r.metas[..|l.metas|] == l.metas
    ensures |r.offsets| == |l.offsets| + 1 && r.offsets[..|l.offsets|] == l.offsets
    ensures r.metas[|l.metas|].size == ComponentBytes(t) * n
    ensures r.metas[|l.metas|].format == FormatOf(t, n)
    ensures r.metas[|l.metas|].location == location && r.offsets[|l.offsets|] == offset
    ensures r.indices == l.indices && r.indicesType == l.indicesType
    ensures r.buffersRefOffsets == l.buffersRefOffsets
    ensures Consistent(l) ==> Consistent(r)
  {
    var format := FormatOf(t, n);
    l.(metas := l.metas + [VertexMeta(format, FormatSize(format), location)],
       offsets := l.offsets + [offset])
  }

  /** `refresh_buffer_offsets`: the bound-buffer offsets become a copy of the meta offsets. */
  function RefreshBufferOffsets(l: Layout): (r: Layout)
    ensures |r.buffersRefOffsets| == |l.offsets|
    ensures forall i :: 0 <= i < |l.offsets| ==> r.buffersRefOffsets[i] == l.offsets[i]
    ensures r.metas == l.metas && r.offsets == l.offsets && r.indices == l.indices
    ensures Consistent(l) ==> Consistent(r)
  {
    l.(buffersRefOffsets := l.offsets)
  }

  datatype Binding = Binding(binding: nat, stride: nat)
  datatype Attribute = Attribute(binding: nat, location: nat, offset: nat, format: Format)

  /** `build_vk_bindings`: binding `i` for meta `i`, with the meta's size as stride. */
  function BuildBindings(metas: seq<VertexMeta>): (r: seq<Binding>)
    ensures |r| == |metas|
    ensures forall i :: 0 <= i < |r| ==> r[i].binding == i && r[i].stride == metas[i].size
  {
    seq(|metas|, i requires 0 <= i < |metas| => Binding(i, metas[i].size))
  }

  /** `build_vk_attributes`: binding `i` for meta `i`, its location and format, offset 0. */
  function BuildAttributes(metas: seq<VertexMeta>): (r: seq<Attribute>)
    ensures |r| == |metas|
    ensures forall i :: 0 <= i < |r| ==>
              r[i].binding == i && r[i].location == metas[i].location
              && r[i].offset == 0 && r[i].format == metas[i].format
  {
    seq(|metas|, i requires 0 <= i < |metas| => Attribute(i, metas[i].location, 0, metas[i].format))
  }

  /**
   * In a consistent layout, attribute `i` reads from binding `i`, whose
   * stride is exactly the size of attribute `i`'s format.
   */
  lemma BindingsMatchAttributes(l: Layout)
    requires Consistent(l)
    ensures var bs := BuildBindings(l.metas); var as_ := BuildAttributes(l.metas);
      |bs| == |as_|
      && forall i :: 0 <= i < |bs| ==>
           bs[i].binding == as_[i].binding && SizedFormat(as_[i].format)
           && bs[i].stride == FormatSize(as_[i].format)
  {
  }

  /** `get_shader_defines`: the defines of the metas' locations, in meta order. */
  function Defines(metas: seq<VertexMeta>): (r: seq<string>)
    ensures |r| <= |metas|
    ensures forall d :: d in r ==> d == ShaderConst.DEFINE_IN_TEX_COORD || d == ShaderConst.DEFINE_IN_NORMAL
  {
    if |metas| == 0 then []
    else
      match ShaderConst.DefineName(metas[0].location)
      case Some(d) => [d] + Defines(metas[1..])
      case None => Defines(metas[1..])
  }

  /** Defining is a filter: defines of a concatenation are the concatenated defines. */
  lemma {:induction false} DefinesAppend(a: seq<VertexMeta>, b: seq<VertexMeta>)
    ensures Defines(a + b) == Defines(a) + Defines(b)
  {
    if |a| == 0 {
      assert a + b == b;
    } else {
      assert (a + b)[1..] == a[1..] + b;
      DefinesAppend(a[1..], b);
    }
  }

  /** A define is switched on exactly when some meta sits at its location. */
  lemma {:induction false} DefinesMembership(metas: seq<VertexMeta>, location: nat)
    requires location == ShaderConst.LOCATION_IN_TEX_COORD || location == ShaderConst.LOCATION_IN_NORMAL
    ensures ShaderConst.DefineName(location).value in Defines(metas)
        <==> exists i :: 0 <= i < |metas| && metas[i].location == location
  {
    if |metas| > 0 {
      DefinesMembership(metas[1..], location);
      if exists i :: 0 <= i < |metas[1..]| && metas[1..][i].location == location {
        var i :| 0 <= i < |metas[1..]| && metas[1..][i].location == location;
        assert metas[i + 1].location == location;
      }
      if exists i :: 0 <= i < |metas| && metas[i].location == location {
        var i :| 0 <= i < |metas| && metas[i].location == location;
        if i > 0 { assert metas[1..][i - 1].location == location; }
      }
    }
  }
}
