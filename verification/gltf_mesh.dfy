/**
 * glTF mesh ingestion: the byte range of a buffer view, strided accessor
 * extraction, the 4-byte aligned vertex-data append, and the numbering and
 * index bookkeeping of `load_meshes`, which packs every primitive's indices
 * and attributes into one byte buffer.
 */
module GltfMesh {
  import opened Wrappers
  import opened ProtoWire
  import opened VertexLayout
  import ShaderConst
  import Aabb
  import Material

  datatype View = View(buffer: nat, offset: nat, length: nat, stride: Option<nat>)
  datatype Accessor = Accessor(view: View, offset: nat, count: nat, dataType: DataType, sparse: bool)

  /** The view lies inside its buffer. */
  predicate ViewInBounds(view: View, buffers: seq<seq<byte>>)
  {
    view.buffer < |buffers| && view.offset + view.length <= |buffers[view.buffer]|
  }

  /** `buffer_view_slice`: bytes [offset, offset + length) of the referenced buffer. */
  function BufferViewSlice(view: View, buffers: seq<seq<byte>>): (r: seq<byte>)
    requires ViewInBounds(view, buffers)
    ensures |r| == view.length
    ensures forall i :: 0 <= i < |r| ==> r[i] == buffers[view.buffer][view.offset + i]
  {
    buffers[view.buffer][view.offset .. view.offset + view.length]
  }

  /** The stride the data is read with: the view's, else the one computed from the format. */
  function ViewStride(acc: Accessor, elementCount: nat): (r: nat)
    requires SupportedPair(acc.dataType, elementCount)
    ensures acc.view.stride.None? ==> r == ComponentBytes(acc.dataType) * elementCount
    ensures acc.view.stride.Some? ==> r == acc.view.stride.value
  {
    if acc.view.stride.Some? then acc.view.stride.value else CalculateStride(acc.dataType, elementCount)
  }

  /** `Span(stride, n)` is `(n - 1) * stride`: how far the last of `n` windows starts from the first. */
  function Span(stride: nat, n: nat): nat
  {
    if n <= 1 then 0 else stride + Span(stride, n - 1)
  }

  /** `Total(stride, n)` is `n * stride`. */
  function Total(stride: nat, n: nat): nat
  {
    if n == 0 then 0 else stride + Total(stride, n - 1)
  }

  lemma {:induction false} SpanTotalProducts(stride: nat, n: nat)
    ensures Total(stride, n) == n * stride
    ensures n > 0 ==> Span(stride, n) == (n - 1) * stride
  {
    if n > 0 {
      SpanTotalProducts(stride, n - 1);
      assert n * stride == (n - 1) * stride + stride;
      if n > 1 {
        assert (n - 1) * stride == (n - 2) * stride + stride;
      }
    }
  }

  /** The window at `si`: `stride` bytes, cut short at the end of the slice. */
  function Window(slice: seq<byte>, si: nat, stride: nat): (r: seq<byte>)
    requires si <= |slice|
    ensures |r| <= stride
    ensures si + stride <= |slice| ==> r == slice[si .. si + stride]
    ensures si + stride > |slice| ==> r == slice[si..]
  {
    var ei := if si + stride > |slice| then |slice| else si + stride;
    slice[si..ei]
  }

  /** Every one of `n` windows, the first at `si`, starts inside the slice. */
  predicate StartsFit(len: nat, si: nat, stride: nat, n: nat)
  {
    n == 0 || si + Span(stride, n) <= len
  }

  /** `n` windows `stride` apart, the first at `si`, laid end to end. */
  function Windows(slice: seq<byte>, si: nat, stride: nat, n: nat): (r: seq<byte>)
    requires StartsFit(|slice|, si, stride, n)
    ensures |r| <= Total(stride, n)
    decreases n
  {
    if n == 0 then []
    else Window(slice, si, stride) + Windows(slice, si + stride, stride, n - 1)
  }

  /**
   * When every window fits, the windows are the contiguous range
   * [si, si + n * stride): the two branches of `read_no_sparse_buffer`
   * agree whenever the view's stride equals the computed one.
   */
  lemma {:induction false} WindowsContiguous(slice: seq<byte>, si: nat, stride: nat, n: nat)
    requires si + Total(stride, n) <= |slice|
    ensures StartsFit(|slice|, si, stride, n)
    ensures Windows(slice, si, stride, n) == slice[si .. si + Total(stride, n)]
    decreases n
  {
    if n > 0 {
      WindowsContiguous(slice, si + stride, stride, n - 1);
      assert slice[si .. si + Total(stride, n)]
          == slice[si .. si + stride] + slice[si + stride .. si + Total(stride, n)];
    }
  }

  /**
   * What `read_no_sparse_buffer` needs in order not to panic: a non-sparse
   * accessor with a supported format, a view inside its buffer, and enough
   * bytes for every window: `Total(stride, count)` bytes with equal
   * strides, otherwise only the start of the last window, at
   * `Span(v_stride, count)`, inside the view (that window may be cut short).
   */
  predicate Readable(acc: Accessor, buffers: seq<seq<byte>>, elementCount: nat)
  {
    !acc.sparse && SupportedPair(acc.dataType, elementCount) && ViewInBounds(acc.view, buffers)
    && var stride := CalculateStride(acc.dataType, elementCount);
       var vStride := ViewStride(acc, elementCount);
       if stride == vStride then acc.offset + Total(stride, acc.count) <= acc.view.length
       else StartsFit(acc.view.length, acc.offset, vStride, acc.count)
  }

  lemma ReadableWindows(acc: Accessor, buffers: seq<seq<byte>>, elementCount: nat)
    requires Readable(acc, buffers, elementCount)
    ensures StartsFit(acc.view.length, acc.offset, ViewStride(acc, elementCount), acc.count)
    ensures CalculateStride(acc.dataType, elementCount) == ViewStride(acc, elementCount) ==>
              acc.offset + Total(ViewStride(acc, elementCount), acc.count) <= acc.view.length
  {
    var n := acc.count;
    if CalculateStride(acc.dataType, elementCount) == ViewStride(acc, elementCount) && n > 0 {
      SpanBelowTotal(ViewStride(acc, elementCount), n);
    }
  }

  lemma {:induction false} SpanBelowTotal(stride: nat, n: nat)
    requires n > 0
    ensures Span(stride, n) + stride == Total(stride, n)
  {
    if n > 1 {
      SpanBelowTotal(stride, n - 1);
    }
  }

  /** Peeling the first window off `n > 0` windows; a window cut short can only be the last. */
  lemma WindowsStep(slice: seq<byte>, si: nat, stride: nat, n: nat)
    requires n > 0 && StartsFit(|slice|, si, stride, n)
    ensures si <= |slice| && StartsFit(|slice|, si + stride, stride, n - 1)
    ensures Windows(slice, si, stride, n) == Window(slice, si, stride) + Windows(slice, si + stride, stride, n - 1)
    ensures si + stride > |slice| ==> n == 1
  {
    if n > 1 {
      assert Span(stride, n) == stride + Span(stride, n - 1);
    }
  }

  /** The extracted bytes of an accessor, as the windows of its view. */
  function AccessorBytes(acc: Accessor, buffers: seq<seq<byte>>, elementCount: nat): seq<byte>
    requires Readable(acc, buffers, elementCount)
  {
    ReadableWindows(acc, buffers, elementCount);
    Windows(BufferViewSlice(acc.view, buffers), acc.offset, ViewStride(acc, elementCount), acc.count)
  }

  /** With equal strides the windows of an accessor are one contiguous range of its view. */
  lemma ContiguousAccessorBytes(acc: Accessor, buffers: seq<seq<byte>>, elementCount: nat)
    requires Readable(acc, buffers, elementCount)
    requires CalculateStride(acc.dataType, elementCount) == ViewStride(acc, elementCount)
    ensures var stride := ViewStride(acc, elementCount);
            acc.offset + stride * acc.count <= acc.view.length
            && AccessorBytes(acc, buffers, elementCount)
               == BufferViewSlice(acc.view, buffers)[acc.offset .. acc.offset + stride * acc.count]
  {
    var stride := ViewStride(acc, elementCount);
    ReadableWindows(acc, buffers, elementCount);
    WindowsContiguous(BufferViewSlice(acc.view, buffers), acc.offset, stride, acc.count);
    SpanTotalProducts(stride, acc.count);
  }

  /**
   * One turn of the gathering loop, with `n > 0` windows left from `si`: the
   * window's end is cut to the slice, which only the last window may need
   * (the source asserts `i == count - 1` there), and appending it leaves
   * `n - 1` windows from the next start.
   */
  method GatherWindow(slice: seq<byte>, start: nat, stride: nat, count: nat, si: nat, n: nat, data: seq<byte>)
    returns (grown: seq<byte>)
    requires n > 0 && StartsFit(|slice|, si, stride, n) && StartsFit(|slice|, start, stride, count)
    requires data + Windows(slice, si, stride, n) == Windows(slice, start, stride, count)
    ensures StartsFit(|slice|, si + stride, stride, n - 1)
    ensures grown + Windows(slice, si + stride, stride, n - 1) == Windows(slice, start, stride, count)
  {
    WindowsStep(slice, si, stride, n);
    var ei := si + stride;
    if ei > |slice| {
      ei := |slice|;
      assert n == 1;
    }
    var w := slice[si..ei];
    assert w == Window(slice, si, stride);
    var rest := Windows(slice, si + stride, stride, n - 1);
    assert data + (w + rest) == (data + w) + rest;
    grown := data + w;
  }

  /**
   * The gathering loop of `read_no_sparse_buffer`: window `i` starts at
   * `start + i * v_stride`, kept here as a running sum `si`.
   */
  method Gather(slice: seq<byte>, start: nat, vStride: nat, count: nat) returns (data: seq<byte>)
    requires StartsFit(|slice|, start, vStride, count)
    ensures data == Windows(slice, start, vStride, count)
  {
    data := [];
    var si: nat := start;
    for i := 0 to count
      invariant StartsFit(|slice|, si, vStride, count - i)
      invariant data + Windows(slice, si, vStride, count - i) == Windows(slice, start, vStride, count)
    {
      data := GatherWindow(slice, start, vStride, count, si, count - i, data);
      si := si + vStride;
    }
  }

  /**
   * `read_no_sparse_buffer`: returns the data, the count and the stride used.
   * With equal strides the data is one contiguous range; otherwise it is
   * gathered window by window.
   */
  method ReadNoSparseBuffer(acc: Accessor, buffers: seq<seq<byte>>, elementCount: nat)
    returns (data: seq<byte>, count: nat, stride: nat)
    requires Readable(acc, buffers, elementCount)
    ensures count == acc.count && stride == ViewStride(acc, elementCount)
    ensures data == AccessorBytes(acc, buffers, elementCount)
    ensures stride == CalculateStride(acc.dataType, elementCount) ==>
              acc.offset + stride * count <= acc.view.length
              && data == BufferViewSlice(acc.view, buffers)[acc.offset .. acc.offset + stride * count]
  {
    var slice := BufferViewSlice(acc.view, buffers);
    var computed := CalculateStride(acc.dataType, elementCount);
    count := acc.count;
    stride := ViewStride(acc, elementCount);
    if computed == stride {
      ContiguousAccessorBytes(acc, buffers, elementCount);
      data := slice[acc.offset .. acc.offset + computed * count];
    } else {
      ReadableWindows(acc, buffers, elementCount);
      data := Gather(slice, acc.offset, stride, count);
    }
  }

  function Zeros(n: nat): (r: seq<byte>)
    ensures |r| == n && forall i :: 0 <= i < n ==> r[i] == 0
  {
    seq(n, _ => 0)
  }

  /** Bytes needed to bring a length up to the next multiple of 4. */
  function PadTo4(len: nat): (r: nat)
    ensures r < 4 && (len + r) % 4 == 0
  {
    if len % 4 == 0 then 0 else 4 - len % 4
  }

  /**
   * The append of `read_no_sparse_vertex_data` as written: the data goes
   * at the old end of the output, the zero padding after it, and the
   * recorded offset is the old end plus the padding.
   */
  function AppendAsWritten(out: seq<byte>, data: seq<byte>): (r: (seq<byte>, nat))
    ensures r.1 >= |out| && r.0 == out + data + Zeros(r.1 - |out|)
    ensures |r.0| % 4 == 0
  {
    var pad := PadTo4(|out| + |data|);
    (out + data + Zeros(pad), |out| + pad)
  }

  /**
   * After 6 bytes of 16-bit indices, a 12-byte position block is written at
   * byte 6 but recorded at offset 8: the recorded offset does not point at
   * the data.
   */
  lemma AsWrittenOffsetMisses()
    ensures var out := Zeros(6);
            var data: seq<byte> := [1, 2, 3, 4, 5, 6, 7, 8, 9, 10, 11, 12];
            var (o, offset) := AppendAsWritten(out, data);
            offset == 8 && o[6..18] == data && o[offset .. offset + |data|] != data
  {
    var out := Zeros(6);
    var data: seq<byte> := [1, 2, 3, 4, 5, 6, 7, 8, 9, 10, 11, 12];
    var (o, offset) := AppendAsWritten(out, data);
    assert PadTo4(18) == 2;
    assert o == out + data + Zeros(2);
    assert o[6..18] == data;
    assert o[offset .. offset + |data|][0] == o[8] == data[2] != data[0];
  }

  /**
   * The corrected append: zero padding first, so the data starts 4-aligned
   * at the recorded offset, then padding after it so the output length is
   * again a multiple of 4.
   */
  function AppendAligned(out: seq<byte>, data: seq<byte>): (r: (seq<byte>, nat))
    ensures var (o, offset) := r;
      offset % 4 == 0 && |o| % 4 == 0 && |out| <= offset < |out| + 4
      && offset + |data| <= |o| < offset + |data| + 4
      && o[..|out|] == out
      && o[offset .. offset + |data|] == data
      && (forall i :: |out| <= i < offset ==> o[i] == 0)
      && (forall i :: offset + |data| <= i < |o| ==> o[i] == 0)
  {
    var pre := PadTo4(|out|);
    var offset := |out| + pre;
    var post := PadTo4(offset + |data|);
    var o := out + Zeros(pre) + data + Zeros(post);
    assert o[offset .. offset + |data|] == data;
    (o, offset)
  }

  datatype Semantic = Positions | Normals | TexCoords0 | Weights0 | Joints0

  /** Component count and shader location of each attribute `load_meshes` reads. */
  function ElementCount(s: Semantic): nat
  {
    match s
    case Positions => 3
    case Normals => 3
    case TexCoords0 => 2
    case Weights0 => 4
    case Joints0 => 4
  }

  function Location(s: Semantic): nat
  {
    match s
    case Positions => ShaderConst.LOCATION_IN_POS
    case Normals => ShaderConst.LOCATION_IN_NORMAL
    case TexCoords0 => ShaderConst.LOCATION_IN_TEX_COORD
    case Weights0 => ShaderConst.LOCATION_IN_WEIGHTS
    case Joints0 => ShaderConst.LOCATION_IN_JOINTS
  }

  datatype GltfPrimitive = GltfPrimitive(
    triangles: bool,
    indices: Option<Accessor>,
    attributes: map<Semantic, Accessor>,
    material: Material.GltfMaterial,
    bounds: Aabb.Box)

  predicate AttributeReadable(p: GltfPrimitive, s: Semantic, buffers: seq<seq<byte>>)
  {
    s in p.attributes ==> Readable(p.attributes[s], buffers, ElementCount(s))
  }

  /** Every attribute the primitive has can be read without a panic. */
  predicate AttributesReadable(p: GltfPrimitive, buffers: seq<seq<byte>>)
  {
    forall s :: AttributeReadable(p, s, buffers)
  }

  /** `o` begins with `out`: what was written before is kept. */
  predicate Extends(o: seq<byte>, out: seq<byte>)
  {
    |out| <= |o| && o[..|out|] == out
  }

  /** `data` sits in `o` at `at`. */
  predicate Placed(o: seq<byte>, at: nat, data: seq<byte>)
  {
    at + |data| <= |o| && o[at .. at + |data|] == data
  }

  /** `data` sits 4-aligned at `offset` inside `o`. */
  predicate AlignedAt(o: seq<byte>, offset: nat, data: seq<byte>)
  {
    offset % 4 == 0 && Placed(o, offset, data)
  }

  lemma PrefixTrans(a: seq<byte>, b: seq<byte>, c: seq<byte>)
    requires Extends(b, a) && Extends(c, b)
    ensures Extends(c, a)
  {
    assert c[..|a|] == c[..|b|][..|a|];
  }

  /** Bytes already placed stay where they are when the output grows. */
  lemma PlacedExtends(o: seq<byte>, o2: seq<byte>, at: nat, data: seq<byte>)
    requires Placed(o, at, data) && Extends(o2, o)
    ensures Placed(o2, at, data)
  {
    assert o2[at .. at + |data|] == o2[..|o|][at .. at + |data|];
  }

  /**
   * Which append `read_no_sparse_vertex_data` performs: the program's own
   * (data, then padding, offset advanced by the padding) or the corrected
   * one (padding, then data at the recorded offset).
   */
  datatype AppendRule = AsWritten | Aligned

  /**
   * Where an appended attribute's bytes sit relative to its recorded
   * offset. As written they sit at some position `q` and the offset is `q`
   * plus the padding that followed them; corrected, they sit exactly at the
   * 4-aligned offset.
   */
  predicate AttributeAt(rule: AppendRule, o: seq<byte>, offset: nat, data: seq<byte>)
  {
    match rule
    case AsWritten => exists q: nat :: q <= offset && Placed(o, q, data) && offset == q + PadTo4(q + |data|)
    case Aligned => AlignedAt(o, offset, data)
  }

  lemma AttributeAtExtends(rule: AppendRule, o: seq<byte>, o2: seq<byte>, offset: nat, data: seq<byte>)
    requires AttributeAt(rule, o, offset, data) && Extends(o2, o)
    ensures AttributeAt(rule, o2, offset, data)
  {
    match rule
    case AsWritten =>
      var q: nat :| q <= offset && Placed(o, q, data) && offset == q + PadTo4(q + |data|);
      PlacedExtends(o, o2, q, data);
    case Aligned =>
      PlacedExtends(o, o2, offset, data);
  }

  /**
   * The append under either rule: earlier output is kept and the data sits
   * where `AttributeAt` says; as written, that is the old end of the output,
   * with the offset pushed past it by the padding.
   */
  function Append(rule: AppendRule, out: seq<byte>, data: seq<byte>): (r: (seq<byte>, nat))
    ensures Extends(r.0, out) && AttributeAt(rule, r.0, r.1, data)
    ensures rule == AsWritten ==> Placed(r.0, |out|, data) && r.1 == |out| + PadTo4(|out| + |data|)
  {
    match rule
    case AsWritten =>
      var r := AppendAsWritten(out, data);
      assert r.0[..|out|] == out && r.0[|out| .. |out| + |data|] == data;
      assert Placed(r.0, |out|, data);
      r
    case Aligned =>
      AppendAligned(out, data)
  }

  /**
   * `read_no_sparse_vertex_data`: an absent attribute changes nothing; a
   * present one is appended by the rule and gets one meta with its location
   * and format, whose offset is the one the rule records.
   */
  function ReadVertexData(rule: AppendRule, p: GltfPrimitive, s: Semantic, buffers: seq<seq<byte>>,
                          out: seq<byte>, layout: Layout): (r: (seq<byte>, Layout))
    requires AttributeReadable(p, s, buffers)
    ensures s !in p.attributes ==> r == (out, layout)
    ensures s in p.attributes ==>
              var bytes := AttributeBytes(p, s, buffers);
              |r.1.metas| == |layout.metas| + 1 && |r.1.offsets| == |layout.offsets| + 1
              && r.1.metas[|layout.metas|].location == Location(s)
              && r.1.metas[|layout.metas|].format == AttributeFormat(p, s)
              && AttributeAt(rule, r.0, r.1.offsets[|layout.offsets|], bytes)
              && (rule == AsWritten ==>
                    Placed(r.0, |out|, bytes) && r.1.offsets[|layout.offsets|] == |out| + PadTo4(|out| + |bytes|))
    ensures r.1.metas[..|layout.metas|] == layout.metas && r.1.offsets[..|layout.offsets|] == layout.offsets
    ensures Extends(r.0, out)
    ensures r.1.indices == layout.indices && r.1.indicesType == layout.indicesType
    ensures Consistent(layout) ==> Consistent(r.1)
  {
    if s !in p.attributes then (out, layout)
    else
      var acc := p.attributes[s];
      var data := AccessorBytes(acc, buffers, ElementCount(s));
      var appended := Append(rule, out, data);
      (appended.0, PushMeta(layout, acc.dataType, ElementCount(s), appended.1, Location(s)))
  }

  datatype Primitive = Primitive(index: nat, layout: Layout, material: Material.MaterialData, aabb: Aabb.Box)
  datatype Mesh = Mesh(primitives: seq<Primitive>, aabb: Aabb.Box)

  /** `Meshes`: the loaded meshes and the one byte buffer all their data was packed into. */
  datatype Meshes = Meshes(meshes: seq<Mesh>, data: seq<byte>)

  /** What `load_meshes` checks of every primitive: triangle mode (`assert_eq!`) and an index accessor (`expect`). */
  predicate Indexed(p: GltfPrimitive)
  {
    p.triangles && p.indices.Some?
  }

  /**
   * What reading a checked primitive needs in order not to panic: a
   * supported index type and readable index and attribute accessors.
   */
  predicate Loadable(p: GltfPrimitive, buffers: seq<seq<byte>>)
  {
    Indexed(p) ==>
      IndexDataType(p.indices.value.dataType) && Readable(p.indices.value, buffers, 1)
      && AttributesReadable(p, buffers)
  }

  /** The attributes `load_meshes` reads for every primitive, in order. */
  const ATTRIBUTE_ORDER: seq<Semantic> := [Positions, Normals, TexCoords0, Weights0, Joints0]

  /** The semantics of `sems` the primitive has, in order: the ones that get a meta. */
  function Present(p: GltfPrimitive, sems: seq<Semantic>): (r: seq<Semantic>)
    ensures |r| <= |sems|
    ensures forall j :: 0 <= j < |r| ==> r[j] in p.attributes && r[j] in sems
  {
    if |sems| == 0 then []
    else (if sems[0] in p.attributes then [sems[0]] else []) + Present(p, sems[1..])
  }

  /** The extracted bytes of attribute `s`, empty when the primitive has no readable `s`. */
  function AttributeBytes(p: GltfPrimitive, s: Semantic, buffers: seq<seq<byte>>): seq<byte>
  {
    if s in p.attributes && Readable(p.attributes[s], buffers, ElementCount(s))
    then AccessorBytes(p.attributes[s], buffers, ElementCount(s)) else []
  }

  /** The format of attribute `s`, `OtherFormat(0)` when its type is unsupported. */
  function AttributeFormat(p: GltfPrimitive, s: Semantic): Format
    requires s in p.attributes
  {
    var t := p.attributes[s].dataType;
    if SupportedPair(t, ElementCount(s)) then FormatOf(t, ElementCount(s)) else OtherFormat(0)
  }

  /**
   * Meta `i` of `l` describes attribute `s` of the primitive: its location,
   * its format, and its bytes where the rule puts them relative to offset `i`.
   */
  predicate MetaFor(rule: AppendRule, p: GltfPrimitive, s: Semantic, buffers: seq<seq<byte>>,
                    o: seq<byte>, l: Layout, i: nat)
  {
    s in p.attributes && i < |l.metas| && i < |l.offsets|
    && l.metas[i].location == Location(s) && l.metas[i].format == AttributeFormat(p, s)
    && AttributeAt(rule, o, l.offsets[i], AttributeBytes(p, s, buffers))
  }

  lemma MetaForExtends(rule: AppendRule, p: GltfPrimitive, s: Semantic, buffers: seq<seq<byte>>,
                       o: seq<byte>, o2: seq<byte>, l: Layout, i: nat)
    requires MetaFor(rule, p, s, buffers, o, l, i) && Extends(o2, o)
    ensures MetaFor(rule, p, s, buffers, o2, l, i)
  {
    AttributeAtExtends(rule, o, o2, l.offsets[i], AttributeBytes(p, s, buffers));
  }

  /** The present semantics of `sems` have their metas, in order, from position `n` of `l`. */
  predicate MetasFrom(rule: AppendRule, p: GltfPrimitive, sems: seq<Semantic>, buffers: seq<seq<byte>>,
                      o: seq<byte>, l: Layout, n: nat)
  {
    forall j :: 0 <= j < |Present(p, sems)| ==> MetaFor(rule, p, Present(p, sems)[j], buffers, o, l, n + j)
  }

  lemma MetasFromExtends(rule: AppendRule, p: GltfPrimitive, sems: seq<Semantic>, buffers: seq<seq<byte>>,
                         o: seq<byte>, o2: seq<byte>, l: Layout, n: nat)
    requires MetasFrom(rule, p, sems, buffers, o, l, n) && Extends(o2, o)
    ensures MetasFrom(rule, p, sems, buffers, o2, l, n)
  {
    var present := Present(p, sems);
    forall j | 0 <= j < |present|
      ensures MetaFor(rule, p, present[j], buffers, o2, l, n + j)
    {
      MetaForExtends(rule, p, present[j], buffers, o, o2, l, n + j);
    }
  }

  /** Only the metas and offsets of a layout matter to its metas' description. */
  lemma MetasFromLayout(rule: AppendRule, p: GltfPrimitive, sems: seq<Semantic>, buffers: seq<seq<byte>>,
                        o: seq<byte>, l: Layout, l2: Layout)
    requires MetasFrom(rule, p, sems, buffers, o, l, 0)
    requires l2.metas == l.metas && l2.offsets == l.offsets
    ensures MetasFrom(rule, p, sems, buffers, o, l2, 0)
  {
  }

  /**
   * `read_no_sparse_vertex_data` for each semantic in turn, threading the
   * output and the layout: one meta per present semantic, in order, after
   * the metas already there.
   */
  method ReadAttributes(rule: AppendRule, p: GltfPrimitive, sems: seq<Semantic>, buffers: seq<seq<byte>>,
                        out: seq<byte>, layout: Layout) returns (o: seq<byte>, l: Layout)
    requires AttributesReadable(p, buffers)
    requires Consistent(layout)
    ensures Extends(o, out) && Consistent(l)
    ensures l.indices == layout.indices && l.indicesType == layout.indicesType
    ensures l.buffersRefOffsets == layout.buffersRefOffsets
    ensures |l.metas| == |layout.metas| + |Present(p, sems)|
    ensures l.metas[..|layout.metas|] == layout.metas && l.offsets[..|layout.offsets|] == layout.offsets
    ensures MetasFrom(rule, p, sems, buffers, o, l, |layout.metas|)
    decreases |sems|
  {
    if |sems| == 0 {
      return out, layout;
    }
    var step := ReadVertexData(rule, p, sems[0], buffers, out, layout);
    assert step.1.buffersRefOffsets == layout.buffersRefOffsets;
    o, l := ReadAttributes(rule, p, sems[1..], buffers, step.0, step.1);
    ReadAttributesStep(rule, p, sems, buffers, out, layout, step.0, step.1, o, l);
  }

  /** One turn of `ReadAttributes`: the first semantic's step, then the rest, make the whole. */
  lemma ReadAttributesStep(rule: AppendRule, p: GltfPrimitive, sems: seq<Semantic>, buffers: seq<seq<byte>>,
                           out: seq<byte>, layout: Layout, mid: seq<byte>, midLayout: Layout, o: seq<byte>, l: Layout)
    requires |sems| > 0 && |layout.metas| == |layout.offsets|
    requires Extends(mid, out)
    requires midLayout.indices == layout.indices && midLayout.indicesType == layout.indicesType
    requires midLayout.buffersRefOffsets == layout.buffersRefOffsets
    requires |midLayout.metas| == |layout.metas| + (if sems[0] in p.attributes then 1 else 0)
    requires |layout.offsets| <= |midLayout.offsets|
    requires midLayout.metas[..|layout.metas|] == layout.metas && midLayout.offsets[..|layout.offsets|] == layout.offsets
    requires sems[0] in p.attributes ==> MetaFor(rule, p, sems[0], buffers, mid, midLayout, |layout.metas|)
    requires Extends(o, mid)
    requires l.indices == midLayout.indices && l.indicesType == midLayout.indicesType
    requires l.buffersRefOffsets == midLayout.buffersRefOffsets
    requires |l.metas| == |midLayout.metas| + |Present(p, sems[1..])| && |midLayout.offsets| <= |l.offsets|
    requires l.metas[..|midLayout.metas|] == midLayout.metas && l.offsets[..|midLayout.offsets|] == midLayout.offsets
    requires MetasFrom(rule, p, sems[1..], buffers, o, l, |midLayout.metas|)
    ensures Extends(o, out)
    ensures l.indices == layout.indices && l.indicesType == layout.indicesType
    ensures l.buffersRefOffsets == layout.buffersRefOffsets
    ensures |l.metas| == |layout.metas| + |Present(p, sems)|
    ensures l.metas[..|layout.metas|] == layout.metas && l.offsets[..|layout.offsets|] == layout.offsets
    ensures MetasFrom(rule, p, sems, buffers, o, l, |layout.metas|)
  {
    PrefixTrans(out, mid, o);
    var n := |layout.metas|;
    assert l.metas[..n] == l.metas[..|midLayout.metas|][..n];
    assert l.offsets[..n] == l.offsets[..|midLayout.offsets|][..n];
    if sems[0] in p.attributes {
      MetaForKept(rule, p, sems[0], buffers, mid, o, midLayout, l, n);
      PresentMetas(rule, p, sems, buffers, n, o, l);
    } else {
      AbsentMetas(rule, p, sems, buffers, n, o, l);
    }
  }

  /** An absent first semantic adds no meta: the metas of `sems` are those of `sems[1..]`. */
  lemma AbsentMetas(rule: AppendRule, p: GltfPrimitive, sems: seq<Semantic>, buffers: seq<seq<byte>>, n: nat,
                    o: seq<byte>, l: Layout)
    requires |sems| > 0 && sems[0] !in p.attributes
    requires MetasFrom(rule, p, sems[1..], buffers, o, l, n)
    ensures MetasFrom(rule, p, sems, buffers, o, l, n)
  {
    assert Present(p, sems) == Present(p, sems[1..]);
  }

  /**
   * A present first semantic's meta at `n`, followed by the metas of
   * `sems[1..]` from `n + 1`, are the metas of `sems` from `n`.
   */
  lemma PresentMetas(rule: AppendRule, p: GltfPrimitive, sems: seq<Semantic>, buffers: seq<seq<byte>>, n: nat,
                     o: seq<byte>, l: Layout)
    requires |sems| > 0 && MetaFor(rule, p, sems[0], buffers, o, l, n)
    requires MetasFrom(rule, p, sems[1..], buffers, o, l, n + 1)
    ensures MetasFrom(rule, p, sems, buffers, o, l, n)
  {
    var present := Present(p, sems);
    assert present == [sems[0]] + Present(p, sems[1..]);
    forall j | 0 <= j < |present|
      ensures MetaFor(rule, p, present[j], buffers, o, l, n + j)
    {
      if j > 0 {
        assert present[j] == Present(p, sems[1..])[j - 1];
        assert n + j == n + 1 + (j - 1);
      }
    }
  }

  /** A meta stays true of the final output and layout when both only grow after it. */
  lemma MetaForKept(rule: AppendRule, p: GltfPrimitive, s: Semantic, buffers: seq<seq<byte>>,
                    o: seq<byte>, o2: seq<byte>, l: Layout, l2: Layout, i: nat)
    requires MetaFor(rule, p, s, buffers, o, l, i) && Extends(o2, o)
    requires |l.metas| <= |l2.metas| && l2.metas[..|l.metas|] == l.metas
    requires |l.offsets| <= |l2.offsets| && l2.offsets[..|l.offsets|] == l.offsets
    ensures MetaFor(rule, p, s, buffers, o2, l2, i)
  {
    assert l2.metas[i] == l2.metas[..|l.metas|][i];
    assert l2.offsets[i] == l2.offsets[..|l.offsets|][i];
    MetaForExtends(rule, p, s, buffers, o, o2, l, i);
  }

  /**
   * `prim` is what `load_meshes` makes of the checked primitive `p` as the
   * primitive numbered `index`, inside the packed output `data`: its bounds,
   * its material converted from the glTF material, its index part naming the accessor's count and type with the index bytes
   * at the recorded position, a consistent layout whose bound offsets copy
   * the meta offsets, and one meta per present attribute, in order.
   */
  predicate PrimitiveFrom(rule: AppendRule, prim: Primitive, p: GltfPrimitive, buffers: seq<seq<byte>>,
                          data: seq<byte>, index: nat)
  {
    Indexed(p) && Loadable(p, buffers)
    && prim.index == index && prim.aabb == p.bounds && prim.material == Material.FromGltf(p.material)
    && prim.layout.indices.count == p.indices.value.count
    && prim.layout.indicesType == IndexTypeOf(p.indices.value.dataType)
    && Placed(data, prim.layout.indices.index, AccessorBytes(p.indices.value, buffers, 1))
    && Consistent(prim.layout) && prim.layout.buffersRefOffsets == prim.layout.offsets
    && |prim.layout.metas| == |Present(p, ATTRIBUTE_ORDER)|
    && MetasFrom(rule, p, ATTRIBUTE_ORDER, buffers, data, prim.layout, 0)
  }

  lemma PrimitiveFromExtends(rule: AppendRule, prim: Primitive, p: GltfPrimitive, buffers: seq<seq<byte>>,
                             data: seq<byte>, data2: seq<byte>, index: nat)
    requires PrimitiveFrom(rule, prim, p, buffers, data, index) && Extends(data2, data)
    ensures PrimitiveFrom(rule, prim, p, buffers, data2, index)
  {
    PlacedExtends(data, data2, prim.layout.indices.index, AccessorBytes(p.indices.value, buffers, 1));
    MetasFromExtends(rule, p, ATTRIBUTE_ORDER, buffers, data, data2, prim.layout, 0);
  }

  /**
   * One primitive of `load_meshes`: a non-triangle primitive or one without
   * indices panics; otherwise its indices go at the current end of the
   * output, then the five attributes in order, and the layout's bound
   * offsets are refreshed from its meta offsets.
   */
  method LoadPrimitive(rule: AppendRule, p: GltfPrimitive, buffers: seq<seq<byte>>, out: seq<byte>, index: nat)
    returns (r: Option<(Primitive, seq<byte>)>)
    requires Loadable(p, buffers)
    ensures r.None? <==> !Indexed(p)
    ensures r.Some? ==>
              Extends(r.value.1, out) && r.value.0.layout.indices.index == |out|
              && PrimitiveFrom(rule, r.value.0, p, buffers, r.value.1, index)
  {
    if !p.triangles || p.indices.None? {
      return None;
    }
    var acc := p.indices.value;
    var ind, count, _ := ReadNoSparseBuffer(acc, buffers, 1);
    var o0 := out + ind;
    var l0 := SetIndices(Create(), |out|, count, acc.dataType);
    var o, l := ReadAttributes(rule, p, ATTRIBUTE_ORDER, buffers, o0, l0);
    PrefixOfPrefix(out, o0, o, ind);
    var prim := Primitive(index, RefreshBufferOffsets(l), Material.FromGltf(p.material), p.bounds);
    assert prim.layout.metas == l.metas && prim.layout.offsets == l.offsets;
    MetasFromLayout(rule, p, ATTRIBUTE_ORDER, buffers, o, l, prim.layout);
    r := Some((prim, o));
  }

  lemma PrefixOfPrefix(out: seq<byte>, o0: seq<byte>, o5: seq<byte>, ind: seq<byte>)
    requires o0 == out + ind && Extends(o5, o0)
    ensures Extends(o5, out) && Placed(o5, |out|, ind)
  {
    assert o5[..|out|] == o0[..|out|];
    assert o5[|out| .. |out| + |ind|] == o0[|out| .. |out| + |ind|];
  }

  /** `Mesh::new`: the union of the primitives' boxes, or the zero box when there are none. */
  function MeshBox(boxes: seq<Aabb.Box>): (r: Aabb.Box)
    ensures |boxes| == 0 ==> r == Aabb.ZERO_BOX
    ensures forall i :: 0 <= i < |boxes| ==> Aabb.Encloses(r, boxes[i])
  {
    var u := Aabb.Union(boxes);
    if u.Some? then u.value else Aabb.ZERO_BOX
  }

  function Boxes(prims: seq<Primitive>): (r: seq<Aabb.Box>)
    ensures |r| == |prims| && forall i :: 0 <= i < |prims| ==> r[i] == prims[i].aabb
  {
    seq(|prims|, i requires 0 <= i < |prims| => prims[i].aabb)
  }

  predicate MeshLoadable(ps: seq<GltfPrimitive>, buffers: seq<seq<byte>>)
  {
    forall k :: 0 <= k < |ps| ==> Loadable(ps[k], buffers)
  }

  predicate AllLoadable(doc: seq<seq<GltfPrimitive>>, buffers: seq<seq<byte>>)
  {
    forall m :: 0 <= m < |doc| ==> MeshLoadable(doc[m], buffers)
  }

  /** Primitives `ps[k]` for `k` in [0, n) are each loaded into `data` as number `next + k`. */
  predicate PrimitivesFrom(rule: AppendRule, prims: seq<Primitive>, ps: seq<GltfPrimitive>,
                           buffers: seq<seq<byte>>, data: seq<byte>, next: nat, n: nat)
    requires n <= |prims| && n <= |ps|
  {
    forall k :: 0 <= k < n ==> PrimitiveFrom(rule, prims[k], ps[k], buffers, data, next + k)
  }

  lemma PrimitivesFromExtends(rule: AppendRule, prims: seq<Primitive>, ps: seq<GltfPrimitive>,
                              buffers: seq<seq<byte>>, data: seq<byte>, data2: seq<byte>, next: nat, n: nat)
    requires n <= |prims| && n <= |ps|
    requires PrimitivesFrom(rule, prims, ps, buffers, data, next, n) && Extends(data2, data)
    ensures PrimitivesFrom(rule, prims, ps, buffers, data2, next, n)
  {
    forall k | 0 <= k < n
      ensures PrimitiveFrom(rule, prims[k], ps[k], buffers, data2, next + k)
    {
      PrimitiveFromExtends(rule, prims[k], ps[k], buffers, data, data2, next + k);
    }
  }

  /**
   * The inner loop of `load_meshes`: the primitives of one mesh in order,
   * numbered on from the running count `next`; it panics exactly when one of
   * them is not an indexed triangle list.
   */
  method LoadPrimitives(rule: AppendRule, ps: seq<GltfPrimitive>, buffers: seq<seq<byte>>, out: seq<byte>, next: nat)
    returns (r: Option<(seq<Primitive>, seq<byte>)>)
    requires MeshLoadable(ps, buffers)
    ensures r.None? <==> exists k :: 0 <= k < |ps| && !Indexed(ps[k])
    ensures r.Some? ==>
              |r.value.0| == |ps| && Extends(r.value.1, out)
              && PrimitivesFrom(rule, r.value.0, ps, buffers, r.value.1, next, |ps|)
  {
    var prims: seq<Primitive>, o := [], out;
    for k := 0 to |ps|
      invariant |prims| == k && Extends(o, out)
      invariant forall j :: 0 <= j < k ==> Indexed(ps[j])
      invariant PrimitivesFrom(rule, prims, ps, buffers, o, next, k)
    {
      var loaded := LoadPrimitive(rule, ps[k], buffers, o, next + k);
      if loaded.None? {
        return None;
      }
      var (prim, o2) := loaded.value;
      PrefixTrans(out, o, o2);
      PrimitivesFromExtends(rule, prims, ps, buffers, o, o2, next, k);
      PrimitivesSnoc(rule, prims, prim, ps, buffers, o2, next, k);
      prims, o := prims + [prim], o2;
    }
    r := Some((prims, o));
  }

  lemma PrimitivesSnoc(rule: AppendRule, prims: seq<Primitive>, prim: Primitive, ps: seq<GltfPrimitive>,
                       buffers: seq<seq<byte>>, data: seq<byte>, next: nat, k: nat)
    requires |prims| == k < |ps|
    requires PrimitivesFrom(rule, prims, ps, buffers, data, next, k)
    requires PrimitiveFrom(rule, prim, ps[k], buffers, data, next + k)
    ensures PrimitivesFrom(rule, prims + [prim], ps, buffers, data, next, k + 1)
  {
    assert forall j :: 0 <= j < k ==> (prims + [prim])[j] == prims[j];
  }

  /** Total primitive count of a run of meshes. */
  function PrimitiveTotal(doc: seq<seq<GltfPrimitive>>): nat
  {
    if |doc| == 0 then 0 else |doc[0]| + PrimitiveTotal(doc[1..])
  }

  /** Adding a mesh at the end adds its primitives to the total. */
  lemma {:induction false} PrimitiveTotalSnoc(doc: seq<seq<GltfPrimitive>>, last: seq<GltfPrimitive>)
    ensures PrimitiveTotal(doc + [last]) == PrimitiveTotal(doc) + |last|
    decreases |doc|
  {
    if |doc| == 0 {
      assert (doc + [last])[1..] == [];
    } else {
      assert (doc + [last])[1..] == doc[1..] + [last];
      PrimitiveTotalSnoc(doc[1..], last);
    }
  }

  /**
   * `mesh` is what `load_meshes` builds from the document mesh `ps` when
   * `first` primitives came before it: one primitive per glTF primitive,
   * each loaded into `data` and numbered on from `first`, and a box
   * containing all their bounds.
   */
  predicate LoadedFrom(rule: AppendRule, mesh: Mesh, ps: seq<GltfPrimitive>, buffers: seq<seq<byte>>,
                       data: seq<byte>, first: nat)
  {
    |mesh.primitives| == |ps|
    && PrimitivesFrom(rule, mesh.primitives, ps, buffers, data, first, |ps|)
    && forall k :: 0 <= k < |ps| ==> Aabb.Encloses(mesh.aabb, ps[k].bounds)
  }

  /** One pass of the outer loop of `load_meshes`: the mesh's primitives, then `Mesh::new`. */
  method LoadMesh(rule: AppendRule, ps: seq<GltfPrimitive>, buffers: seq<seq<byte>>, out: seq<byte>, first: nat)
    returns (r: Option<(Mesh, seq<byte>)>)
    requires MeshLoadable(ps, buffers)
    ensures r.None? <==> exists k :: 0 <= k < |ps| && !Indexed(ps[k])
    ensures r.Some? ==> Extends(r.value.1, out) && LoadedFrom(rule, r.value.0, ps, buffers, r.value.1, first)
  {
    var loaded := LoadPrimitives(rule, ps, buffers, out, first);
    if loaded.None? {
      return None;
    }
    var (prims, o) := loaded.value;
    var mesh := Mesh(prims, MeshBox(Boxes(prims)));
    assert forall k :: 0 <= k < |prims| ==> Aabb.Encloses(mesh.aabb, Boxes(prims)[k]);
    assert forall k :: 0 <= k < |ps| ==> prims[k].aabb == ps[k].bounds;
    r := Some((mesh, o));
  }

  /** Meshes `m` in [0, n) are each loaded from `doc[m]` into `data`, numbered after the meshes before them. */
  predicate MeshesFrom(rule: AppendRule, meshes: seq<Mesh>, doc: seq<seq<GltfPrimitive>>,
                       buffers: seq<seq<byte>>, data: seq<byte>, n: nat)
    requires n <= |meshes| && n <= |doc|
  {
    forall m :: 0 <= m < n ==> LoadedFrom(rule, meshes[m], doc[m], buffers, data, PrimitiveTotal(doc[..m]))
  }

  lemma MeshesFromExtends(rule: AppendRule, meshes: seq<Mesh>, doc: seq<seq<GltfPrimitive>>,
                          buffers: seq<seq<byte>>, data: seq<byte>, data2: seq<byte>, n: nat)
    requires n <= |meshes| && n <= |doc|
    requires MeshesFrom(rule, meshes, doc, buffers, data, n) && Extends(data2, data)
    ensures MeshesFrom(rule, meshes, doc, buffers, data2, n)
  {
    forall m | 0 <= m < n
      ensures LoadedFrom(rule, meshes[m], doc[m], buffers, data2, PrimitiveTotal(doc[..m]))
    {
      var ps := doc[m];
      PrimitivesFromExtends(rule, meshes[m].primitives, ps, buffers, data, data2, PrimitiveTotal(doc[..m]), |ps|);
    }
  }

  lemma MeshesSnoc(rule: AppendRule, meshes: seq<Mesh>, mesh: Mesh, doc: seq<seq<GltfPrimitive>>,
                   buffers: seq<seq<byte>>, data: seq<byte>, m: nat)
    requires |meshes| == m < |doc|
    requires MeshesFrom(rule, meshes, doc, buffers, data, m)
    requires LoadedFrom(rule, mesh, doc[m], buffers, data, PrimitiveTotal(doc[..m]))
    ensures MeshesFrom(rule, meshes + [mesh], doc, buffers, data, m + 1)
  {
    assert forall j :: 0 <= j < m ==> (meshes + [mesh])[j] == meshes[j];
  }

  /** Some primitive of the document is not an indexed triangle list. */
  predicate UnindexedIn(doc: seq<seq<GltfPrimitive>>)
  {
    exists m, k :: 0 <= m < |doc| && 0 <= k < |doc[m]| && !Indexed(doc[m][k])
  }

  /**
   * `load_meshes`: it panics exactly when some primitive is not an indexed
   * triangle list; otherwise one mesh per document mesh, in order, every
   * primitive loaded into the one packed buffer, and the running
   * `primitive_count` numbering the primitives 0, 1, 2, … across all meshes,
   * so mesh `m` starts at the number of primitives before it.
   */
  method LoadMeshes(rule: AppendRule, doc: seq<seq<GltfPrimitive>>, buffers: seq<seq<byte>>)
    returns (r: Option<Meshes>)
    requires AllLoadable(doc, buffers)
    ensures r.None? <==> UnindexedIn(doc)
    ensures r.Some? ==>
              |r.value.meshes| == |doc| && MeshesFrom(rule, r.value.meshes, doc, buffers, r.value.data, |doc|)
  {
    var meshes: seq<Mesh>, data: seq<byte> := [], [];
    var count := 0;
    assert doc[..0] == [];
    for m := 0 to |doc|
      invariant |meshes| == m && count == PrimitiveTotal(doc[..m])
      invariant forall j, k :: 0 <= j < m && 0 <= k < |doc[j]| ==> Indexed(doc[j][k])
      invariant MeshesFrom(rule, meshes, doc, buffers, data, m)
    {
      var loaded := LoadMesh(rule, doc[m], buffers, data, count);
      if loaded.None? {
        return None;
      }
      var (mesh, o) := loaded.value;
      MeshesFromExtends(rule, meshes, doc, buffers, data, o, m);
      MeshesSnoc(rule, meshes, mesh, doc, buffers, o, m);
      assert doc[..m + 1] == doc[..m] + [doc[m]];
      PrimitiveTotalSnoc(doc[..m], doc[m]);
      meshes, data := meshes + [mesh], o;
      count := count + |doc[m]|;
    }
    r := Some(Meshes(meshes, data));
  }
}
