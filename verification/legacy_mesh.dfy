/**
 * The fixed interleaved vertex of the older renderer: field offsets, the
 * single binding and the five attribute descriptions.
 */
module LegacyVertex {
  import opened VertexLayout

  /** Byte sizes of the fields in declaration order: position, normal, tex_coord, weight, joint. */
  const FIELD_BYTES: seq<nat> := [3 * 4, 3 * 4, 2 * 4, 4 * 4, 4 * 4]

  const POS_OFFSET: nat := 0
  const NORMAL_OFFSET: nat := POS_OFFSET + 3 * 4
  const TEX_COORD_OFFSET: nat := NORMAL_OFFSET + 3 * 4
  const WEIGHT_OFFSET: nat := TEX_COORD_OFFSET + 2 * 4
  const JOINT_OFFSET: nat := WEIGHT_OFFSET + 4 * 4

  /** `size_of::<Vertex>()`: five fields of 4-byte scalars, no padding. */
  const VERTEX_SIZE: nat := 64

  /** Bytes taken by the fields before field `i`. */
  function FieldOffset(i: nat): (r: nat)
    requires i <= |FIELD_BYTES|
    decreases i
  {
    if i == 0 then 0 else FieldOffset(i - 1) + FIELD_BYTES[i - 1]
  }

  const OFFSETS: seq<nat> := [POS_OFFSET, NORMAL_OFFSET, TEX_COORD_OFFSET, WEIGHT_OFFSET, JOINT_OFFSET]

  /** Each offset is the previous one plus the previous field's size; the stride closes the last field. */
  lemma OffsetsFollowFields()
    ensures forall i :: 0 <= i < 5 ==> OFFSETS[i] == FieldOffset(i)
    ensures OFFSETS == [0, 12, 24, 32, 48]
    ensures VERTEX_SIZE == FieldOffset(5) == JOINT_OFFSET + 16
  {
    assert FieldOffset(1) == 12 && FieldOffset(2) == 24 && FieldOffset(3) == 32;
    assert FieldOffset(4) == 48 && FieldOffset(5) == 64;
  }

  function BindingDescs(): (r: seq<Binding>)
    ensures |r| == 1 && r[0].binding == 0 && r[0].stride == VERTEX_SIZE
  {
    [Binding(0, VERTEX_SIZE)]
  }

  /**
   * The attribute descriptions: locations 0..4 in field order, all on
   * binding 0.  The joint attribute is declared as a 4-float format over
   * a `[u32; 4]` field; only its size agrees with the field.
   */
  function AttributeDescs(): (r: seq<Attribute>)
    ensures |r| == 5
    ensures forall i :: 0 <= i < 5 ==> r[i].binding == 0 && r[i].location == i && r[i].offset == OFFSETS[i]
    ensures forall i :: 0 <= i < 5 ==> SizedFormat(r[i].format) && FormatSize(r[i].format) == FIELD_BYTES[i]
  {
    [ Attribute(0, 0, POS_OFFSET, R32G32B32_SFLOAT),
      Attribute(0, 1, NORMAL_OFFSET, R32G32B32_SFLOAT),
      Attribute(0, 2, TEX_COORD_OFFSET, R32G32_SFLOAT),
      Attribute(0, 3, WEIGHT_OFFSET, R32G32B32A32_SFLOAT),
      Attribute(0, 4, JOINT_OFFSET, R32G32B32A32_SFLOAT) ]
  }

  /** Consecutive attributes tile the vertex exactly: each ends where the next begins. */
  lemma AttributesTileVertex()
    ensures var a := AttributeDescs();
      (forall i :: 0 <= i < 4 ==> a[i].offset + FormatSize(a[i].format) == a[i + 1].offset)
      && a[4].offset + FormatSize(a[4].format) == BindingDescs()[0].stride
  {
  }
}

/**
 * Mesh loading of the older renderer: every primitive with positions
 * becomes interleaved vertices appended to one vertex list and its indices
 * appended to one index list, recording (byte offset, count) for each.
 */
module LegacyMesh {
  import opened Wrappers
  import Aabb
  import LegacyVertex

  datatype V2 = V2(x: real, y: real)
  datatype V3 = V3(x: real, y: real, z: real)
  datatype V4 = V4(x: real, y: real, z: real, w: real)
  datatype Joints = Joints(a: nat, b: nat, c: nat, d: nat)

  datatype Vertex = Vertex(position: V3, normal: V3, texCoord: V2, weight: V4, joint: Joints)

  const ZERO3: V3 := V3(0.0, 0.0, 0.0)
  const ZERO2: V2 := V2(0.0, 0.0)
  const ZERO4: V4 := V4(0.0, 0.0, 0.0, 0.0)
  const NO_JOINTS: Joints := Joints(0, 0, 0, 0)

  /**
   * One glTF primitive as its reader yields it; `positionCount` is the
   * POSITION accessor's count, and `material` the value the primitive's
   * material converts into, kept as it is.
   */
  datatype SourcePrimitive = SourcePrimitive(
    positions: Option<seq<V3>>,
    positionCount: nat,
    normals: seq<V3>,
    texCoords: seq<V2>,
    weights: seq<V4>,
    joints: seq<Joints>,
    indices: Option<seq<nat>>,
    material: nat,
    bounds: Aabb.Box)

  /** (byte offset, element count) into the shared buffers. */
  datatype Part = Part(offset: nat, count: nat)

  datatype PrimitiveData = PrimitiveData(index: nat, indices: Option<Part>, vertices: Part, material: nat, aabb: Aabb.Box)
  datatype Mesh = Mesh(primitives: seq<PrimitiveData>, aabb: Aabb.Box)

  datatype LoadError = CountMismatch | NoMeshData | NoIndices | EmptyMesh

  function Get<T>(s: seq<T>, i: nat, default: T): T
  {
    if i < |s| then s[i] else default
  }

  /** The vertices of a primitive: each optional attribute falls back to zeros where it is missing. */
  function BuildVertices(p: SourcePrimitive, positions: seq<V3>): (r: seq<Vertex>)
    ensures |r| == |positions|
    ensures forall i :: 0 <= i < |r| ==>
              r[i].position == positions[i]
              && (r[i].normal == if i < |p.normals| then p.normals[i] else ZERO3)
              && (r[i].texCoord == if i < |p.texCoords| then p.texCoords[i] else ZERO2)
              && (r[i].weight == if i < |p.weights| then p.weights[i] else ZERO4)
              && (r[i].joint == if i < |p.joints| then p.joints[i] else NO_JOINTS)
  {
    seq(|positions|, i requires 0 <= i < |positions| =>
      Vertex(positions[i], Get(p.normals, i, ZERO3), Get(p.texCoords, i, ZERO2),
             Get(p.weights, i, ZERO4), Get(p.joints, i, NO_JOINTS)))
  }

  /** What the loader has accumulated: all vertices, all indices and the next primitive number. */
  datatype State = State(vertices: seq<Vertex>, indices: seq<nat>, next: nat)

  function VertexTotal(ps: seq<PrimitiveData>): nat
  {
    if |ps| == 0 then 0 else VertexTotal(ps[..|ps| - 1]) + ps[|ps| - 1].vertices.count
  }

  function IndexTotal(ps: seq<PrimitiveData>): nat
  {
    if |ps| == 0 then 0
    else IndexTotal(ps[..|ps| - 1]) + (if ps[|ps| - 1].indices.Some? then ps[|ps| - 1].indices.value.count else 0)
  }

  /** The primitives the loader keeps: those with positions, in order. */
  function Kept(ps: seq<SourcePrimitive>): (r: seq<SourcePrimitive>)
    ensures |r| <= |ps|
    ensures forall k :: 0 <= k < |r| ==> r[k].positions.Some?
  {
    if |ps| == 0 then [] else (if ps[0].positions.Some? then [ps[0]] else []) + Kept(ps[1..])
  }

  /** The indices a primitive adds to the shared index list. */
  function IndexContribution(p: SourcePrimitive): nat
  {
    if p.positions.Some? && p.indices.Some? then |p.indices.value| else 0
  }

  /** The indices a run of primitives adds to the shared index list. */
  function IndexCount(ps: seq<SourcePrimitive>): nat
  {
    if |ps| == 0 then 0 else IndexContribution(ps[0]) + IndexCount(ps[1..])
  }

  /** No kept primitive carries an index. */
  predicate NoIndexData(ps: seq<SourcePrimitive>)
  {
    forall k :: 0 <= k < |ps| ==> IndexContribution(ps[k]) == 0
  }

  /** The vertices a primitive adds to the shared vertex list: none when it has no positions. */
  function AddedVertices(p: SourcePrimitive): seq<Vertex>
  {
    if p.positions.Some? then BuildVertices(p, p.positions.value) else []
  }

  /** The indices a primitive adds to the shared index list. */
  function AddedIndices(p: SourcePrimitive): seq<nat>
  {
    if p.positions.Some? && p.indices.Some? then p.indices.value else []
  }

  /** The vertices the kept primitives of `ps` add to the shared vertex list, in order. */
  function VerticesOf(ps: seq<SourcePrimitive>): seq<Vertex>
  {
    if |ps| == 0 then [] else AddedVertices(ps[0]) + VerticesOf(ps[1..])
  }

  /** The indices the kept primitives of `ps` add to the shared index list, in order. */
  function IndicesOf(ps: seq<SourcePrimitive>): seq<nat>
  {
    if |ps| == 0 then [] else AddedIndices(ps[0]) + IndicesOf(ps[1..])
  }

  /**
   * One primitive: skipped when it has no positions; a count mismatch is
   * an error; otherwise its indices go after all earlier indices (byte
   * offset 4 × earlier count) and its vertices after all earlier vertices
   * (byte offset 64 × earlier count).
   */
  function LoadPrimitive(p: SourcePrimitive, st: State): (r: Result<(Option<PrimitiveData>, State)>)
    ensures r.Err? <==> Mismatch(p)
    ensures r.Err? ==> r.error == CountMismatch
    ensures r.Ok? ==> r.value.1 == State(st.vertices + AddedVertices(p), st.indices + AddedIndices(p),
                                         st.next + (if p.positions.Some? then 1 else 0))
    ensures r.Ok? ==> (r.value.0.Some? <==> p.positions.Some?)
    ensures r.Ok? && r.value.0.Some? ==> FirstLoaded(r.value.0.value, p, st, r.value.1)
  {
    if p.positions.None? then Ok((None, st))
    else if p.positionCount != |p.positions.value| then Err(CountMismatch)
    else
      RecordLoaded(p, st);
      Ok((Some(Record(p, st)), State(st.vertices + AddedVertices(p), st.indices + AddedIndices(p), st.next + 1)))
  }

  /** The record of a positioned primitive loaded in state `st`: its parts start at the old ends of the lists. */
  function Record(p: SourcePrimitive, st: State): PrimitiveData
  {
    var ind := if p.indices.Some? then Some(Part(|st.indices| * 4, |p.indices.value|)) else None;
    PrimitiveData(st.next, ind, Part(|st.vertices| * LegacyVertex.VERTEX_SIZE, p.positionCount), p.material, p.bounds)
  }

  lemma RecordLoaded(p: SourcePrimitive, st: State)
    requires p.positions.Some? && p.positionCount == |p.positions.value|
    ensures FirstLoaded(Record(p, st), p, st, State(st.vertices + AddedVertices(p), st.indices + AddedIndices(p), st.next + 1))
  {
    SliceOfAppend(st.vertices, AddedVertices(p));
    SliceOfAppend(st.indices, AddedIndices(p));
  }

  datatype Result<T> = Ok(value: T) | Err(error: LoadError)

  /**
   * `d`, loaded from `p` in state `st` into `st1`: it takes the next number,
   * records `p`, starts its parts at the old ends of the lists and names
   * `p`'s data in `st1`.
   */
  predicate FirstLoaded(d: PrimitiveData, p: SourcePrimitive, st: State, st1: State)
  {
    d.index == st.next && Describes(d, p)
    && d.vertices.offset == LegacyVertex.VERTEX_SIZE * |st.vertices|
    && (d.indices.Some? ==> d.indices.value.offset == 4 * |st.indices|)
    && PartHolds(d, p, st1)
  }

  /**
   * What loading the primitives `ps` from state `st` promises of its output
   * `out` and final state `st2`: one output per kept primitive, numbered
   * on from `st.next`; the shared lists grow by exactly the vertices and
   * the indices of the kept primitives, in order.
   */
  predicate Grows(ps: seq<SourcePrimitive>, st: State, out: seq<PrimitiveData>, st2: State)
  {
    |out| == |Kept(ps)| && st2.next == st.next + |out|
    && Appends(ps, st, st2)
    && |VerticesOf(ps)| == VertexTotal(out) && |IndicesOf(ps)| == IndexTotal(out) == IndexCount(ps)
    && (forall k :: 0 <= k < |out| ==> out[k].index == st.next + k)
  }

  /** The shared lists of `st2` are those of `st` followed by the vertices and indices of the kept primitives of `ps`. */
  predicate Appends(ps: seq<SourcePrimitive>, st: State, st2: State)
  {
    st2.vertices == st.vertices + VerticesOf(ps) && st2.indices == st.indices + IndicesOf(ps)
  }

  /** `d` records the kept primitive `p`: its box, its material, its vertex count and its index count. */
  predicate Describes(d: PrimitiveData, p: SourcePrimitive)
  {
    d.aabb == p.bounds && d.material == p.material && d.vertices.count == p.positionCount
    && (d.indices.Some? <==> p.indices.Some?)
    && (d.indices.Some? ==> d.indices.value.count == |p.indices.value|)
  }

  /** Output `k` records the `k`-th kept primitive. */
  predicate Follows(ps: seq<SourcePrimitive>, out: seq<PrimitiveData>)
  {
    |out| == |Kept(ps)| && forall k :: 0 <= k < |out| ==> Describes(out[k], Kept(ps)[k])
  }

  /**
   * Each primitive's vertex part starts at the byte length of every earlier
   * vertex and its index part at 4 × every earlier index.
   */
  predicate OffsetsFollow(st: State, out: seq<PrimitiveData>)
  {
    (forall k :: 0 <= k < |out| ==>
       out[k].vertices.offset == LegacyVertex.VERTEX_SIZE * (|st.vertices| + VertexTotal(out[..k])))
    && (forall k :: 0 <= k < |out| && out[k].indices.Some? ==>
          out[k].indices.value.offset == 4 * (|st.indices| + IndexTotal(out[..k])))
  }

  /**
   * The parts `d` records name `p`'s data in the lists of `st`: its vertex
   * part holds the vertices built from `p`, and its index part `p`'s indices.
   */
  predicate PartHolds(d: PrimitiveData, p: SourcePrimitive, st: State)
  {
    var v := d.vertices.offset / LegacyVertex.VERTEX_SIZE;
    p.positions.Some? && v + d.vertices.count <= |st.vertices|
    && st.vertices[v..v + d.vertices.count] == BuildVertices(p, p.positions.value)
    && (d.indices.Some? ==>
          var i := d.indices.value.offset / 4;
          p.indices.Some? && i + d.indices.value.count <= |st.indices|
          && st.indices[i..i + d.indices.value.count] == p.indices.value)
  }

  /** Output `k` names the data of the `k`-th kept primitive in the lists of `st`. */
  predicate Located(ps: seq<SourcePrimitive>, out: seq<PrimitiveData>, st: State)
  {
    |out| == |Kept(ps)| && forall k :: 0 <= k < |out| ==> PartHolds(out[k], Kept(ps)[k], st)
  }

  predicate LoadedWell(ps: seq<SourcePrimitive>, st: State, out: seq<PrimitiveData>, st2: State)
  {
    Grows(ps, st, out, st2) && Follows(ps, out) && OffsetsFollow(st, out) && Located(ps, out, st2)
  }

  predicate Mismatch(p: SourcePrimitive)
  {
    p.positions.Some? && p.positionCount != |p.positions.value|
  }

  /** The primitives of one mesh, in order, threading the shared lists through. */
  function LoadPrimitives(ps: seq<SourcePrimitive>, st: State): (r: Result<(seq<PrimitiveData>, State)>)
    ensures r.Ok? ==> LoadedWell(ps, st, r.value.0, r.value.1)
    ensures r.Err? ==> r.error == CountMismatch
    decreases |ps|
  {
    if |ps| == 0 then Ok(([], st))
    else
      match LoadPrimitive(ps[0], st)
      case Err(e) => Err(e)
      case Ok((d, st1)) =>
        match LoadPrimitives(ps[1..], st1)
        case Err(e) => Err(e)
        case Ok((rest, st2)) =>
          LoadStep(ps, st, d, st1, rest, st2);
          Ok((if d.Some? then [d.value] + rest else rest, st2))
  }

  /** Loading a mesh's primitives fails exactly when one of them has a count mismatch. */
  lemma {:induction false} LoadPrimitivesFails(ps: seq<SourcePrimitive>, st: State)
    ensures LoadPrimitives(ps, st).Err? <==> exists k :: 0 <= k < |ps| && Mismatch(ps[k])
    decreases |ps|
  {
    if |ps| > 0 {
      var first := LoadPrimitive(ps[0], st);
      if first.Ok? {
        var st1 := first.value.1;
        LoadPrimitivesFails(ps[1..], st1);
        if exists k :: 0 <= k < |ps[1..]| && Mismatch(ps[1..][k]) {
          var k :| 0 <= k < |ps[1..]| && Mismatch(ps[1..][k]);
          assert Mismatch(ps[k + 1]);
        }
        if exists k :: 0 <= k < |ps| && Mismatch(ps[k]) {
          var k :| 0 <= k < |ps| && Mismatch(ps[k]);
          assert k > 0 && Mismatch(ps[1..][k - 1]);
        }
      }
    }
  }

  lemma VertexTotalCons(d: PrimitiveData, rest: seq<PrimitiveData>)
    ensures VertexTotal([d] + rest) == d.vertices.count + VertexTotal(rest)
    ensures IndexTotal([d] + rest) == (if d.indices.Some? then d.indices.value.count else 0) + IndexTotal(rest)
    decreases |rest|
  {
    if |rest| > 0 {
      assert ([d] + rest)[..|rest|] == [d] + rest[..|rest| - 1];
      VertexTotalCons(d, rest[..|rest| - 1]);
    } else {
      assert [d] + rest == [d];
      assert [d][..0] == [];
    }
  }

  lemma {:induction false} LoadStep(ps: seq<SourcePrimitive>, st: State, d: Option<PrimitiveData>, st1: State,
                                    rest: seq<PrimitiveData>, st2: State)
    requires |ps| > 0
    requires LoadPrimitive(ps[0], st) == Ok((d, st1))
    requires LoadedWell(ps[1..], st1, rest, st2)
    ensures LoadedWell(ps, st, if d.Some? then [d.value] + rest else rest, st2)
  {
    if d.Some? {
      assert Describes(d.value, ps[0]) && !Mismatch(ps[0]);
    }
    GrowsStep(ps, st, d, st1, rest, st2);
    FollowsStep(ps, st, d, st1, rest);
    LocatedStep(ps, st, d, st1, rest, st2);
    if d.Some? {
      OffsetsStep(st, d.value, st1, rest);
    }
  }

  lemma {:induction false} GrowsStep(ps: seq<SourcePrimitive>, st: State, d: Option<PrimitiveData>, st1: State,
                                     rest: seq<PrimitiveData>, st2: State)
    requires |ps| > 0
    requires st1.vertices == st.vertices + AddedVertices(ps[0]) && st1.indices == st.indices + AddedIndices(ps[0])
    requires (d.Some? <==> ps[0].positions.Some?) && st1.next == st.next + (if d.Some? then 1 else 0)
    requires d.Some? ==> d.value.index == st.next && d.value.vertices.count == |AddedVertices(ps[0])|
                         && (if d.value.indices.Some? then d.value.indices.value.count else 0) == |AddedIndices(ps[0])|
    requires Grows(ps[1..], st1, rest, st2)
    ensures Grows(ps, st, if d.Some? then [d.value] + rest else rest, st2)
  {
    AppendsStep(ps, st, st1, st2);
    match d
    case Some(d0) => GrowsCons(ps, st, d0, st1, rest, st2);
    case None =>
      assert Kept(ps) == Kept(ps[1..]) && IndexCount(ps) == IndexCount(ps[1..]);
      assert VerticesOf(ps) == VerticesOf(ps[1..]) && IndicesOf(ps) == IndicesOf(ps[1..]);
  }

  lemma GrowsCons(ps: seq<SourcePrimitive>, st: State, d: PrimitiveData, st1: State,
                  rest: seq<PrimitiveData>, st2: State)
    requires |ps| > 0 && ps[0].positions.Some?
    requires st1.next == st.next + 1 && d.index == st.next
    requires d.vertices.count == |AddedVertices(ps[0])|
    requires (if d.indices.Some? then d.indices.value.count else 0) == |AddedIndices(ps[0])|
    requires Appends(ps, st, st2)
    requires Grows(ps[1..], st1, rest, st2)
    ensures Grows(ps, st, [d] + rest, st2)
  {
    assert Kept(ps) == [ps[0]] + Kept(ps[1..]);
    assert IndexCount(ps) == IndexContribution(ps[0]) + IndexCount(ps[1..]);
    assert VerticesOf(ps) == AddedVertices(ps[0]) + VerticesOf(ps[1..]);
    assert IndicesOf(ps) == AddedIndices(ps[0]) + IndicesOf(ps[1..]);
    VertexTotalCons(d, rest);
  }

  lemma AppendsStep(ps: seq<SourcePrimitive>, st: State, st1: State, st2: State)
    requires |ps| > 0
    requires st1.vertices == st.vertices + AddedVertices(ps[0]) && st1.indices == st.indices + AddedIndices(ps[0])
    requires Appends(ps[1..], st1, st2)
    ensures Appends(ps, st, st2)
  {
    AppendAssoc(st.vertices, AddedVertices(ps[0]), VerticesOf(ps[1..]));
    AppendAssoc(st.indices, AddedIndices(ps[0]), IndicesOf(ps[1..]));
  }

  lemma SliceOfAppend<T>(a: seq<T>, b: seq<T>)
    ensures (a + b)[|a|..|a| + |b|] == b
  {
  }

  lemma PrefixOfAppend<T>(a: seq<T>, b: seq<T>)
    ensures (a + b)[..|a|] == a
  {
  }

  lemma AppendAssoc<T>(a: seq<T>, b: seq<T>, c: seq<T>)
    ensures (a + b) + c == a + (b + c)
  {
  }

  /** A part that names its data in the lists of `st1` still does once those lists are extended. */
  lemma PartHoldsExtends(d: PrimitiveData, p: SourcePrimitive, st1: State, st2: State)
    requires PartHolds(d, p, st1)
    requires |st1.vertices| <= |st2.vertices| && st2.vertices[..|st1.vertices|] == st1.vertices
    requires |st1.indices| <= |st2.indices| && st2.indices[..|st1.indices|] == st1.indices
    ensures PartHolds(d, p, st2)
  {
    var v := d.vertices.offset / LegacyVertex.VERTEX_SIZE;
    SlicePrefix(st2.vertices, |st1.vertices|, v, v + d.vertices.count);
    if d.indices.Some? {
      var i := d.indices.value.offset / 4;
      SlicePrefix(st2.indices, |st1.indices|, i, i + d.indices.value.count);
    }
  }

  lemma SlicePrefix<T>(s: seq<T>, n: nat, i: nat, j: nat)
    requires i <= j <= n <= |s|
    ensures s[i..j] == s[..n][i..j]
  {
  }

  lemma {:induction false} LocatedStep(ps: seq<SourcePrimitive>, st: State, d: Option<PrimitiveData>, st1: State,
                                       rest: seq<PrimitiveData>, st2: State)
    requires |ps| > 0
    requires LoadPrimitive(ps[0], st) == Ok((d, st1))
    requires Appends(ps[1..], st1, st2) && Located(ps[1..], rest, st2)
    ensures Located(ps, if d.Some? then [d.value] + rest else rest, st2)
  {
    assert ps == [ps[0]] + ps[1..];
    PrefixOfAppend(st1.vertices, VerticesOf(ps[1..]));
    PrefixOfAppend(st1.indices, IndicesOf(ps[1..]));
    match d
    case Some(d0) => LocatedCons(ps[0], d0, ps[1..], rest, st1, st2);
    case None => assert Kept(ps) == Kept(ps[1..]);
  }

  /** A kept primitive whose parts name its data, in front of a located rest. */
  lemma LocatedCons(p: SourcePrimitive, d: PrimitiveData, ps: seq<SourcePrimitive>, rest: seq<PrimitiveData>,
                    st1: State, st2: State)
    requires PartHolds(d, p, st1)
    requires |st1.vertices| <= |st2.vertices| && st2.vertices[..|st1.vertices|] == st1.vertices
    requires |st1.indices| <= |st2.indices| && st2.indices[..|st1.indices|] == st1.indices
    requires Located(ps, rest, st2)
    ensures Located([p] + ps, [d] + rest, st2)
  {
    PartHoldsExtends(d, p, st1, st2);
    assert ([p] + ps)[1..] == ps;
    var out, kept := [d] + rest, Kept([p] + ps);
    assert kept == [p] + Kept(ps);
    forall k | 0 <= k < |out|
      ensures PartHolds(out[k], kept[k], st2)
    {
      if k > 0 {
        assert out[k] == rest[k - 1] && kept[k] == Kept(ps)[k - 1];
      }
    }
  }

  lemma {:induction false} FollowsStep(ps: seq<SourcePrimitive>, st: State, d: Option<PrimitiveData>, st1: State,
                                       rest: seq<PrimitiveData>)
    requires |ps| > 0
    requires d.Some? <==> ps[0].positions.Some?
    requires d.Some? ==> Describes(d.value, ps[0])
    requires Follows(ps[1..], rest)
    ensures Follows(ps, if d.Some? then [d.value] + rest else rest)
  {
    match d
    case Some(d0) => FollowsCons(ps, d0, rest);
    case None => assert Kept(ps) == Kept(ps[1..]);
  }

  lemma FollowsCons(ps: seq<SourcePrimitive>, d: PrimitiveData, rest: seq<PrimitiveData>)
    requires |ps| > 0 && ps[0].positions.Some? && Describes(d, ps[0])
    requires Follows(ps[1..], rest)
    ensures Follows(ps, [d] + rest)
  {
    var kept, out := Kept(ps), [d] + rest;
    assert kept == [ps[0]] + Kept(ps[1..]);
    forall k | 0 <= k < |out|
      ensures Describes(out[k], kept[k])
    {
      if k > 0 {
        assert out[k] == rest[k - 1] && kept[k] == Kept(ps[1..])[k - 1];
      }
    }
  }

  /** Offsets carry over when a primitive's parts start at the old ends and the lists grow by its counts. */
  lemma {:induction false} OffsetsStep(st: State, d: PrimitiveData, st1: State, rest: seq<PrimitiveData>)
    requires d.vertices.offset == LegacyVertex.VERTEX_SIZE * |st.vertices|
    requires |st1.vertices| == |st.vertices| + d.vertices.count
    requires d.indices.Some? ==> d.indices.value.offset == 4 * |st.indices|
    requires |st1.indices| == |st.indices| + (if d.indices.Some? then d.indices.value.count else 0)
    requires OffsetsFollow(st1, rest)
    ensures OffsetsFollow(st, [d] + rest)
  {
    var out := [d] + rest;
    forall k | 0 <= k < |out|
      ensures out[k].vertices.offset == LegacyVertex.VERTEX_SIZE * (|st.vertices| + VertexTotal(out[..k]))
      ensures out[k].indices.Some? ==> out[k].indices.value.offset == 4 * (|st.indices| + IndexTotal(out[..k]))
    {
      if k == 0 {
        assert out[..0] == [];
      } else {
        assert out[k] == rest[k - 1];
        assert out[..k] == [d] + rest[..k - 1];
        VertexTotalCons(d, rest[..k - 1]);
      }
    }
  }

  // ---------------------------------------------------------------------
  // Whole documents

  /** The meshes' lists laid end to end. */
  function Concat<T>(groups: seq<seq<T>>): (r: seq<T>)
  {
    if |groups| == 0 then [] else groups[0] + Concat(groups[1..])
  }

  lemma {:induction false} KeptAppend(a: seq<SourcePrimitive>, b: seq<SourcePrimitive>)
    ensures Kept(a + b) == Kept(a) + Kept(b)
    ensures IndexCount(a + b) == IndexCount(a) + IndexCount(b)
    decreases |a|
  {
    if |a| == 0 {
      assert a + b == b;
    } else {
      assert (a + b)[1..] == a[1..] + b;
      KeptAppend(a[1..], b);
    }
  }

  lemma {:induction false} VerticesAppend(a: seq<SourcePrimitive>, b: seq<SourcePrimitive>)
    ensures VerticesOf(a + b) == VerticesOf(a) + VerticesOf(b)
    decreases |a|
  {
    if |a| == 0 {
      assert a + b == b;
    } else {
      assert (a + b)[0] == a[0] && (a + b)[1..] == a[1..] + b;
      VerticesAppend(a[1..], b);
    }
  }

  lemma {:induction false} IndicesAppend(a: seq<SourcePrimitive>, b: seq<SourcePrimitive>)
    ensures IndicesOf(a + b) == IndicesOf(a) + IndicesOf(b)
    decreases |a|
  {
    if |a| == 0 {
      assert a + b == b;
    } else {
      assert (a + b)[0] == a[0] && (a + b)[1..] == a[1..] + b;
      IndicesAppend(a[1..], b);
    }
  }

  lemma {:induction false} TotalsAppend(x: seq<PrimitiveData>, y: seq<PrimitiveData>)
    ensures VertexTotal(x + y) == VertexTotal(x) + VertexTotal(y)
    ensures IndexTotal(x + y) == IndexTotal(x) + IndexTotal(y)
    decreases |y|
  {
    if |y| == 0 {
      assert x + y == x;
    } else {
      assert (x + y)[..|x + y| - 1] == x + y[..|y| - 1];
      TotalsAppend(x, y[..|y| - 1]);
    }
  }

  lemma GrowsAppend(a: seq<SourcePrimitive>, b: seq<SourcePrimitive>, st: State, outA: seq<PrimitiveData>,
                    st1: State, outB: seq<PrimitiveData>, st2: State)
    requires Grows(a, st, outA, st1) && Grows(b, st1, outB, st2)
    ensures Grows(a + b, st, outA + outB, st2)
  {
    KeptAppend(a, b);
    VerticesAppend(a, b);
    IndicesAppend(a, b);
    TotalsAppend(outA, outB);
    AppendsAppend(a, b, st, st1, st2);
  }

  lemma AppendsAppend(a: seq<SourcePrimitive>, b: seq<SourcePrimitive>, st: State, st1: State, st2: State)
    requires Appends(a, st, st1) && Appends(b, st1, st2)
    ensures Appends(a + b, st, st2)
  {
    VerticesAppend(a, b);
    IndicesAppend(a, b);
    AppendAssoc(st.vertices, VerticesOf(a), VerticesOf(b));
    AppendAssoc(st.indices, IndicesOf(a), IndicesOf(b));
  }

  lemma FollowsAppend(a: seq<SourcePrimitive>, b: seq<SourcePrimitive>, outA: seq<PrimitiveData>, outB: seq<PrimitiveData>)
    requires Follows(a, outA) && Follows(b, outB)
    ensures Follows(a + b, outA + outB)
  {
    KeptAppend(a, b);
  }

  lemma OffsetsAppend(st: State, outA: seq<PrimitiveData>, st1: State, outB: seq<PrimitiveData>)
    requires |st1.vertices| == |st.vertices| + VertexTotal(outA)
    requires |st1.indices| == |st.indices| + IndexTotal(outA)
    requires OffsetsFollow(st, outA) && OffsetsFollow(st1, outB)
    ensures OffsetsFollow(st, outA + outB)
  {
    var out := outA + outB;
    forall k | 0 <= k < |out|
      ensures out[k].vertices.offset == LegacyVertex.VERTEX_SIZE * (|st.vertices| + VertexTotal(out[..k]))
      ensures out[k].indices.Some? ==> out[k].indices.value.offset == 4 * (|st.indices| + IndexTotal(out[..k]))
    {
      if k < |outA| {
        assert out[..k] == outA[..k];
      } else {
        assert out[..k] == outA + outB[..k - |outA|];
        TotalsAppend(outA, outB[..k - |outA|]);
      }
    }
  }

  /** Loading one run of primitives after another loads their concatenation. */
  lemma LoadedWellAppend(a: seq<SourcePrimitive>, b: seq<SourcePrimitive>, st: State, outA: seq<PrimitiveData>,
                         st1: State, outB: seq<PrimitiveData>, st2: State)
    requires LoadedWell(a, st, outA, st1) && LoadedWell(b, st1, outB, st2)
    ensures LoadedWell(a + b, st, outA + outB, st2)
  {
    GrowsAppend(a, b, st, outA, st1, outB, st2);
    FollowsAppend(a, b, outA, outB);
    OffsetsAppend(st, outA, st1, outB);
    LocatedAppend(a, b, outA, st1, outB, st2);
  }

  lemma LocatedAppend(a: seq<SourcePrimitive>, b: seq<SourcePrimitive>, outA: seq<PrimitiveData>, st1: State,
                      outB: seq<PrimitiveData>, st2: State)
    requires Located(a, outA, st1) && Located(b, outB, st2)
    requires st2.vertices == st1.vertices + VerticesOf(b) && st2.indices == st1.indices + IndicesOf(b)
    ensures Located(a + b, outA + outB, st2)
  {
    PrefixOfAppend(st1.vertices, VerticesOf(b));
    PrefixOfAppend(st1.indices, IndicesOf(b));
    LocatedExtends(a, outA, st1, st2);
    LocatedConcat(a, b, outA, outB, st2);
  }

  lemma LocatedExtends(ps: seq<SourcePrimitive>, out: seq<PrimitiveData>, st1: State, st2: State)
    requires Located(ps, out, st1)
    requires |st1.vertices| <= |st2.vertices| && st2.vertices[..|st1.vertices|] == st1.vertices
    requires |st1.indices| <= |st2.indices| && st2.indices[..|st1.indices|] == st1.indices
    ensures Located(ps, out, st2)
  {
    forall k | 0 <= k < |out|
      ensures PartHolds(out[k], Kept(ps)[k], st2)
    {
      PartHoldsExtends(out[k], Kept(ps)[k], st1, st2);
    }
  }

  lemma LocatedConcat(a: seq<SourcePrimitive>, b: seq<SourcePrimitive>, outA: seq<PrimitiveData>,
                      outB: seq<PrimitiveData>, st: State)
    requires Located(a, outA, st) && Located(b, outB, st)
    ensures Located(a + b, outA + outB, st)
  {
    KeptAppend(a, b);
    var out, kept := outA + outB, Kept(a + b);
    forall k | 0 <= k < |out|
      ensures PartHolds(out[k], kept[k], st)
    {
      if k < |outA| {
        assert out[k] == outA[k] && kept[k] == Kept(a)[k];
      } else {
        assert out[k] == outB[k - |outA|] && kept[k] == Kept(b)[k - |outA|];
      }
    }
  }

  predicate MismatchIn(doc: seq<seq<SourcePrimitive>>)
  {
    exists m, k :: 0 <= m < |doc| && 0 <= k < |doc[m]| && Mismatch(doc[m][k])
  }

  /**
   * All meshes in document order, threading the shared lists through: one
   * group per mesh, and the groups laid end to end are the document's
   * primitives laid end to end, loaded well from `st`.
   */
  function LoadAll(doc: seq<seq<SourcePrimitive>>, st: State): (r: Result<(seq<seq<PrimitiveData>>, State)>)
    ensures r.Ok? ==> |r.value.0| == |doc|
    ensures r.Ok? ==> forall m :: 0 <= m < |doc| ==> |r.value.0[m]| == |Kept(doc[m])|
    ensures r.Ok? ==> LoadedWell(Concat(doc), st, Concat(r.value.0), r.value.1)
    ensures r.Err? ==> r.error == CountMismatch
    decreases |doc|
  {
    if |doc| == 0 then Ok(([], st))
    else
      match LoadPrimitives(doc[0], st)
      case Err(e) => Err(e)
      case Ok((prims, st1)) =>
        match LoadAll(doc[1..], st1)
        case Err(e) => Err(e)
        case Ok((rest, st2)) =>
          LoadAllStep(doc, st, prims, st1, rest, st2);
          Ok(([prims] + rest, st2))
  }

  lemma LoadAllStep(doc: seq<seq<SourcePrimitive>>, st: State, prims: seq<PrimitiveData>, st1: State,
                    rest: seq<seq<PrimitiveData>>, st2: State)
    requires |doc| > 0 && |rest| == |doc| - 1
    requires LoadedWell(doc[0], st, prims, st1)
    requires forall m :: 0 <= m < |rest| ==> |rest[m]| == |Kept(doc[1..][m])|
    requires LoadedWell(Concat(doc[1..]), st1, Concat(rest), st2)
    ensures forall m :: 0 <= m < |doc| ==> |([prims] + rest)[m]| == |Kept(doc[m])|
    ensures LoadedWell(Concat(doc), st, Concat([prims] + rest), st2)
  {
    assert forall m :: 1 <= m < |doc| ==> doc[m] == doc[1..][m - 1];
    LoadAllWell(doc, st, prims, st1, rest, st2);
  }

  lemma LoadAllWell(doc: seq<seq<SourcePrimitive>>, st: State, prims: seq<PrimitiveData>, st1: State,
                    rest: seq<seq<PrimitiveData>>, st2: State)
    requires |doc| > 0
    requires LoadedWell(doc[0], st, prims, st1)
    requires LoadedWell(Concat(doc[1..]), st1, Concat(rest), st2)
    ensures LoadedWell(Concat(doc), st, Concat([prims] + rest), st2)
  {
    assert ([prims] + rest)[1..] == rest;
    assert Concat([prims] + rest) == prims + Concat(rest);
    assert Concat(doc) == doc[0] + Concat(doc[1..]);
    LoadedWellAppend(doc[0], Concat(doc[1..]), st, prims, st1, Concat(rest), st2);
  }

  /** Loading the document fails exactly when some primitive of some mesh has a count mismatch. */
  lemma {:induction false} LoadAllFails(doc: seq<seq<SourcePrimitive>>, st: State)
    ensures LoadAll(doc, st).Err? <==> MismatchIn(doc)
    decreases |doc|
  {
    if |doc| > 0 {
      LoadPrimitivesFails(doc[0], st);
      MismatchInCons(doc);
      var first := LoadPrimitives(doc[0], st);
      if first.Ok? {
        LoadAllFails(doc[1..], first.value.1);
      }
    }
  }

  lemma MismatchInCons(doc: seq<seq<SourcePrimitive>>)
    requires |doc| > 0
    ensures MismatchIn(doc) <==> (exists k :: 0 <= k < |doc[0]| && Mismatch(doc[0][k])) || MismatchIn(doc[1..])
  {
    if MismatchIn(doc[1..]) {
      var m, k :| 0 <= m < |doc[1..]| && 0 <= k < |doc[1..][m]| && Mismatch(doc[1..][m][k]);
      assert doc[m + 1][k] == doc[1..][m][k];
    }
    if MismatchIn(doc) {
      var m, k :| 0 <= m < |doc| && 0 <= k < |doc[m]| && Mismatch(doc[m][k]);
      if m > 0 {
        assert doc[1..][m - 1][k] == doc[m][k];
      }
    }
  }

  /** The shared index list stays empty exactly when no kept primitive carries an index. */
  lemma {:induction false} IndexCountZero(ps: seq<SourcePrimitive>)
    ensures IndexCount(ps) == 0 <==> NoIndexData(ps)
    decreases |ps|
  {
    if |ps| > 0 {
      IndexCountZero(ps[1..]);
      assert forall k :: 1 <= k < |ps| ==> ps[k] == ps[1..][k - 1];
    }
  }

  function PrimBoxes(ps: seq<PrimitiveData>): (r: seq<Aabb.Box>)
    ensures |r| == |ps| && forall i :: 0 <= i < |ps| ==> r[i] == ps[i].aabb
  {
    seq(|ps|, i requires 0 <= i < |ps| => ps[i].aabb)
  }

  /** `Mesh::new` for each group: the union of its boxes, which needs at least one box. */
  function BuildMeshes(groups: seq<seq<PrimitiveData>>): (r: seq<Mesh>)
    requires forall m :: 0 <= m < |groups| ==> |groups[m]| > 0
    ensures |r| == |groups|
    ensures forall m :: 0 <= m < |groups| ==>
              r[m].primitives == groups[m]
              && forall k :: 0 <= k < |groups[m]| ==> Aabb.Encloses(r[m].aabb, groups[m][k].aabb)
  {
    seq(|groups|, m requires 0 <= m < |groups| => Mesh(groups[m], Aabb.Union(PrimBoxes(groups[m])).value))
  }

  /** The primitive lists of the meshes. */
  function Groups(meshes: seq<Mesh>): (r: seq<seq<PrimitiveData>>)
    ensures |r| == |meshes| && forall m :: 0 <= m < |meshes| ==> r[m] == meshes[m].primitives
  {
    seq(|meshes|, m requires 0 <= m < |meshes| => meshes[m].primitives)
  }

  /** What `load_meshes` hands back: the meshes and the two shared lists it uploads. */
  datatype Meshes = Meshes(meshes: seq<Mesh>, vertices: seq<Vertex>, indices: seq<nat>)

  /** One mesh per document mesh, keeping its positioned primitives (at least one) inside its box. */
  predicate MeshesFollow(doc: seq<seq<SourcePrimitive>>, meshes: seq<Mesh>)
  {
    |meshes| == |doc|
    && forall m :: 0 <= m < |doc| ==>
         |meshes[m].primitives| == |Kept(doc[m])| > 0
         && forall k :: 0 <= k < |meshes[m].primitives| ==> Aabb.Encloses(meshes[m].aabb, meshes[m].primitives[k].aabb)
  }

  /**
   * What the loaded meshes promise about the whole document: the uploaded
   * lists are the vertices and the indices of the positioned primitives in
   * document order; read end to end, the meshes' primitives are those
   * primitives, numbered 0, 1, 2, …, with vertex parts at 64 bytes and
   * index parts at 4 bytes per earlier element, each part naming its own
   * primitive's data in the uploaded lists.
   */
  predicate DocumentLoaded(doc: seq<seq<SourcePrimitive>>, ms: Meshes)
  {
    var all := Concat(Groups(ms.meshes));
    MeshesFollow(doc, ms.meshes)
    && ms.vertices == VerticesOf(Concat(doc)) && ms.indices == IndicesOf(Concat(doc))
    && Follows(Concat(doc), all)
    && (forall k :: 0 <= k < |all| ==> all[k].index == k)
    && OffsetsFollow(State([], [], 0), all)
    && Located(Concat(doc), all, State(ms.vertices, ms.indices, |all|))
  }

  /** The groups of a well-loaded document, none empty, built into meshes, load the document. */
  lemma Assemble(doc: seq<seq<SourcePrimitive>>, groups: seq<seq<PrimitiveData>>, st: State)
    requires |groups| == |doc| && forall m :: 0 <= m < |doc| ==> |groups[m]| == |Kept(doc[m])| > 0
    requires LoadedWell(Concat(doc), State([], [], 0), Concat(groups), st)
    ensures DocumentLoaded(doc, Meshes(BuildMeshes(groups), st.vertices, st.indices))
  {
    var meshes := BuildMeshes(groups);
    assert Groups(meshes) == groups;
    assert Concat(doc) == [] + Concat(doc);
  }

  /**
   * `load_meshes`: a count mismatch fails first, during the walk; then an
   * empty document, then no indices at all; last, `Mesh::new` fails on a
   * mesh left with no primitive, since the union of no boxes is `None`.
   */
  function LoadMeshes(doc: seq<seq<SourcePrimitive>>): (r: Result<Meshes>)
    ensures r.Err? && r.error == CountMismatch <==> MismatchIn(doc)
    ensures r == Err(NoMeshData) <==> !MismatchIn(doc) && |doc| == 0
    ensures r.Ok? ==> DocumentLoaded(doc, r.value)
  {
    var st0 := State([], [], 0);
    LoadAllFails(doc, st0);
    match LoadAll(doc, st0)
    case Err(e) => Err(e)
    case Ok((groups, st)) =>
      if |groups| == 0 then Err(NoMeshData)
      else if |st.indices| == 0 then Err(NoIndices)
      else if HasEmpty(groups) then Err(EmptyMesh)
      else
        Assemble(doc, groups, st);
        Ok(Meshes(BuildMeshes(groups), st.vertices, st.indices))
  }

  /** Some group is empty. */
  predicate HasEmpty(groups: seq<seq<PrimitiveData>>)
  {
    exists m :: 0 <= m < |groups| && |groups[m]| == 0
  }

  /**
   * The two later failures of `load_meshes`: no indices anywhere in the
   * document, and otherwise a mesh none of whose primitives has positions.
   */
  lemma LoadMeshesFails(doc: seq<seq<SourcePrimitive>>)
    ensures LoadMeshes(doc) == Err(NoIndices) <==> !MismatchIn(doc) && |doc| > 0 && NoIndexData(Concat(doc))
    ensures LoadMeshes(doc) == Err(EmptyMesh) <==>
              !MismatchIn(doc) && |doc| > 0 && !NoIndexData(Concat(doc))
              && exists m :: 0 <= m < |doc| && |Kept(doc[m])| == 0
  {
    var st0 := State([], [], 0);
    LoadAllFails(doc, st0);
    IndexCountZero(Concat(doc));
    var loaded := LoadAll(doc, st0);
    if loaded.Ok? {
      var groups := loaded.value.0;
      assert |loaded.value.1.indices| == IndexCount(Concat(doc));
      assert HasEmpty(groups) <==> exists m :: 0 <= m < |doc| && |Kept(doc[m])| == 0;
    }
  }
}
