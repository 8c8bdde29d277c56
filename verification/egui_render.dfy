/**
 * The editor's egui painter: the fixed vertex layout and buffer
 * capacities, the per-frame packing of clipped meshes into one vertex and
 * one index buffer with one indexed draw per mesh, the scissor clamp, and
 * the versioned upload of the font texture.
 *
 * Mesh contents are reduced to their vertex and index counts; what is
 * copied is exactly those elements.  Positions and the scissor are reals,
 * without float rounding.
 */
module EguiRender {
  import opened Wrappers

  /** A vertex is a 2-float position, a 2-float uv and 4 colour bytes; indices are 32-bit. */
  const F32_SIZE: nat := 4
  const VERTEX_SIZE: nat := 4 * F32_SIZE + 4
  const INDEX_SIZE: nat := 4
  const VERTEX_BUFFER_SIZE: nat := 1024 * 1024 * 4
  const INDEX_BUFFER_SIZE: nat := 1024 * 1024 * 2
  /** The screen size in points, as two floats. */
  const PUSH_CONSTANT_SIZE: nat := 2 * F32_SIZE

  datatype Format = R32G32Sfloat | R8G8B8A8Unorm

  function FormatSize(f: Format): nat
  {
    match f
    case R32G32Sfloat => 8
    case R8G8B8A8Unorm => 4
  }

  datatype Attribute = Attribute(location: nat, offset: nat, format: Format)

  const ATTRIBUTES: seq<Attribute> := [Attribute(0, 0, R32G32Sfloat), Attribute(1, 8, R32G32Sfloat), Attribute(2, 16, R8G8B8A8Unorm)]

  /** Position, uv and colour lie back to back and fill the stride exactly; width and height fill the push constants. */
  lemma VertexLayoutTiles()
    ensures VERTEX_SIZE == 20
    ensures forall i :: 0 <= i < |ATTRIBUTES| ==> ATTRIBUTES[i].location == i
    ensures ATTRIBUTES[0].offset == 0
    ensures forall i :: 0 < i < |ATTRIBUTES| ==> ATTRIBUTES[i].offset == ATTRIBUTES[i - 1].offset + FormatSize(ATTRIBUTES[i - 1].format)
    ensures ATTRIBUTES[2].offset + FormatSize(ATTRIBUTES[2].format) == VERTEX_SIZE
    ensures PUSH_CONSTANT_SIZE == 2 * F32_SIZE
  {
  }

  datatype TextureId = Egui | User(id: nat)

  datatype Mesh = Mesh(texture: TextureId, vertexCount: nat, indexCount: nat)

  /** An indexed draw: how many indices, where they start, and the vertex offset added to each. */
  datatype Draw = Draw(indexCount: nat, firstIndex: nat, vertexOffset: nat)

  /** The buffer check: the as-written painter also rejects a write that ends exactly at the buffer's end. */
  predicate Overflows(end: nat, capacity: nat, rejectFull: bool)
  {
    if rejectFull then end >= capacity else end > capacity
  }

  /**
   * `paint`'s mesh loop from the given bases.  A user texture index past
   * the registered slots panics; a texture slot that was unregistered, or
   * a mesh without vertices or indices, is skipped without moving the
   * bases; a mesh whose data would overflow either buffer panics;
   * otherwise one draw at the current bases, which then advance by the
   * mesh's counts.  `None` is a panic.
   */
  function PaintFrom(meshes: seq<Mesh>, userTextures: seq<bool>, rejectFull: bool, vertexBase: nat, indexBase: nat)
    : Option<seq<Draw>>
    decreases |meshes|
  {
    if |meshes| == 0 then Some([])
    else
      var m := meshes[0];
      if m.texture.User? && m.texture.id >= |userTextures| then None
      else if m.texture.User? && !userTextures[m.texture.id] then PaintFrom(meshes[1..], userTextures, rejectFull, vertexBase, indexBase)
      else if m.vertexCount == 0 || m.indexCount == 0 then PaintFrom(meshes[1..], userTextures, rejectFull, vertexBase, indexBase)
      else if Overflows((vertexBase + m.vertexCount) * VERTEX_SIZE, VERTEX_BUFFER_SIZE, rejectFull)
              || Overflows((indexBase + m.indexCount) * INDEX_SIZE, INDEX_BUFFER_SIZE, rejectFull) then None
      else
        match PaintFrom(meshes[1..], userTextures, rejectFull, vertexBase + m.vertexCount, indexBase + m.indexCount)
        case None => None
        case Some(rest) => Some([Draw(m.indexCount, indexBase, vertexBase)] + rest)
  }

  /** The painter as written: a write that fills a buffer exactly panics. */
  function PaintAsWritten(meshes: seq<Mesh>, userTextures: seq<bool>): (r: Option<seq<Draw>>)
    ensures var kept := Kept(meshes, userTextures);
            r.Some? <==> InRange(meshes, userTextures)
                         && VertexTotal(kept) * VERTEX_SIZE < VERTEX_BUFFER_SIZE
                         && IndexTotal(kept) * INDEX_SIZE < INDEX_BUFFER_SIZE
  {
    PaintFromMatchesKept(meshes, userTextures, true, 0, 0);
    PaintFrom(meshes, userTextures, true, 0, 0)
  }

  /** The painter with the bounds check it evidently intends: a write may end at the buffer's end. */
  function Paint(meshes: seq<Mesh>, userTextures: seq<bool>): (r: Option<seq<Draw>>)
    ensures var kept := Kept(meshes, userTextures);
            r.Some? <==> InRange(meshes, userTextures)
                         && VertexTotal(kept) * VERTEX_SIZE <= VERTEX_BUFFER_SIZE
                         && IndexTotal(kept) * INDEX_SIZE <= INDEX_BUFFER_SIZE
  {
    PaintFromMatchesKept(meshes, userTextures, false, 0, 0);
    PaintFrom(meshes, userTextures, false, 0, 0)
  }

  /** Every user texture index names a slot. */
  predicate InRange(meshes: seq<Mesh>, userTextures: seq<bool>)
  {
    forall i :: 0 <= i < |meshes| && meshes[i].texture.User? ==> meshes[i].texture.id < |userTextures|
  }

  /** A mesh that is drawn: its texture is the font or a registered slot, and it has vertices and indices. */
  predicate Drawn(m: Mesh, userTextures: seq<bool>)
  {
    (m.texture.User? ==> m.texture.id < |userTextures| && userTextures[m.texture.id])
    && m.vertexCount > 0 && m.indexCount > 0
  }

  /** The drawn meshes, in order. */
  function Kept(meshes: seq<Mesh>, userTextures: seq<bool>): seq<Mesh>
    decreases |meshes|
  {
    if |meshes| == 0 then []
    else (if Drawn(meshes[0], userTextures) then [meshes[0]] else []) + Kept(meshes[1..], userTextures)
  }

  function VertexTotal(ms: seq<Mesh>): nat
  {
    if |ms| == 0 then 0 else ms[0].vertexCount + VertexTotal(ms[1..])
  }

  function IndexTotal(ms: seq<Mesh>): nat
  {
    if |ms| == 0 then 0 else ms[0].indexCount + IndexTotal(ms[1..])
  }

  /** Draws for consecutive meshes from the given bases: each starts where the previous one's data ended. */
  function Offsets(ms: seq<Mesh>, vertexBase: nat, indexBase: nat): (r: seq<Draw>)
    ensures |r| == |ms|
    decreases |ms|
  {
    if |ms| == 0 then []
    else [Draw(ms[0].indexCount, indexBase, vertexBase)] + Offsets(ms[1..], vertexBase + ms[0].vertexCount, indexBase + ms[0].indexCount)
  }

  /**
   * The painter, as a whole: it succeeds exactly when every user texture
   * index is in range and the drawn meshes' data fits both buffers, and
   * then its draws are those of the drawn meshes packed back to back.
   */
  lemma {:induction false} PaintFromMatchesKept(meshes: seq<Mesh>, userTextures: seq<bool>, rejectFull: bool,
                                                vertexBase: nat, indexBase: nat)
    requires !Overflows(vertexBase * VERTEX_SIZE, VERTEX_BUFFER_SIZE, rejectFull)
    requires !Overflows(indexBase * INDEX_SIZE, INDEX_BUFFER_SIZE, rejectFull)
    ensures PaintFrom(meshes, userTextures, rejectFull, vertexBase, indexBase)
            == Reference(meshes, userTextures, rejectFull, vertexBase, indexBase)
    decreases |meshes|
  {
    if |meshes| > 0 {
      var m := meshes[0];
      var rest := meshes[1..];
      InRangeCons(meshes, userTextures);
      if m.texture.User? && m.texture.id >= |userTextures| {
      } else if !Drawn(m, userTextures) {
        PaintFromMatchesKept(rest, userTextures, rejectFull, vertexBase, indexBase);
        assert Kept(meshes, userTextures) == Kept(rest, userTextures);
      } else {
        DrawnStep(meshes, userTextures, rejectFull, vertexBase, indexBase);
        if !Overflows((vertexBase + m.vertexCount) * VERTEX_SIZE, VERTEX_BUFFER_SIZE, rejectFull)
           && !Overflows((indexBase + m.indexCount) * INDEX_SIZE, INDEX_BUFFER_SIZE, rejectFull) {
          PaintFromMatchesKept(rest, userTextures, rejectFull, vertexBase + m.vertexCount, indexBase + m.indexCount);
        }
      }
    }
  }

  /**
   * What the painter computes, stated over the drawn meshes: success
   * exactly when every user texture index is in range and the drawn
   * meshes' data fits both buffers, and then their draws packed back to
   * back.
   */
  function Reference(meshes: seq<Mesh>, userTextures: seq<bool>, rejectFull: bool, vertexBase: nat, indexBase: nat)
    : Option<seq<Draw>>
  {
    var kept := Kept(meshes, userTextures);
    if InRange(meshes, userTextures)
       && !Overflows((vertexBase + VertexTotal(kept)) * VERTEX_SIZE, VERTEX_BUFFER_SIZE, rejectFull)
       && !Overflows((indexBase + IndexTotal(kept)) * INDEX_SIZE, INDEX_BUFFER_SIZE, rejectFull)
    then Some(Offsets(kept, vertexBase, indexBase))
    else None
  }

  lemma InRangeCons(meshes: seq<Mesh>, userTextures: seq<bool>)
    requires |meshes| > 0
    ensures InRange(meshes, userTextures) <==>
            (meshes[0].texture.User? ==> meshes[0].texture.id < |userTextures|) && InRange(meshes[1..], userTextures)
  {
    assert forall i :: 0 < i < |meshes| ==> meshes[i] == meshes[1..][i - 1];
  }

  /** A drawn first mesh: the reference from the next bases, with its draw in front, and the same overflow verdict. */
  lemma DrawnStep(meshes: seq<Mesh>, userTextures: seq<bool>, rejectFull: bool, vertexBase: nat, indexBase: nat)
    requires |meshes| > 0 && Drawn(meshes[0], userTextures)
    ensures var m := meshes[0];
            var next := Reference(meshes[1..], userTextures, rejectFull, vertexBase + m.vertexCount, indexBase + m.indexCount);
            Reference(meshes, userTextures, rejectFull, vertexBase, indexBase)
            == if Overflows((vertexBase + m.vertexCount) * VERTEX_SIZE, VERTEX_BUFFER_SIZE, rejectFull)
                  || Overflows((indexBase + m.indexCount) * INDEX_SIZE, INDEX_BUFFER_SIZE, rejectFull)
               then None
               else match next
                    case None => None
                    case Some(rest) => Some([Draw(m.indexCount, indexBase, vertexBase)] + rest)
  {
    var m := meshes[0];
    var restKept := Kept(meshes[1..], userTextures);
    var kept := Kept(meshes, userTextures);
    assert kept == [m] + restKept;
    assert kept[1..] == restKept;
    assert VertexTotal(kept) == m.vertexCount + VertexTotal(restKept);
    assert IndexTotal(kept) == m.indexCount + IndexTotal(restKept);
    InRangeCons(meshes, userTextures);
  }

  /** Each draw of the painter starts at the sum of the index counts, and offsets by the sum of the vertex counts, of the drawn meshes before it. */
  lemma {:induction false} OffsetsArePrefixSums(ms: seq<Mesh>, vertexBase: nat, indexBase: nat, k: nat)
    requires k < |ms|
    ensures Offsets(ms, vertexBase, indexBase)[k]
            == Draw(ms[k].indexCount, indexBase + IndexTotal(ms[..k]), vertexBase + VertexTotal(ms[..k]))
    decreases k
  {
    if k > 0 {
      OffsetsArePrefixSums(ms[1..], vertexBase + ms[0].vertexCount, indexBase + ms[0].indexCount, k - 1);
      assert ms[..k][1..] == ms[1..][..k - 1];
    }
  }

  /** `Paint` succeeds exactly when the drawn meshes fit, and then draws them at their prefix sums. */
  lemma PaintCorrect(meshes: seq<Mesh>, userTextures: seq<bool>)
    ensures var kept := Kept(meshes, userTextures);
            (Paint(meshes, userTextures).Some? <==>
               InRange(meshes, userTextures)
               && VertexTotal(kept) * VERTEX_SIZE <= VERTEX_BUFFER_SIZE
               && IndexTotal(kept) * INDEX_SIZE <= INDEX_BUFFER_SIZE)
            && (Paint(meshes, userTextures).Some? ==>
                  |Paint(meshes, userTextures).value| == |kept|
                  && forall k :: 0 <= k < |kept| ==>
                       Paint(meshes, userTextures).value[k]
                       == Draw(kept[k].indexCount, IndexTotal(kept[..k]), VertexTotal(kept[..k])))
  {
    PaintFromMatchesKept(meshes, userTextures, false, 0, 0);
    var kept := Kept(meshes, userTextures);
    forall k | 0 <= k < |kept|
      ensures Offsets(kept, 0, 0)[k] == Draw(kept[k].indexCount, IndexTotal(kept[..k]), VertexTotal(kept[..k]))
    {
      OffsetsArePrefixSums(kept, 0, 0, k);
    }
  }

  /** A single font-textured mesh whose indices fill the index buffer exactly: 3 vertices, 524288 indices. */
  const FULL_INDEX_MESH: Mesh := Mesh(Egui, 3, INDEX_BUFFER_SIZE / INDEX_SIZE)

  /** The as-written check rejects a mesh that fits exactly; the intended check draws it. */
  lemma AsWrittenRejectsExactFit()
    ensures INDEX_BUFFER_SIZE / INDEX_SIZE == 524288
    ensures IndexTotal([FULL_INDEX_MESH]) * INDEX_SIZE == INDEX_BUFFER_SIZE
    ensures PaintAsWritten([FULL_INDEX_MESH], []).None?
    ensures Paint([FULL_INDEX_MESH], []) == Some([Draw(524288, 0, 0)])
  {
    assert [FULL_INDEX_MESH][1..] == [];
    assert PaintFrom([], [], false, 3, 524288) == Some([]);
    assert [Draw(524288, 0, 0)] + [] == [Draw(524288, 0, 0)];
  }

  /** Wherever the as-written painter succeeds, the intended one draws the same; they differ only on an exact fit. */
  lemma AsWrittenAgreesWhenItSucceeds(meshes: seq<Mesh>, userTextures: seq<bool>)
    ensures PaintAsWritten(meshes, userTextures).Some? ==> Paint(meshes, userTextures) == PaintAsWritten(meshes, userTextures)
    ensures Paint(meshes, userTextures).Some? && PaintAsWritten(meshes, userTextures).None? ==>
              var kept := Kept(meshes, userTextures);
              VertexTotal(kept) * VERTEX_SIZE == VERTEX_BUFFER_SIZE || IndexTotal(kept) * INDEX_SIZE == INDEX_BUFFER_SIZE
  {
    PaintFromMatchesKept(meshes, userTextures, false, 0, 0);
    PaintFromMatchesKept(meshes, userTextures, true, 0, 0);
  }

  /** No slot is ever registered, so any mesh with a user texture panics. */
  lemma UserTextureWithoutSlotsPanics(meshes: seq<Mesh>, i: nat)
    requires i < |meshes| && meshes[i].texture.User?
    ensures Paint(meshes, []).None? && PaintAsWritten(meshes, []).None?
  {
    PaintFromMatchesKept(meshes, [], false, 0, 0);
    PaintFromMatchesKept(meshes, [], true, 0, 0);
  }

  /** `f32::clamp`, whose bounds must be ordered. */
  function Clamp(x: real, lo: real, hi: real): (r: real)
    requires lo <= hi
    ensures lo <= r <= hi
    ensures lo <= x <= hi ==> r == x
  {
    if x < lo then lo else if x > hi then hi else x
  }

  datatype Scissor = Scissor(minX: real, minY: real, maxX: real, maxY: real)

  /**
   * The scissor: the clip rectangle scaled to pixels, its min clamped into
   * the framebuffer and its max clamped between the min and the
   * framebuffer's edge, so the extent is never negative and the clamps'
   * bounds are always ordered.
   */
  function ScissorFor(rMinX: real, rMinY: real, rMaxX: real, rMaxY: real, scale: real, width: nat, height: nat): (s: Scissor)
    ensures 0.0 <= s.minX <= s.maxX <= width as real && 0.0 <= s.minY <= s.maxY <= height as real
    ensures 0.0 <= rMinX * scale <= width as real ==> s.minX == rMinX * scale
    ensures s.minX <= rMaxX * scale <= width as real ==> s.maxX == rMaxX * scale
  {
    var minX := Clamp(rMinX * scale, 0.0, width as real);
    var minY := Clamp(rMinY * scale, 0.0, height as real);
    Scissor(minX, minY, Clamp(rMaxX * scale, minX, width as real), Clamp(rMaxY * scale, minY, height as real))
  }

  /** The font texture expanded to RGBA: each coverage byte repeated into all four channels. */
  function Expand(pixels: seq<nat>): (data: seq<nat>)
    ensures |data| == 4 * |pixels|
    ensures forall j :: 0 <= j < |data| ==> data[j] == pixels[j / 4]
  {
    if |pixels| == 0 then []
    else
      var rest := Expand(pixels[1..]);
      var r := pixels[0];
      assert forall j :: 4 <= j < 4 * |pixels| ==> ([r, r, r, r] + rest)[j] == pixels[j / 4] by {
        forall j | 4 <= j < 4 * |pixels|
          ensures ([r, r, r, r] + rest)[j] == pixels[j / 4]
        {
          assert ([r, r, r, r] + rest)[j] == rest[j - 4];
          assert (j - 4) / 4 + 1 == j / 4;
        }
      }
      [r, r, r, r] + rest
  }

  /** Every fourth byte of the expansion. */
  function RedChannel(data: seq<nat>): seq<nat>
    requires |data| % 4 == 0
    decreases |data|
  {
    if |data| == 0 then [] else [data[0]] + RedChannel(data[4..])
  }

  /** The expansion loses nothing: its first channel is the original coverage. */
  lemma {:induction false} ExpandRoundTrip(pixels: seq<nat>)
    ensures RedChannel(Expand(pixels)) == pixels
  {
    if |pixels| > 0 {
      ExpandRoundTrip(pixels[1..]);
      assert Expand(pixels)[4..] == Expand(pixels[1..]);
    }
  }

  datatype FontTexture = FontTexture(version: nat, width: nat, height: nat, pixels: seq<nat>)

  datatype FontState = FontState(version: nat, font: Option<nat>)

  datatype FontAction = DestroyFont(handle: nat) | CreateFont(handle: nat, width: nat, height: nat, data: seq<nat>)

  /** A new painter holds no font and version 0. */
  const INITIAL_FONT_STATE: FontState := FontState(0, None)

  /**
   * `upload_font_texture`: the same version as recorded does nothing;
   * otherwise the old font image and view, if any, are destroyed first,
   * then the image is created from the RGBA expansion under a handle
   * handle, and its version is recorded.
   */
  function UploadFont(s: FontState, t: FontTexture, handle: nat): (r: (FontState, seq<FontAction>))
    ensures t.version == s.version ==> r == (s, [])
    ensures t.version != s.version ==> r.0 == FontState(t.version, Some(handle))
    ensures t.version != s.version ==>
              |r.1| == (if s.font.Some? then 2 else 1)
              && r.1[|r.1| - 1] == CreateFont(handle, t.width, t.height, Expand(t.pixels))
              && (s.font.Some? ==> r.1[0] == DestroyFont(s.font.value))
  {
    if t.version == s.version then (s, [])
    else
      var destroy := if s.font.Some? then [DestroyFont(s.font.value)] else [];
      (FontState(t.version, Some(handle)), destroy + [CreateFont(handle, t.width, t.height, Expand(t.pixels))])
  }

  /** Uploading the same texture twice does the work once; a texture of version 0 is never uploaded to a new painter. */
  lemma UploadFontIdempotent(s: FontState, t: FontTexture, handle: nat, handle2: nat)
    ensures UploadFont(UploadFont(s, t, handle).0, t, handle2) == (UploadFont(s, t, handle).0, [])
    ensures t.version == 0 ==> UploadFont(INITIAL_FONT_STATE, t, handle) == (INITIAL_FONT_STATE, [])
  {
  }

  /** A texture of `width * height` coverage bytes gives an image of four bytes per texel. */
  lemma FontDataSize(t: FontTexture)
    requires |t.pixels| == t.width * t.height
    ensures |Expand(t.pixels)| == 4 * t.width * t.height
  {
  }
}
