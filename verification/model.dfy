/**
 * Model-level helpers: expansion of glTF image pixels to RGBA8, the mip
 * count of a texture, and the primitive count of a model's meshes.
 */
module Model {
  import opened ProtoWire
  import GltfMesh
  import Util

  /** The pixel formats a glTF image can decode to. */
  datatype PixelFormat =
    | R8 | R8G8 | R8G8B8 | B8G8R8 | R8G8B8A8 | B8G8R8A8
    | R16 | R16G16 | R16G16B16 | R16G16B16A16

  /** 16-bit formats are rejected with a panic. */
  predicate EightBit(f: PixelFormat)
  {
    !(f.R16? || f.R16G16? || f.R16G16B16? || f.R16G16B16A16?)
  }

  /** Bytes per pixel of an 8-bit format. */
  function Channels(f: PixelFormat): (r: nat)
    requires EightBit(f)
    ensures 1 <= r <= 4
  {
    match f
    case R8 => 1
    case R8G8 => 2
    case R8G8B8 => 3
    case B8G8R8 => 3
    case R8G8B8A8 => 4
    case B8G8R8A8 => 4
  }

  /** Pixel `index` lies inside the pixel bytes. */
  predicate PixelInRange(pixels: seq<byte>, f: PixelFormat, index: nat)
    requires EightBit(f)
  {
    index * Channels(f) + Channels(f) <= |pixels|
  }

  /** `get_next_rgba`: pixel `index` as four bytes, missing channels 0 and missing alpha 255. */
  function NextRgba(pixels: seq<byte>, f: PixelFormat, index: nat): (r: seq<byte>)
    requires EightBit(f) && PixelInRange(pixels, f, index)
    ensures |r| == 4
    ensures Channels(f) < 4 ==> r[3] == 255
    ensures f == R8 ==> r == [pixels[index], 0, 0, 255]
    ensures f == R8G8 ==> r == [pixels[2 * index], pixels[2 * index + 1], 0, 255]
    ensures f == R8G8B8A8 ==> r == pixels[4 * index .. 4 * index + 4]
  {
    var c := Channels(f);
    var b := index * c;
    match f
    case R8 => [pixels[b], 0, 0, 255]
    case R8G8 => [pixels[b], pixels[b + 1], 0, 255]
    case R8G8B8 => [pixels[b], pixels[b + 1], pixels[b + 2], 255]
    case B8G8R8 => [pixels[b + 2], pixels[b + 1], pixels[b], 255]
    case R8G8B8A8 => [pixels[b], pixels[b + 1], pixels[b + 2], pixels[b + 3]]
    case B8G8R8A8 => [pixels[b + 2], pixels[b + 1], pixels[b], pixels[b + 3]]
  }

  function SwapRedBlue(px: seq<byte>): (r: seq<byte>)
    requires |px| == 4
  {
    [px[2], px[1], px[0], px[3]]
  }

  /**
   * The BGR formats differ from their RGB counterparts exactly by swapping
   * bytes 0 and 2; the RGB formats keep channel order.
   */
  lemma BgrIsSwappedRgb(pixels: seq<byte>, index: nat)
    requires PixelInRange(pixels, R8G8B8, index)
    ensures NextRgba(pixels, B8G8R8, index) == SwapRedBlue(NextRgba(pixels, R8G8B8, index))
    ensures NextRgba(pixels, R8G8B8, index) == pixels[3 * index .. 3 * index + 3] + [255]
    ensures PixelInRange(pixels, R8G8B8A8, index) ==>
              NextRgba(pixels, B8G8R8A8, index) == SwapRedBlue(NextRgba(pixels, R8G8B8A8, index))
  {
  }

  /** Swapping red and blue twice gives the pixel back. */
  lemma SwapRedBlueInvolution(px: seq<byte>)
    requires |px| == 4
    ensures SwapRedBlue(SwapRedBlue(px)) == px
  {
  }

  lemma PixelBound(pixels: seq<byte>, f: PixelFormat, i: nat, n: nat)
    requires EightBit(f) && i < n && n * Channels(f) <= |pixels|
    ensures PixelInRange(pixels, f, i)
  {
    var c := Channels(f);
    assert (i + 1) * c <= n * c by {
      assert i + 1 <= n;
    }
  }

  /**
   * `build_rgba_buffer`: the RGBA expansion of the first `width * height`
   * pixels, four bytes per pixel, pixel `i` in bytes [4i, 4i + 4).
   */
  method BuildRgbaBuffer(pixels: seq<byte>, f: PixelFormat, width: nat, height: nat) returns (buffer: seq<byte>)
    requires EightBit(f) && width * height * Channels(f) <= |pixels|
    ensures |buffer| == 4 * (width * height)
    ensures forall i :: 0 <= i < width * height ==>
              PixelInRange(pixels, f, i) && buffer[4 * i .. 4 * i + 4] == NextRgba(pixels, f, i)
  {
    var size := width * height;
    buffer := [];
    var index := 0;
    while index < size
      invariant 0 <= index <= size
      invariant |buffer| == 4 * index
      invariant forall i :: 0 <= i < index ==>
                  PixelInRange(pixels, f, i) && buffer[4 * i .. 4 * i + 4] == NextRgba(pixels, f, index := i)
    {
      PixelBound(pixels, f, index, size);
      var rgba := NextRgba(pixels, f, index);
      assert forall i :: 0 <= i < index ==> (buffer + rgba)[4 * i .. 4 * i + 4] == buffer[4 * i .. 4 * i + 4];
      buffer := buffer + rgba;
      index := index + 1;
    }
  }

  /**
   * The mip count `floor(log2(min(w, h))) + 1` as the bit length of the
   * smaller side: the unique `r` with 2^(r-1) <= m < 2^r, and 0 for an
   * empty image (the float `-inf` saturates to 0 in the cast).
   */
  function BitLength(m: nat): (r: nat)
    ensures m == 0 <==> r == 0
    ensures m > 0 ==> Util.Pow2(r - 1) <= m < Util.Pow2(r)
  {
    if m == 0 then 0 else 1 + BitLength(m / 2)
  }

  function MipLevels(width: nat, height: nat): (r: nat)
    ensures var m := if width < height then width else height;
            (m == 0 <==> r == 0) && (m > 0 ==> Util.Pow2(r - 1) <= m < Util.Pow2(r))
  {
    BitLength(if width < height then width else height)
  }

  /** A chain of `MipLevels` levels halving the smaller side reaches exactly 1. */
  lemma {:induction false} MipChainEndsAtOne(m: nat)
    requires m > 0
    ensures Halve(m, BitLength(m) - 1) == 1
  {
    if m > 1 {
      MipChainEndsAtOne(m / 2);
      HalveShift(m, BitLength(m / 2) - 1);
    }
  }

  /** `m` halved `k` times. */
  function Halve(m: nat, k: nat): nat
  {
    if k == 0 then m else Halve(m / 2, k - 1)
  }

  lemma {:induction false} HalveShift(m: nat, k: nat)
    ensures Halve(m, k + 1) == Halve(m / 2, k)
  {
  }

  /** `primitive_count`: the sum of the meshes' primitive counts. */
  function PrimitiveCount(meshes: seq<GltfMesh.Mesh>): nat
  {
    if |meshes| == 0 then 0 else |meshes[0].primitives| + PrimitiveCount(meshes[1..])
  }

  lemma {:induction false} PrimitiveCountAppend(a: seq<GltfMesh.Mesh>, b: seq<GltfMesh.Mesh>)
    ensures PrimitiveCount(a + b) == PrimitiveCount(a) + PrimitiveCount(b)
  {
    if |a| > 0 {
      assert (a + b)[1..] == a[1..] + b;
      PrimitiveCountAppend(a[1..], b);
    } else {
      assert a + b == b;
    }
  }

  /**
   * A loaded model has exactly as many primitives as its document declares:
   * it holds for any mesh list shaped like the document, which is what
   * `GltfMesh.LoadMeshes` returns.
   */
  lemma {:induction false} LoadedPrimitiveCount(doc: seq<seq<GltfMesh.GltfPrimitive>>, meshes: seq<GltfMesh.Mesh>)
    requires |meshes| == |doc|
    requires forall m :: 0 <= m < |doc| ==> |meshes[m].primitives| == |doc[m]|
    ensures PrimitiveCount(meshes) == GltfMesh.PrimitiveTotal(doc)
    decreases |doc|
  {
    if |doc| > 0 {
      assert forall m :: 0 <= m < |doc| - 1 ==> meshes[1..][m] == meshes[m + 1] && doc[1..][m] == doc[m + 1];
      LoadedPrimitiveCount(doc[1..], meshes[1..]);
    }
  }
}
