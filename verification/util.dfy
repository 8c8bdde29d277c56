/**
 * Small helpers shared by the Vulkan wrappers: the stencil test on an
 * image format and the element-wise copy into mapped memory.
 */
module Util {
  import opened ProtoWire

  /** The image formats the renderer names; every other format is `OtherFormat`. */
  datatype ImageFormat =
    | D32_SFLOAT_S8_UINT
    | D24_UNORM_S8_UINT
    | D16_UNORM_S8_UINT
    | D32_SFLOAT
    | D16_UNORM
    | R8G8B8A8_UNORM
    | R8G8B8A8_SRGB
    | B8G8R8A8_UNORM
    | B8G8R8A8_SRGB
    | OtherFormat(code: nat)

  /**
   * `has_stencil_component`: exactly the two combined depth-stencil formats
   * the renderer uses; `D16_UNORM_S8_UINT` is not among them.
   */
  predicate HasStencilComponent(f: ImageFormat)
  {
    f == D32_SFLOAT_S8_UINT || f == D24_UNORM_S8_UINT
  }

  lemma StencilFormats()
    ensures HasStencilComponent(D32_SFLOAT_S8_UINT) && HasStencilComponent(D24_UNORM_S8_UINT)
    ensures !HasStencilComponent(D32_SFLOAT) && !HasStencilComponent(D16_UNORM) && !HasStencilComponent(D16_UNORM_S8_UINT)
    ensures forall c :: !HasStencilComponent(OtherFormat(c))
  {
  }

  /** 2 to the power `n`. */
  function Pow2(n: nat): (r: nat)
    ensures r >= 1
  {
    if n == 0 then 1 else 2 * Pow2(n - 1)
  }

  /** `d * k` is at least `d` for positive `k`. */
  lemma MulAtLeast(d: nat, k: int)
    requires k >= 1
    ensures d * k >= d
  {
    var j := k - 1;
    assert d * k == d * j + d;
  }

  /** Euclidean division is unique: quotient and remainder are determined. */
  lemma DivUnique(w: nat, d: nat, q: nat, r: nat)
    requires d > 0 && w == d * q + r && r < d
    ensures w / d == q && w % d == r
  {
    var q', r' := w / d, w % d;
    assert w == d * q' + r';
    if q' > q {
      assert d * (q' - q) == r - r';
      MulAtLeast(d, q' - q);
      assert false;
    } else if q > q' {
      assert d * (q - q') == r' - r;
      MulAtLeast(d, q - q');
      assert false;
    }
  }

  /** Every element occupies exactly `elemSize` bytes. */
  predicate Uniform(data: seq<seq<byte>>, elemSize: nat)
  {
    forall i :: 0 <= i < |data| ==> |data[i]| == elemSize
  }

  /** The elements' bytes back to back. */
  function Flatten(data: seq<seq<byte>>): seq<byte>
  {
    if |data| == 0 then [] else data[0] + Flatten(data[1..])
  }

  /** Element `i`'s byte `j` sits at `i * elemSize + j`, and the whole run is `|data| * elemSize` long. */
  lemma {:induction false} FlattenLayout(data: seq<seq<byte>>, elemSize: nat, i: nat, j: nat)
    requires Uniform(data, elemSize)
    ensures |Flatten(data)| == |data| * elemSize
    ensures i < |data| && j < elemSize ==> i * elemSize + j < |Flatten(data)| && Flatten(data)[i * elemSize + j] == data[i][j]
  {
    if |data| > 0 {
      var rest := data[1..];
      assert Uniform(rest, elemSize) by {
        assert forall k :: 0 <= k < |rest| ==> rest[k] == data[k + 1];
      }
      if 0 < i < |data| {
        FlattenLayout(rest, elemSize, i - 1, j);
        assert rest[i - 1] == data[i];
        assert i * elemSize + j == elemSize + ((i - 1) * elemSize + j);
      } else {
        FlattenLayout(rest, elemSize, 0, 0);
      }
      assert |data| * elemSize == elemSize + |rest| * elemSize;
    }
  }

  /**
   * `mem_copy`: writes `|data| * elemSize` bytes, the elements back to back
   * from the start of the mapping, and leaves the rest of it as it was.
   */
  function MemCopy(mapped: seq<byte>, data: seq<seq<byte>>, elemSize: nat): (r: seq<byte>)
    requires Uniform(data, elemSize) && |data| * elemSize <= |mapped|
    ensures |r| == |mapped|
    ensures r[..|data| * elemSize] == Flatten(data)
    ensures r[|data| * elemSize..] == mapped[|data| * elemSize..]
  {
    FlattenLayout(data, elemSize, 0, 0);
    var n := |Flatten(data)|;
    Flatten(data) + mapped[n..]
  }
}
