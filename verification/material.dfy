/**
 * Conversion of a glTF material into the renderer's material record: the
 * workflow choice, the alpha-mode index, texture infos with their tilling
 * and the occlusion strength.  Factors are reals; `f32` rounding is not
 * modelled.
 */
module Material {
  import opened Wrappers

  const ALPHA_MODE_OPAQUE: nat := 0
  const ALPHA_MODE_MASK: nat := 1
  const ALPHA_MODE_BLEND: nat := 2

  const DEFAULT_ALPHA_CUTOFF: real := 0.5

  datatype AlphaMode = Opaque | Mask | Blend

  datatype Vec4 = Vec4(x: real, y: real, z: real, w: real)

  /** `get_default_tilling`: scale (1, 1), offset (0, 0). */
  const DEFAULT_TILLING: Vec4 := Vec4(1.0, 1.0, 0.0, 0.0)

  /** The glTF `KHR_texture_transform` data the conversion reads. */
  datatype TextureTransform = TextureTransform(scaleX: real, scaleY: real, offsetX: real, offsetY: real)

  /** A glTF texture reference: texture index, tex-coord set and optional transform. */
  datatype GltfInfo = GltfInfo(texture: nat, texCoord: nat, transform: Option<TextureTransform>)
  datatype GltfOcclusion = GltfOcclusion(texture: nat, texCoord: nat, strength: real)

  datatype GltfSpecGloss = GltfSpecGloss(diffuse: seq<real>, diffuseTexture: Option<GltfInfo>,
                                         specular: seq<real>, glossiness: real,
                                         specGlossTexture: Option<GltfInfo>)
  datatype GltfMetalRough = GltfMetalRough(baseColor: seq<real>, baseColorTexture: Option<GltfInfo>,
                                           metallic: real, roughness: real,
                                           metalRoughTexture: Option<GltfInfo>)

  datatype GltfMaterial = GltfMaterial(
    specGloss: Option<GltfSpecGloss>,
    metalRough: GltfMetalRough,
    emissive: seq<real>,
    emissiveTexture: Option<GltfInfo>,
    normalTexture: Option<GltfInfo>,
    occlusionTexture: Option<GltfOcclusion>,
    alphaMode: AlphaMode,
    alphaCutoff: Option<real>,
    doubleSided: bool,
    unlit: bool)

  datatype TextureInfo = TextureInfo(index: nat, channel: nat, tilling: Vec4)

  datatype Workflow =
    | MetallicRoughness(metallic: real, roughness: real, metalRoughTexture: Option<TextureInfo>)
    | SpecularGlossiness(specular: seq<real>, glossiness: real, specGlossTexture: Option<TextureInfo>)

  datatype MaterialData = MaterialData(
    color: seq<real>,
    emissive: seq<real>,
    occlusion: real,
    colorTexture: Option<TextureInfo>,
    emissiveTexture: Option<TextureInfo>,
    normalsTexture: Option<TextureInfo>,
    occlusionTexture: Option<TextureInfo>,
    workflow: Workflow,
    alphaMode: nat,
    alphaCutoff: real,
    doubleSided: bool,
    isUnlit: bool)

  /** `get_alpha_mode_index`. */
  function AlphaModeIndex(m: AlphaMode): (r: nat)
    ensures r <= ALPHA_MODE_BLEND
    ensures r == ALPHA_MODE_BLEND <==> m == Blend
  {
    match m
    case Opaque => ALPHA_MODE_OPAQUE
    case Mask => ALPHA_MODE_MASK
    case Blend => ALPHA_MODE_BLEND
  }

  /** The alpha mode an index stands for, the inverse of `AlphaModeIndex`. */
  function AlphaModeOfIndex(i: nat): (r: Option<AlphaMode>)
    ensures r.Some? <==> i <= ALPHA_MODE_BLEND
  {
    if i == ALPHA_MODE_OPAQUE then Some(Opaque)
    else if i == ALPHA_MODE_MASK then Some(Mask)
    else if i == ALPHA_MODE_BLEND then Some(Blend)
    else None
  }

  /** Distinct modes get distinct indices, and each index decodes back to its mode. */
  lemma AlphaModeIndexRoundTrip(m: AlphaMode, i: nat)
    ensures AlphaModeOfIndex(AlphaModeIndex(m)) == Some(m)
    ensures AlphaModeOfIndex(i).Some? ==> AlphaModeIndex(AlphaModeOfIndex(i).value) == i
  {
  }

  /** `convert_transform_to_tilling`: scale then offset, or the default tilling. */
  function TillingOf(t: Option<TextureTransform>): (r: Vec4)
    ensures t.None? ==> r == DEFAULT_TILLING
    ensures t.Some? ==> r == Vec4(t.value.scaleX, t.value.scaleY, t.value.offsetX, t.value.offsetY)
  {
    match t
    case None => DEFAULT_TILLING
    case Some(tt) => Vec4(tt.scaleX, tt.scaleY, tt.offsetX, tt.offsetY)
  }

  /** `get_texture`: index and channel copied, tilling from the transform. */
  function GetTexture(info: Option<GltfInfo>): (r: Option<TextureInfo>)
    ensures r.Some? <==> info.Some?
    ensures r.Some? ==> r.value.index == info.value.texture && r.value.channel == info.value.texCoord
                        && r.value.tilling == TillingOf(info.value.transform)
  {
    match info
    case None => None
    case Some(i) => Some(TextureInfo(i.texture, i.texCoord, TillingOf(i.transform)))
  }

  /** `get_normals_texture`: like `GetTexture`, but the transform is ignored. */
  function GetNormalsTexture(info: Option<GltfInfo>): (r: Option<TextureInfo>)
    ensures r.Some? <==> info.Some?
    ensures r.Some? ==> r.value == TextureInfo(info.value.texture, info.value.texCoord, DEFAULT_TILLING)
  {
    match info
    case None => None
    case Some(i) => Some(TextureInfo(i.texture, i.texCoord, TillingOf(None)))
  }

  /** `get_occlusion`: strength 0 without a texture; default tilling. */
  function GetOcclusion(info: Option<GltfOcclusion>): (r: (real, Option<TextureInfo>))
    ensures info.None? ==> r == (0.0, None)
    ensures info.Some? ==> r.0 == info.value.strength
                           && r.1 == Some(TextureInfo(info.value.texture, info.value.texCoord, DEFAULT_TILLING))
  {
    match info
    case None => (0.0, None)
    case Some(o) => (o.strength, Some(TextureInfo(o.texture, o.texCoord, TillingOf(None))))
  }

  /** `get_*_texture_index`: the index of a present texture. */
  function TextureIndex(t: Option<TextureInfo>): (r: Option<nat>)
    ensures r.Some? <==> t.Some?
    ensures r.Some? ==> r.value == t.value.index
  {
    match t
    case None => None
    case Some(i) => Some(i.index)
  }

  /** `is_transparent`. */
  predicate IsTransparent(m: MaterialData)
  {
    m.alphaMode == ALPHA_MODE_BLEND
  }

  /**
   * `From<gltf::material::Material>`: the specular-glossiness extension,
   * when present, supplies color, color texture and workflow; otherwise the
   * metallic-roughness block does.
   */
  function FromGltf(g: GltfMaterial): (r: MaterialData)
    ensures r.workflow.SpecularGlossiness? <==> g.specGloss.Some?
    ensures g.specGloss.Some? ==> r.color == g.specGloss.value.diffuse
                                  && r.colorTexture == GetTexture(g.specGloss.value.diffuseTexture)
    ensures g.specGloss.None? ==> r.color == g.metalRough.baseColor
                                  && r.colorTexture == GetTexture(g.metalRough.baseColorTexture)
    ensures r.alphaCutoff == (if g.alphaCutoff.Some? then g.alphaCutoff.value else DEFAULT_ALPHA_CUTOFF)
    ensures r.occlusion == (if g.occlusionTexture.Some? then g.occlusionTexture.value.strength else 0.0)
    ensures r.normalsTexture.Some? ==> r.normalsTexture.value.tilling == DEFAULT_TILLING
    ensures r.occlusionTexture.Some? ==> r.occlusionTexture.value.tilling == DEFAULT_TILLING
    ensures IsTransparent(r) <==> g.alphaMode == Blend
    ensures AlphaModeOfIndex(r.alphaMode) == Some(g.alphaMode)
  {
    var color := if g.specGloss.Some? then g.specGloss.value.diffuse else g.metalRough.baseColor;
    var colorTexture := if g.specGloss.Some? then g.specGloss.value.diffuseTexture else g.metalRough.baseColorTexture;
    var (occlusion, occlusionTexture) := GetOcclusion(g.occlusionTexture);
    var workflow :=
      match g.specGloss
      case Some(pbr) => SpecularGlossiness(pbr.specular, pbr.glossiness, GetTexture(pbr.specGlossTexture))
      case None => MetallicRoughness(g.metalRough.metallic, g.metalRough.roughness,
                                     GetTexture(g.metalRough.metalRoughTexture));
    MaterialData(color, g.emissive, occlusion, GetTexture(colorTexture), GetTexture(g.emissiveTexture),
                 GetNormalsTexture(g.normalTexture), occlusionTexture, workflow,
                 AlphaModeIndex(g.alphaMode), g.alphaCutoff.UnwrapOr(DEFAULT_ALPHA_CUTOFF),
                 g.doubleSided, g.unlit)
  }

  /** The texture indices the material exposes are exactly those of the glTF material. */
  lemma TextureIndicesFollowGltf(g: GltfMaterial)
    ensures TextureIndex(FromGltf(g).emissiveTexture) ==
              (if g.emissiveTexture.Some? then Some(g.emissiveTexture.value.texture) else None)
    ensures TextureIndex(FromGltf(g).normalsTexture) ==
              (if g.normalTexture.Some? then Some(g.normalTexture.value.texture) else None)
    ensures TextureIndex(FromGltf(g).occlusionTexture) ==
              (if g.occlusionTexture.Some? then Some(g.occlusionTexture.value.texture) else None)
  {
  }
}
