/** glTF 2.0 material and texture decoding (sections 5.19, 5.29 and 5.30 of the
    glTF 2.0 specification): integer indices, texture-coordinate sets, the alpha
    mode and doubleSided. Colour, metallic, roughness, scale, strength and cutoff
    factors are floating point and are not modelled. */
module Material {
  import opened Common
  import opened Json

  /** eAlphaMode; Code() is the enumerator's numeric value. */
  datatype AlphaMode = Opaque | Mask | Blend | AlphaInvalid
  {
    function Code(): nat {
      match this
      case Opaque => 1
      case Mask => 2
      case Blend => 3
      case AlphaInvalid => 99
    }
  }

  datatype Texture = Texture(samplerIdx: int, sourceIdx: int, json: JsonObject)
  datatype TextureInfo = TextureInfo(index: int, texCoord: int, json: JsonObject)
  datatype NormalTextureInfo = NormalTextureInfo(index: int, texCoord: int, json: JsonObject)
  datatype OcclusionTextureInfo = OcclusionTextureInfo(index: int, texCoord: int, json: JsonObject)
  datatype PbrMetallicRoughness = PbrMetallicRoughness(
    baseColorTexture: TextureInfo,
    metallicRoughnessTexture: TextureInfo,
    json: JsonObject)
  datatype Material = Material(
    doubleSided: bool,
    alphaMode: AlphaMode,
    pbrMetallicRoughness: PbrMetallicRoughness,
    normalTexture: NormalTextureInfo,
    occlusionTexture: OcclusionTextureInfo,
    emissiveTexture: TextureInfo,
    json: JsonObject)

  // The member initialisers of the structs.
  const DefaultTextureInfo: TextureInfo := TextureInfo(-1, 0, map[])
  const DefaultPbr: PbrMetallicRoughness := PbrMetallicRoughness(DefaultTextureInfo, DefaultTextureInfo, map[])
  const DefaultNormal: NormalTextureInfo := NormalTextureInfo(0, 0, map[])
  const DefaultOcclusion: OcclusionTextureInfo := OcclusionTextureInfo(0, 0, map[])

  /** createTextureFromJson */
  function CreateTextureFromJson(o: JsonObject): (t: Texture)
    ensures t.json == o
    ensures "sampler" !in o ==> t.samplerIdx == -1
    ensures "sampler" in o ==> t.samplerIdx == ToInteger(o["sampler"])
    ensures "source" !in o ==> t.sourceIdx == -1
    ensures "source" in o ==> t.sourceIdx == ToInteger(o["source"])
  {
    Texture(
      if "sampler" in o then IntegerAt(o, "sampler") else -1,
      if "source" in o then IntegerAt(o, "source") else -1,
      o)
  }

  /** texCoord as the three texture-info decoders read it. */
  function TexCoord(o: JsonObject): (c: int)
    ensures "texCoord" !in o ==> c == 0
    ensures "texCoord" in o ==> c == ToInteger(o["texCoord"])
  {
    if "texCoord" in o then IntegerAt(o, "texCoord") else 0
  }

  /** createTextureInfoFromJson. The index is read unconditionally, so an absent
      "index" gives 0, not the struct's initial -1. */
  function CreateTextureInfoFromJson(o: JsonObject): (t: TextureInfo)
    ensures t.json == o
    ensures t.index == IntegerAt(o, "index")
    ensures "index" !in o ==> t.index == 0
    ensures "texCoord" !in o ==> t.texCoord == 0
    ensures "texCoord" in o ==> t.texCoord == ToInteger(o["texCoord"])
  {
    TextureInfo(IntegerAt(o, "index"), TexCoord(o), o)
  }

  /** createNormalTextureInfoFromJson (the float scale is not modelled) */
  function CreateNormalTextureInfoFromJson(o: JsonObject): (t: NormalTextureInfo)
    ensures t.json == o
    ensures t.index == IntegerAt(o, "index")
    ensures "texCoord" !in o ==> t.texCoord == 0
    ensures "texCoord" in o ==> t.texCoord == ToInteger(o["texCoord"])
  {
    NormalTextureInfo(IntegerAt(o, "index"), TexCoord(o), o)
  }

  /** createOcclusionTextureInfoFromJson (the float strength is not modelled) */
  function CreateOcclusionTextureInfoFromJson(o: JsonObject): (t: OcclusionTextureInfo)
    ensures t.json == o
    ensures t.index == IntegerAt(o, "index")
    ensures "texCoord" !in o ==> t.texCoord == 0
    ensures "texCoord" in o ==> t.texCoord == ToInteger(o["texCoord"])
  {
    OcclusionTextureInfo(IntegerAt(o, "index"), TexCoord(o), o)
  }

  /** createPBRMetallicRoughnessFromJson: each texture is decoded only when its key is present. */
  function CreatePbrMetallicRoughnessFromJson(o: JsonObject): (p: PbrMetallicRoughness)
    ensures p.json == o
    ensures "baseColorTexture" !in o ==> p.baseColorTexture == DefaultTextureInfo
    ensures "baseColorTexture" in o ==>
              p.baseColorTexture == CreateTextureInfoFromJson(ToObject(o["baseColorTexture"]))
    ensures "metallicRoughnessTexture" !in o ==> p.metallicRoughnessTexture == DefaultTextureInfo
    ensures "metallicRoughnessTexture" in o ==>
              p.metallicRoughnessTexture == CreateTextureInfoFromJson(ToObject(o["metallicRoughnessTexture"]))
  {
    PbrMetallicRoughness(
      if "baseColorTexture" in o then CreateTextureInfoFromJson(ToObject(Value(o, "baseColorTexture")))
      else DefaultTextureInfo,
      if "metallicRoughnessTexture" in o then CreateTextureInfoFromJson(ToObject(Value(o, "metallicRoughnessTexture")))
      else DefaultTextureInfo,
      o)
  }

  /** The if/else chain on the "alphaMode" string. */
  function AlphaModeFromString(s: string): (m: AlphaMode)
    ensures m == Mask <==> EqualsIgnoreCase(s, "mask")
    ensures m == Blend <==> EqualsIgnoreCase(s, "blend")
    ensures m == Opaque <==> EqualsIgnoreCase(s, "opaque")
    ensures m == AlphaInvalid <==>
              !EqualsIgnoreCase(s, "mask") && !EqualsIgnoreCase(s, "blend") && !EqualsIgnoreCase(s, "opaque")
  {
    if EqualsIgnoreCase(s, "mask") then Mask
    else if EqualsIgnoreCase(s, "blend") then Blend
    else if EqualsIgnoreCase(s, "opaque") then Opaque
    else AlphaInvalid
  }

  /** createMaterialFromJson, without its floating-point factors. */
  function CreateMaterialFromJson(o: JsonObject): (m: Material)
    ensures m.json == o
    ensures "alphaMode" !in o ==> m.alphaMode == Opaque
    ensures "alphaMode" in o ==> m.alphaMode == AlphaModeFromString(ToStr(o["alphaMode"]))
    ensures m.doubleSided <==> "doubleSided" in o && o["doubleSided"] == JBool(true)
    ensures "pbrMetallicRoughness" !in o ==> m.pbrMetallicRoughness == DefaultPbr
    ensures "pbrMetallicRoughness" in o ==>
              m.pbrMetallicRoughness == CreatePbrMetallicRoughnessFromJson(ToObject(o["pbrMetallicRoughness"]))
    ensures "normalTexture" !in o ==> m.normalTexture == DefaultNormal
    ensures "normalTexture" in o ==>
              m.normalTexture == CreateNormalTextureInfoFromJson(ToObject(o["normalTexture"]))
    ensures "occlusionTexture" !in o ==> m.occlusionTexture == DefaultOcclusion
    ensures "occlusionTexture" in o ==>
              m.occlusionTexture == CreateOcclusionTextureInfoFromJson(ToObject(o["occlusionTexture"]))
    ensures "emissiveTexture" !in o ==> m.emissiveTexture == DefaultTextureInfo
    ensures "emissiveTexture" in o ==>
              m.emissiveTexture == CreateTextureInfoFromJson(ToObject(o["emissiveTexture"]))
  {
    var pbr := if "pbrMetallicRoughness" in o
               then CreatePbrMetallicRoughnessFromJson(ToObject(Value(o, "pbrMetallicRoughness")))
               else DefaultPbr;
    var normal := if "normalTexture" in o
                  then CreateNormalTextureInfoFromJson(ToObject(Value(o, "normalTexture")))
                  else DefaultNormal;
    var occlusion := if "occlusionTexture" in o
                     then CreateOcclusionTextureInfoFromJson(ToObject(Value(o, "occlusionTexture")))
                     else DefaultOcclusion;
    var emissive := if "emissiveTexture" in o
                    then CreateTextureInfoFromJson(ToObject(Value(o, "emissiveTexture")))
                    else DefaultTextureInfo;
    var alphaMode := if "alphaMode" in o then AlphaModeFromString(StringAt(o, "alphaMode")) else Opaque;
    Material(ToBool(Value(o, "doubleSided"), false), alphaMode, pbr, normal, occlusion, emissive, o)
  }
}
