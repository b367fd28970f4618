/** glTF 2.0 sampler decoding (section 5.26 of the glTF 2.0 specification):
    the magFilter, minFilter, wrapS and wrapT codes and their enumerations. */
module Sampler {
  import opened Common
  import opened Json

  const TWO_64: int := 0x1_0000_0000_0000_0000

  /** eSamplerFilter; Code() is the enumerator's numeric value. */
  datatype SamplerFilter =
    | FilterNotSet
    | Nearest
    | Linear
    | NearestMipmapNearest
    | LinearMipmapNearest
    | NearestMipmapLinear
    | LinearMipmapLinear
    | FilterInvalid
  {
    function Code(): nat {
      match this
      case FilterNotSet => 1
      case Nearest => 9728
      case Linear => 9729
      case NearestMipmapNearest => 9984
      case LinearMipmapNearest => 9985
      case NearestMipmapLinear => 9986
      case LinearMipmapLinear => 9987
      case FilterInvalid => 9999
    }
  }

  /** eSamplerWrapMode; Code() is the enumerator's numeric value. */
  datatype WrapMode = WrapNotSet | Repeat | ClampToEdge | MirroredRepeat | WrapInvalid
  {
    function Code(): nat {
      match this
      case WrapNotSet => 1
      case Repeat => 10497
      case ClampToEdge => 33071
      case MirroredRepeat => 33648
      case WrapInvalid => 9999
    }
  }

  datatype Sampler = Sampler(
    magFilter: SamplerFilter,
    minFilter: SamplerFilter,
    wrapS: WrapMode,
    wrapT: WrapMode,
    json: JsonObject)

  /** The code a sampler field is switched on: `contains(key) ? value(key).toInteger() : default`,
      held in a quint64. */
  function FieldCode(o: JsonObject, key: string, default: nat): (c: nat)
    requires default < TWO_64
    ensures key !in o ==> c == default
    ensures key in o && o[key].JInt? && 0 <= o[key].n < TWO_63 ==> c == o[key].n
    ensures key in o && !o[key].JInt? ==> c == 0
  {
    if key in o then IntegerAt(o, key) % TWO_64 else default
  }

  /** The magFilter switch: only NEAREST and LINEAR are magnification filters. */
  function MagFilterFromCode(code: nat): (f: SamplerFilter)
    ensures f == FilterNotSet <==> code == 0
    ensures f == Nearest <==> code == 9728
    ensures f == Linear <==> code == 9729
    ensures f == FilterInvalid <==> code != 0 && code != 9728 && code != 9729
    ensures f != FilterNotSet && f != FilterInvalid ==> f.Code() == code
  {
    match code
    case 0 => FilterNotSet
    case 9728 => Nearest
    case 9729 => Linear
    case _ => FilterInvalid
  }

  /** The minFilter switch: the two plain filters and the four mipmap filters. */
  function MinFilterFromCode(code: nat): (f: SamplerFilter)
    ensures f == FilterNotSet <==> code == 0
    ensures f == FilterInvalid <==> code !in {0, 9728, 9729, 9984, 9985, 9986, 9987}
    ensures f != FilterNotSet && f != FilterInvalid ==> f.Code() == code
  {
    match code
    case 0 => FilterNotSet
    case 9728 => Nearest
    case 9729 => Linear
    case 9984 => NearestMipmapNearest
    case 9985 => LinearMipmapNearest
    case 9986 => NearestMipmapLinear
    case 9987 => LinearMipmapLinear
    case _ => FilterInvalid
  }

  /** The wrapS / wrapT switch (one table for both). */
  function WrapModeFromCode(code: nat): (w: WrapMode)
    ensures w == WrapNotSet <==> code == 0
    ensures w == Repeat <==> code == 10497
    ensures w == ClampToEdge <==> code == 33071
    ensures w == MirroredRepeat <==> code == 33648
    ensures w == WrapInvalid <==> code !in {0, 10497, 33071, 33648}
    ensures w != WrapNotSet && w != WrapInvalid ==> w.Code() == code
  {
    match code
    case 0 => WrapNotSet
    case 10497 => Repeat
    case 33071 => ClampToEdge
    case 33648 => MirroredRepeat
    case _ => WrapInvalid
  }

  /** createSamplerFromJson */
  function CreateSamplerFromJson(o: JsonObject): (s: Sampler)
    ensures s.json == o
    // absent filters and an explicit 0 both leave NOT_SET
    ensures "magFilter" !in o ==> s.magFilter == FilterNotSet
    ensures "minFilter" !in o ==> s.minFilter == FilterNotSet
    ensures "magFilter" in o && o["magFilter"] == JInt(0) ==> s.magFilter == FilterNotSet
    ensures "minFilter" in o && o["minFilter"] == JInt(0) ==> s.minFilter == FilterNotSet
    // absent wrap modes default to 10497, REPEAT
    ensures "wrapS" !in o ==> s.wrapS == Repeat
    ensures "wrapT" !in o ==> s.wrapT == Repeat
    // a present integer code goes through the tables
    ensures "magFilter" in o && o["magFilter"].JInt? && 0 <= o["magFilter"].n < TWO_63 ==>
              s.magFilter == MagFilterFromCode(o["magFilter"].n)
    ensures "minFilter" in o && o["minFilter"].JInt? && 0 <= o["minFilter"].n < TWO_63 ==>
              s.minFilter == MinFilterFromCode(o["minFilter"].n)
    ensures "wrapS" in o && o["wrapS"].JInt? && 0 <= o["wrapS"].n < TWO_63 ==>
              s.wrapS == WrapModeFromCode(o["wrapS"].n)
    ensures "wrapT" in o && o["wrapT"].JInt? && 0 <= o["wrapT"].n < TWO_63 ==>
              s.wrapT == WrapModeFromCode(o["wrapT"].n)
    // a present value that is not a number reads as 0
    ensures "wrapS" in o && !o["wrapS"].JInt? ==> s.wrapS == WrapNotSet
  {
    Sampler(
      MagFilterFromCode(FieldCode(o, "magFilter", 0)),
      MinFilterFromCode(FieldCode(o, "minFilter", 0)),
      WrapModeFromCode(FieldCode(o, "wrapS", 10497)),
      WrapModeFromCode(FieldCode(o, "wrapT", 10497)),
      o)
  }

  /** Decoding the numeric value of a magnification filter gives the filter back. */
  lemma MagFilterCodeRoundTrip(f: SamplerFilter)
    requires f == Nearest || f == Linear
    ensures MagFilterFromCode(f.Code()) == f
  {
  }

  /** The mipmap codes 9984-9987 are minification-only: as magFilter they are INVALID. */
  lemma MipmapCodesInvalidForMag(code: nat)
    requires 9984 <= code <= 9987
    ensures MagFilterFromCode(code) == FilterInvalid && MinFilterFromCode(code) != FilterInvalid
  {
  }

  /** Decoding the numeric value of any real filter as a minFilter gives the filter back. */
  lemma MinFilterCodeRoundTrip(f: SamplerFilter)
    requires f != FilterNotSet && f != FilterInvalid
    ensures MinFilterFromCode(f.Code()) == f
  {
  }

  /** Decoding the numeric value of any real wrap mode gives the mode back. */
  lemma WrapModeCodeRoundTrip(w: WrapMode)
    requires w != WrapNotSet && w != WrapInvalid
    ensures WrapModeFromCode(w.Code()) == w
  {
  }
}
