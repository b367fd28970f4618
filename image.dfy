/** glTF 2.0 image decoding (section 5.18 of the glTF 2.0 specification) and the
    data-URI dispatch of RFC 2397 section 3. Base64 decoding, pixel decoding
    (QImage::fromData, QImage::load) and URL parsing are foreign code: the base64
    decoder is a parameter, and the model returns what would be handed to the
    image decoder instead of decoded pixels. */
module Image {
  import opened Common
  import opened Json

  /** The bytes and format string passed to QImage::fromData. */
  datatype ImageBytes = ImageBytes(data: seq<Byte>, format: string)

  /** What Image::m_image ends up holding. */
  datatype ImageContent =
    | NullImage                  // a default-constructed QImage
    | FromData(bytes: ImageBytes) // QImage::fromData(bytes.data, bytes.format)
    | FromFile(uri: string)       // QImage::load of the path of this URI

  datatype Image = Image(image: ImageContent, json: JsonObject)

  /** QByteArray::fromBase64Encoding: the decoded bytes, or None when its status is not Ok. */
  type Base64Decoder = string -> Option<seq<Byte>>

  /** isValidJsonGLTFImage: "uri" and "bufferView" exclude each other, and an image
      stored in a buffer view must name its mimeType. */
  function IsValidJsonGltfImage(o: JsonObject): (ok: bool)
    ensures ok <==>
              ("uri" in o && "bufferView" !in o) ||
              ("uri" !in o && "bufferView" in o && "mimeType" in o)
  {
    var hasUri := "uri" in o;
    var hasBufferView := "bufferView" in o;
    var hasMimeType := "mimeType" in o;
    if hasUri then !hasBufferView
    else if hasBufferView then hasMimeType
    else false
  }

  /** GLTFImage::isValidJson, the same test as a member of the GLTFImage class. */
  function IsValidJson(o: JsonObject): (ok: bool)
    ensures "uri" in o && "bufferView" !in o ==> ok
    ensures "uri" in o && "bufferView" in o ==> !ok
    ensures "uri" !in o && "bufferView" in o ==> (ok <==> "mimeType" in o)
    ensures "uri" !in o && "bufferView" !in o ==> !ok
  {
    if "uri" in o then "bufferView" !in o
    else if "bufferView" in o then "mimeType" in o
    else false
  }

  /** isInternal: a data URI, "data:" compared without regard to case. */
  function IsInternal(uri: string): (r: bool)
    ensures r <==> |uri| >= 5 && EqualsIgnoreCase(uri[..5], "data:")
  {
    StartsWithIgnoreCase(uri, "data:")
  }

  predicate OccursAt(s: string, pat: string, j: int)
  {
    0 <= j && j + |pat| <= |s| && s[j..j + |pat|] == pat
  }

  /** QString::indexOf(pat, from), case-sensitive: the first occurrence at or after `from`. */
  function IndexFrom(s: string, pat: string, from: nat): (r: int)
    requires from <= |s|
    ensures r == -1 || (from <= r && OccursAt(s, pat, r))
    ensures forall j :: from <= j && (r == -1 || j < r) ==> !OccursAt(s, pat, j)
    decreases |s| - from
  {
    if OccursAt(s, pat, from) then from
    else if from == |s| then -1
    else IndexFrom(s, pat, from + 1)
  }

  /** QString::indexOf(pat): the first occurrence, or -1. */
  function IndexOf(s: string, pat: string): (r: int)
    ensures r == -1 <==> forall j :: 0 <= j ==> !OccursAt(s, pat, j)
    ensures r != -1 ==> OccursAt(s, pat, r) && forall j :: 0 <= j < r ==> !OccursAt(s, pat, j)
  {
    IndexFrom(s, pat, 0)
  }

  const BASE64_MARKER: string := "base64,"
  const OCTET_STREAM_MARKER: string := "application/octet-stream,"
  const GLTF_BUFFER_MARKER: string := "application/gltf-buffer,"

  /** The text after the first occurrence of `marker`, if it occurs. */
  function After(uri: string, marker: string): (r: Option<string>)
    ensures r.None? <==> IndexOf(uri, marker) == -1
    ensures r.Some? ==> exists i :: OccursAt(uri, marker, i) && r.value == uri[i + |marker|..]
  {
    var i := IndexOf(uri, marker);
    if i == -1 then None else Some(uri[i + |marker|..])
  }

  /** The payload getImageFromInternal hands to the base64 decoder: the markers are tried
      in the fixed order "base64,", "application/octet-stream,", "application/gltf-buffer,". */
  function Payload(uri: string): (r: Option<string>)
    ensures IndexOf(uri, BASE64_MARKER) != -1 ==> r == After(uri, BASE64_MARKER)
    ensures IndexOf(uri, BASE64_MARKER) == -1 && IndexOf(uri, OCTET_STREAM_MARKER) != -1 ==>
              r == After(uri, OCTET_STREAM_MARKER)
    ensures IndexOf(uri, BASE64_MARKER) == -1 && IndexOf(uri, OCTET_STREAM_MARKER) == -1 ==>
              r == After(uri, GLTF_BUFFER_MARKER)
    ensures r.None? <==>
              IndexOf(uri, BASE64_MARKER) == -1 && IndexOf(uri, OCTET_STREAM_MARKER) == -1 &&
              IndexOf(uri, GLTF_BUFFER_MARKER) == -1
  {
    var b := After(uri, BASE64_MARKER);
    if b.Some? then b
    else
      var o := After(uri, OCTET_STREAM_MARKER);
      if o.Some? then o else After(uri, GLTF_BUFFER_MARKER)
  }

  /** getImageFromInternal. Success(Some(bytes)): the function returns true after loading
      the image from `bytes`; Success(None): it returns false because no marker occurs;
      Failure: base64 decoding failed and the thrown GLTFException escapes. */
  function GetImageFromInternal(uri: string, format: string, decode: Base64Decoder)
    : (r: Result<Option<ImageBytes>, GltfException>)
    ensures r.Success? && r.value.Some? <==>
              Payload(uri).Some? && decode(Payload(uri).value).Some?
    ensures r.Success? && r.value.Some? ==>
              r.value.value == ImageBytes(decode(Payload(uri).value).value, format)
    ensures r.Success? && r.value.None? <==> Payload(uri).None?
    ensures r.Failure? ==> r.error == BASE64_DECODING_FAILED
  {
    match Payload(uri)
    case None => Success(None)
    case Some(payload) =>
      match decode(payload)
      case None => Failure(BASE64_DECODING_FAILED)
      case Some(bytes) => Success(Some(ImageBytes(bytes, format)))
  }

  /** createImageFromJson. Invalid JSON throws INVALID JSON EXCEPTION, which escapes. */
  function CreateImageFromJson(o: JsonObject, decode: Base64Decoder): (r: Result<Image, GltfException>)
    ensures r.Failure? <==>
              !IsValidJsonGltfImage(o) ||
              (IsInternal(StringAt(o, "uri")) && "uri" in o &&
               GetImageFromInternal(StringAt(o, "uri"), "image/jpeg", decode).Failure?)
    ensures !IsValidJsonGltfImage(o) ==> r == Failure(INVALID_JSON)
    ensures r.Success? ==> r.value.json == o
    // an image in a buffer view is not decoded here
    ensures r.Success? && "uri" !in o ==> r.value.image == NullImage
    // an external URI is loaded from a file
    ensures r.Success? && "uri" in o && !IsInternal(StringAt(o, "uri")) ==>
              r.value.image == FromFile(StringAt(o, "uri"))
    // a data URI with no mimeType is decoded as image/jpeg
    ensures r.Success? && "uri" in o && IsInternal(StringAt(o, "uri")) && StringAt(o, "mimeType") == "" ==>
              r.value.image ==
                (var g := GetImageFromInternal(StringAt(o, "uri"), "image/jpeg", decode);
                 if g.value.Some? then FromData(g.value.value) else NullImage)
    ensures r.Success? && "uri" in o && IsInternal(StringAt(o, "uri")) && StringAt(o, "mimeType") != "" ==>
              r.value.image ==
                (var g := GetImageFromInternal(StringAt(o, "uri"), StringAt(o, "mimeType"), decode);
                 if g.value.Some? then FromData(g.value.value) else NullImage)
  {
    if !IsValidJsonGltfImage(o) then Failure(INVALID_JSON)
    else if "uri" in o then
      var uri := StringAt(o, "uri");
      if IsInternal(uri) then
        var mimeType := StringAt(o, "mimeType");
        var format := if mimeType == "" then "image/jpeg" else mimeType;
        match GetImageFromInternal(uri, format, decode)
        case Failure(e) => Failure(e)
        case Success(loaded) =>
          Success(Image(if loaded.Some? then FromData(loaded.value) else NullImage, o))
      else
        Success(Image(FromFile(uri), o))
    else
      Success(Image(NullImage, o))
  }

  /** The two validity tests, in the header and in the GLTFImage class, agree. */
  lemma ValidityTestsAgree(o: JsonObject)
    ensures IsValidJson(o) == IsValidJsonGltfImage(o)
  {
  }

  /** A base64 data URI: the payload is what follows the first "base64,". */
  lemma Base64PayloadExample()
    ensures Payload("data:image/png;base64,QUJD") == Some("QUJD")
  {
    var uri := "data:image/png;base64,QUJD";
    assert OccursAt(uri, BASE64_MARKER, 15);
    assert forall j :: 0 <= j < 15 ==> !OccursAt(uri, BASE64_MARKER, j) by {
      forall j | 0 <= j < 15 ensures !OccursAt(uri, BASE64_MARKER, j) {
        assert uri[j + 6] != ',';
        assert uri[j..j + 7][6] == uri[j + 6];
      }
    }
  }
}
