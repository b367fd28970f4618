/** glTF 2.0 mesh decoding (section 5.24 of the glTF 2.0 specification):
    mesh primitives, their topology mode, and whole meshes. */
module Mesh {
  import opened Common
  import opened Json

  /** ePrimitiveMode; Code() is the enumerator's numeric value. */
  datatype PrimitiveMode =
    | Points | Lines | LineLoop | LineStrip | Triangles | TriangleStrip | TriangleFan | ModeInvalid
  {
    function Code(): nat {
      match this
      case Points => 0
      case Lines => 1
      case LineLoop => 2
      case LineStrip => 3
      case Triangles => 4
      case TriangleStrip => 5
      case TriangleFan => 6
      case ModeInvalid => 99
    }
  }

  datatype MeshPrimitive = MeshPrimitive(
    indicesIdx: int,
    materialIdx: int,
    mode: PrimitiveMode,
    json: JsonObject)

  /** A default-constructed MeshPrimitive. */
  const DefaultPrimitive: MeshPrimitive := MeshPrimitive(0, 0, Triangles, map[])

  /** A Mesh. The weights are kept as the JSON array elements they were read from
      (their conversion to float is not modelled). */
  datatype Mesh = Mesh(primitives: seq<MeshPrimitive>, weights: seq<JsonValue>, json: JsonObject)

  /** The `switch (mode)` of getMeshPrimitiveFromJson. */
  function ModeFromCode(code: int): (m: PrimitiveMode)
    ensures 0 <= code <= 6 ==> m != ModeInvalid && m.Code() == code
    ensures !(0 <= code <= 6) ==> m == ModeInvalid
  {
    match code
    case 0 => Points
    case 1 => Lines
    case 2 => LineLoop
    case 3 => LineStrip
    case 4 => Triangles
    case 5 => TriangleStrip
    case 6 => TriangleFan
    case _ => ModeInvalid
  }

  /** getMeshPrimitiveFromJson */
  function GetMeshPrimitiveFromJson(o: JsonObject): (p: MeshPrimitive)
    ensures p.json == o
    ensures "indices" !in o ==> p.indicesIdx == 0
    ensures "indices" in o ==> p.indicesIdx == ToInteger(o["indices"])
    ensures "material" !in o ==> p.materialIdx == 0
    ensures "material" in o ==> p.materialIdx == ToInteger(o["material"])
    ensures "mode" !in o ==> p.mode == Triangles
    ensures "mode" in o ==> p.mode == ModeFromCode(ToInteger(o["mode"]))
  {
    var indices := if "indices" in o then IntegerAt(o, "indices") else DefaultPrimitive.indicesIdx;
    var material := if "material" in o then IntegerAt(o, "material") else DefaultPrimitive.materialIdx;
    var mode := if "mode" in o then ModeFromCode(IntegerAt(o, "mode")) else DefaultPrimitive.mode;
    MeshPrimitive(indices, material, mode, o)
  }

  /** Every topology code of the table decodes to the enumerator with that numeric value. */
  lemma ModeCodeRoundTrip(m: PrimitiveMode)
    requires m != ModeInvalid
    ensures ModeFromCode(m.Code()) == m
  {
  }

  /** getPrimitivesFromJsonArray: resizes the output list to the array's length and
      decodes element i of the array into element i of the list. */
  method GetPrimitivesFromJsonArray(arr: seq<JsonValue>, prims0: seq<MeshPrimitive>)
    returns (prims: seq<MeshPrimitive>)
    ensures |prims| == |arr|
    ensures forall i :: 0 <= i < |arr| ==> prims[i] == GetMeshPrimitiveFromJson(ToObject(arr[i]))
  {
    var count := |arr|;
    prims := if count <= |prims0| then prims0[..count]
             else prims0 + seq(count - |prims0|, _ => DefaultPrimitive);
    for i := 0 to count
      invariant |prims| == count
      invariant forall j :: 0 <= j < i ==> prims[j] == GetMeshPrimitiveFromJson(ToObject(arr[j]))
    {
      prims := prims[i := GetMeshPrimitiveFromJson(ToObject(arr[i]))];
    }
  }

  /** createMeshFromJson. A mesh without "primitives" throws INVALID JSON EXCEPTION,
      which escapes the function. */
  method CreateMeshFromJson(o: JsonObject) returns (r: Result<Mesh, GltfException>)
    ensures r.Failure? <==> "primitives" !in o
    ensures r.Failure? ==> r.error == INVALID_JSON
    ensures r.Success? ==> r.value.json == o
    ensures r.Success? ==> |r.value.primitives| == |ToArray(o["primitives"])|
    ensures r.Success? ==> forall i :: 0 <= i < |r.value.primitives| ==>
              r.value.primitives[i] == GetMeshPrimitiveFromJson(ToObject(ToArray(o["primitives"])[i]))
    ensures r.Success? ==> ("weights" !in o ==> r.value.weights == [])
    ensures r.Success? ==> ("weights" in o ==> r.value.weights == ToArray(o["weights"]))
  {
    if "primitives" !in o {
      return Failure(INVALID_JSON);
    }
    var mesh := Mesh([], [], map[]);
    var prims := GetPrimitivesFromJsonArray(ToArray(Value(o, "primitives")), mesh.primitives);
    mesh := mesh.(primitives := prims);
    if "weights" in o {
      mesh := mesh.(weights := ToArray(Value(o, "weights")));
    }
    mesh := mesh.(json := o);
    return Success(mesh);
  }
}
