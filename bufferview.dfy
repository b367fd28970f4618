/** glTF 2.0 buffer views (section 5.11 of the glTF 2.0 specification): the
    GLTFBufferView object and the way its integer fields follow its JSON object. */
module BufferView {
  import opened Common
  import opened Json

  /** The five qsizetype fields of a buffer view, as one value. */
  datatype Fields = Fields(bufferIndex: int, byteOffset: int, byteLength: int, byteStride: int, target: int)

  /** The member initialisers shared by both constructors. */
  const DefaultFields: Fields := Fields(-1, 0, -1, -1, -1)

  /** isValidJson: a buffer view must name its buffer and its byteLength. */
  function IsValidJson(o: JsonObject): (ok: bool)
    ensures ok <==> "buffer" in o && "byteLength" in o
  {
    "buffer" in o && "byteLength" in o
  }

  /** The effect of setValuesFromJson on the fields: the result flag and the fields afterwards.
      The fields are assigned in source order, and the two early returns leave whatever was
      assigned before them. */
  function ApplyJson(f: Fields, o: JsonObject): (r: (bool, Fields))
    ensures r.0 <==> IsValidJson(o)
    // without "buffer" nothing is touched
    ensures "buffer" !in o ==> r.1 == f
    // without "byteLength" only bufferIndex and byteOffset have been updated
    ensures "buffer" in o && "byteLength" !in o ==>
              r.1 == f.(bufferIndex := ToInteger(o["buffer"]),
                        byteOffset := if "byteOffset" in o then ToInteger(o["byteOffset"]) else 0)
    // on success every field comes from the object, with the defaults for the optional keys
    ensures r.0 ==>
              r.1.bufferIndex == ToInteger(o["buffer"]) &&
              r.1.byteLength == ToInteger(o["byteLength"]) &&
              r.1.byteOffset == (if "byteOffset" in o then ToInteger(o["byteOffset"]) else 0) &&
              r.1.byteStride == (if "byteStride" in o then ToInteger(o["byteStride"]) else -1) &&
              r.1.target == (if "target" in o then ToInteger(o["target"]) else -1)
  {
    if "buffer" !in o then (false, f)
    else
      var f1 := f.(bufferIndex := IntegerAt(o, "buffer"),
                   byteOffset := if "byteOffset" in o then IntegerAt(o, "byteOffset") else 0);
      if "byteLength" !in o then (false, f1)
      else
        (true, f1.(byteLength := IntegerAt(o, "byteLength"),
                   byteStride := if "byteStride" in o then IntegerAt(o, "byteStride") else -1,
                   target := if "target" in o then IntegerAt(o, "target") else -1))
  }

  /** On valid JSON the fields afterwards do not depend on the fields before. */
  lemma ApplyJsonForgetsOldFields(f: Fields, g: Fields, o: JsonObject)
    requires IsValidJson(o)
    ensures ApplyJson(f, o) == ApplyJson(g, o)
  {
  }

  /** Applying the same valid object twice gives what applying it once gives. */
  lemma ApplyJsonIdempotent(f: Fields, o: JsonObject)
    ensures ApplyJson(ApplyJson(f, o).1, o) == ApplyJson(f, o)
  {
  }

  class GltfBufferView {
    var bufferIndex: int
    var byteOffset: int
    var byteLength: int
    var byteStride: int
    var target: int
    var jsonObject: JsonObject

    function CurrentFields(): Fields
      reads this
    {
      Fields(bufferIndex, byteOffset, byteLength, byteStride, target)
    }

    /** GLTFBufferView(parent): every field at its initial value and an empty object. */
    constructor ()
      ensures CurrentFields() == DefaultFields
      ensures jsonObject == map[]
    {
      bufferIndex := -1;
      byteOffset := 0;
      byteLength := -1;
      byteStride := -1;
      target := -1;
      jsonObject := map[];
    }

    /** GLTFBufferView(jsonObj, parent): the object is stored, and the fields are read from it
        only when it is valid. */
    constructor FromJson(o: JsonObject)
      ensures jsonObject == o
      ensures !IsValidJson(o) ==> CurrentFields() == DefaultFields
      ensures IsValidJson(o) ==> CurrentFields() == ApplyJson(DefaultFields, o).1
    {
      jsonObject := o;
      bufferIndex := -1;
      byteOffset := 0;
      byteLength := -1;
      byteStride := -1;
      target := -1;
      new;
      if IsValidJson(jsonObject) {
        var _ := SetValuesFromJson();
      }
    }

    /** isValid */
    function IsValid(): (ok: bool)
      reads this
      ensures ok <==> "buffer" in jsonObject && "byteLength" in jsonObject
    {
      IsValidJson(jsonObject)
    }

    /** setValuesFromJson */
    method SetValuesFromJson() returns (ok: bool)
      modifies this
      ensures (ok, CurrentFields()) == ApplyJson(old(CurrentFields()), jsonObject)
      ensures jsonObject == old(jsonObject)
    {
      if "buffer" in jsonObject {
        bufferIndex := IntegerAt(jsonObject, "buffer");
      } else {
        return false;
      }

      if "byteOffset" in jsonObject {
        byteOffset := IntegerAt(jsonObject, "byteOffset");
      } else {
        byteOffset := 0;
      }

      if "byteLength" in jsonObject {
        byteLength := IntegerAt(jsonObject, "byteLength");
      } else {
        return false;
      }

      if "byteStride" in jsonObject {
        byteStride := IntegerAt(jsonObject, "byteStride");
      } else {
        byteStride := -1;
      }

      if "target" in jsonObject {
        target := IntegerAt(jsonObject, "target");
      } else {
        target := -1;
      }

      return true;
    }

    /** setJsonObject: invalid JSON is refused and changes nothing. */
    method SetJsonObject(o: JsonObject) returns (ok: bool)
      modifies this
      ensures ok <==> IsValidJson(o)
      ensures !IsValidJson(o) ==> jsonObject == old(jsonObject) && CurrentFields() == old(CurrentFields())
      ensures IsValidJson(o) ==> jsonObject == o && CurrentFields() == ApplyJson(old(CurrentFields()), o).1
    {
      if IsValidJson(o) {
        jsonObject := o;
        ok := SetValuesFromJson();
        return;
      }
      return false;
    }
  }
}
