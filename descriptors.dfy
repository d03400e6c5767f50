/**
 * The JSON values of a search-engine field mapping. A descriptor is one field's
 * mapping object (`{"type": "keyword", "index": true, ...}`), a mapping is the
 * `properties` object of a resource or of a nested field, and the type table maps a
 * FHIR type code to the descriptor it is indexed with.
 */
module Descriptors {
  import opened Dicts

  datatype Json =
    | Str(s: string)
    | Bool(b: bool)
    | Int(i: int)
    | Obj(fields: Dict<Json>)

  type Descriptor = Dict<Json>

  /** Field name to descriptor, in insertion order. */
  type Mapping = Dict<Descriptor>

  type TypeTable = map<string, Descriptor>

  /** A mapping as the JSON object that a descriptor's `properties` key holds. */
  function PropertiesJson(m: Mapping): (j: Json)
    ensures j.Obj? && Keys(j.fields) == Keys(m)
    ensures forall i :: 0 <= i < |m| ==> j.fields[i].1 == Obj(m[i].1)
  {
    Obj(seq(|m|, i requires 0 <= i < |m| => (m[i].0, Obj(m[i].1))))
  }

  /** The descriptor built for a `BackboneElement` field: `{"type": "nested", "properties": ...}`. */
  function NestedDescriptor(properties: Mapping): (d: Descriptor)
    ensures Keys(d) == ["type", "properties"]
    ensures Get(d, "type") == Str("nested")
    ensures Get(d, "properties") == PropertiesJson(properties)
  {
    [("type", Str("nested")), ("properties", PropertiesJson(properties))]
  }

  /**
   * The multiplicity rule: a repeated field whose descriptor has no `type` key gets
   * `"type": "nested"` appended; a descriptor with a `type` key, or a field that does
   * not repeat, is left as it is.
   */
  function Tagged(d: Descriptor, multiple: bool): (r: Descriptor)
    ensures HasKey(d, "type") || !multiple ==> r == d
    ensures multiple ==> HasKey(r, "type")
    ensures multiple && !HasKey(d, "type") ==>
      Keys(r) == Keys(d) + ["type"] && Get(r, "type") == Str("nested")
    ensures forall k :: k != "type" && HasKey(d, k) ==> HasKey(r, k) && Get(r, k) == Get(d, k)
    ensures UniqueKeys(d) ==> UniqueKeys(r)
  {
    if multiple && !HasKey(d, "type") then
      PutGet(d, "type", Str("nested"));
      PutUnique(d, "type", Str("nested"));
      Put(d, "type", Str("nested"))
    else d
  }
}
