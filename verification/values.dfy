/**
 * The values that flow through the pipeline, and the foreign libraries the
 * pipeline calls but does not implement (Jackson, Float.parseFloat,
 * MessageDigest, commons-codec Hex), passed around as one record of functions.
 */
module Values {
  import opened Wrappers

  /** The bits of a Java `float`; its numerics are not modelled. */
  type FloatBits = bv32

  /** A Java object put into a row record: null, Integer, Float, Boolean or String. */
  datatype Value =
    | VNull
    | VInt(i: int)
    | VFloat(bits: FloatBits)
    | VBool(b: bool)
    | VStr(s: string)

  /** A row record: the `HashMap<String, Object>` a row transformer fills. */
  type Record = map<string, Value>

  /**
   * A Jackson tree node. A number keeps its literal text; an object keeps its
   * fields in document order, duplicates included.
   */
  datatype Json =
    | JNull
    | JBool(b: bool)
    | JNum(literal: string)
    | JStr(s: string)
    | JArray(items: seq<Json>)
    | JObject(fields: seq<(string, Json)>)

  /**
   * The foreign functions. `None` from a parser stands for the exception it
   * throws.
   */
  datatype Foreign = Foreign(
    parseFloat: string -> Option<FloatBits>,     // Float.parseFloat
    readTree: string -> Option<Json>,            // ObjectMapper.readTree / readValue
    writeJson: Json -> string,                   // ObjectMapper.writeValueAsString of a node
    writeRecord: Record -> string,               // ObjectMapper.writeValueAsString of a row record
    writeMetadata: map<string, Json> -> string,  // ObjectMapper.writeValueAsString of the metadata map
    objectText: Json -> string,                  // String.valueOf of the Number, List or Map Jackson builds
    utf8: string -> seq<bv8>,                    // String.getBytes(UTF_8)
    sha256: seq<bv8> -> seq<bv8>,                // MessageDigest "SHA-256"
    hex: seq<bv8> -> string                      // Hex.encodeHexString
  )

  /** Later fields overwrite earlier ones, as Jackson does when it builds a Map or an ObjectNode. */
  function FieldsToMap(fields: seq<(string, Json)>): (m: map<string, Json>)
    ensures forall i :: 0 <= i < |fields| ==> fields[i].0 in m
    ensures forall k :: k in m ==> exists i :: 0 <= i < |fields| && fields[i].0 == k
  {
    if |fields| == 0 then map[]
    else FieldsToMap(fields[..|fields| - 1])[fields[|fields| - 1].0 := fields[|fields| - 1].1]
  }

  /** `node.path(name)`: the named field of an object, or none for anything else. */
  function PathField(node: Json, name: string): (r: Option<Json>)
    ensures r.Some? <==> node.JObject? && name in FieldsToMap(node.fields)
    ensures r.Some? ==> r.value == FieldsToMap(node.fields)[name]
  {
    if node.JObject? && name in FieldsToMap(node.fields) then Some(FieldsToMap(node.fields)[name]) else None
  }

  /**
   * `JsonNode.asText()` of a field looked up with `path`: a missing field
   * and a container give the empty string, null gives "null".
   */
  function AsText(node: Option<Json>, f: Foreign): string
  {
    match node
    case None => ""
    case Some(JNull) => "null"
    case Some(JBool(b)) => if b then "true" else "false"
    case Some(JNum(literal)) => f.objectText(JNum(literal))
    case Some(JStr(s)) => s
    case Some(JArray(_)) => ""
    case Some(JObject(_)) => ""
  }

  /** `String.valueOf` of the Java object Jackson builds from a node. */
  function ValueOf(node: Json, f: Foreign): string
  {
    match node
    case JNull => "null"
    case JBool(b) => if b then "true" else "false"
    case JStr(s) => s
    case _ => f.objectText(node)
  }
}
