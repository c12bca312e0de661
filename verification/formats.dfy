/** The already-parsed forms of both file formats, and the ways a conversion can fail. */
module Formats {
  import opened Values
  import opened Dicts

  /** A CSV file as the record reader sees it: the header row and the data records
      (blank lines are skipped by the reader and never appear here). */
  datatype Table = Table(header: seq<string>, rows: seq<seq<string>>)

  /** A flat JSON object: string keys in insertion order, scalar values. */
  type Document = Dict<Value>

  /** A loaded JSON value. Nested objects, booleans and null are not modelled. */
  datatype Json = JArray(items: seq<Json>) | JObject(fields: Document) | JScalar(value: Value)

  /** Why a conversion stops. Each one ends the run with a diagnostic and a non-zero exit. */
  datatype Failure =
    | NotAnArray                                 // JSON top level is not an array
    | NotAnObject(index: nat)                    // array element `index` is not an object
    | ExtraKeys(index: nat, keys: set<string>)   // object `index` has keys outside the header
    | RaggedRow(index: nat)                      // CSV record `index` does not match the header

  /** The JSON array `json.dump` writes for a sequence of documents. */
  function ToJson(docs: seq<Document>): (j: Json)
    ensures j.JArray? && |j.items| == |docs|
    ensures forall i :: 0 <= i < |docs| ==> j.items[i] == JObject(docs[i])
  {
    JArray(seq(|docs|, i requires 0 <= i < |docs| => JObject(docs[i])))
  }
}
