/**
 * The parsed form of a JSON document (RFC 8259) as both halves of the
 * program see it: gjson's ordered iteration on the Go side and
 * JSON.parse on the TypeScript side.  Object members keep their textual
 * order.  Numbers and the two composite kinds also carry their raw source
 * text, because gjson's Result.String() hands that text back.
 */
module JsonDoc {

  datatype Json =
    | JString(text: string)
    | JNumber(raw: string)
    | JBool(b: bool)
    | JNull
    | JArray(elements: seq<Json>, raw: string)
    | JObject(members: seq<Member>, raw: string)

  datatype Member = Member(key: string, value: Json)

  /** gjson's Result.String(): the decoded text of a string, "true"/"false"
      for booleans, "" for null and the raw text of anything else. */
  function StringOf(v: Json): string
  {
    match v
    case JString(s) => s
    case JNumber(raw) => raw
    case JBool(b) => if b then "true" else "false"
    case JNull => ""
    case JArray(_, raw) => raw
    case JObject(_, raw) => raw
  }
}
