/** The JavaScript values the modelled code exchanges: parsed JSON documents
    and the exceptions it raises, catches or rethrows. */
module Js {

  /** A value as `JSON.parse` returns it. JSON numbers are modelled as
      integers; see README, "Left out". */
  datatype Json =
    | JNull
    | JBool(b: bool)
    | JNumber(n: int)
    | JString(s: string)
    | JArray(items: seq<Json>)
    | JObject(fields: map<string, Json>)

  /** An exception. `AbortError` is the `DOMException` named 'AbortError'
      that an aborted `fetch` or read rejects with; `IoError` is any other
      failure of the network or of the response body; `SyntaxError` is what
      `JSON.parse` throws; `SchemaError` is zod's `ZodError`. */
  datatype Error =
    | AbortError
    | IoError(reason: string)
    | SyntaxError
    | SchemaError
}
