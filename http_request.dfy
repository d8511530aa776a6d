/**
  What the builder leaves in its okhttp3.Request.Builder slot, as a value:
  the verb applied (with its body), the URL handed to url(...), and the
  headers added so far, in the order they were added.
 */
module HttpRequest {
  import opened Wrappers
  import opened LinkedMap

  /** A request body. The JSON text of a map and the form encoding of the
      fields are produced by external libraries; the body records the
      entries they are produced from. */
  datatype Body =
    | JsonBody(contentType: string, fields: seq<Entry>)
    | FormBody(fields: seq<Entry>)

  /** The verb call made on the Request.Builder, if any. NoVerb leaves the
      library's default in place. */
  datatype Verb =
    | NoVerb
    | Get
    | Post(body: Option<Body>)
    | Put(body: Option<Body>)
    | Delete(body: Option<Body>)

  datatype Request = Request(verb: Verb, url: string, headers: seq<Entry>)
}
