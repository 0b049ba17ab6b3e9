/**
 * What a request carries once the transport has done its part, and what the
 * handler sends back: a status code and, except for the preflight, a JSON
 * object given here as a record of optional fields.
 */
module Http {
  import opened Wrappers

  /** The only path the handler serves. */
  const Endpoint: string := "/api/definitions"

  /** The outcome of `JSON.parse` on a POST body, destructured into `{ word, definition }`. */
  datatype PostBody =
    | Malformed
    | Parsed(word: Option<string>, definition: Option<string>)

  /**
   * One request: the method as sent, the URL's pathname, its `word` search
   * parameter, and the body (used only by POST).
   */
  datatype Request = Request(verb: string, path: string, word: Option<string>, body: PostBody)

  /** The `message` texts, with the values each one interpolates. */
  datatype Message =
    | InvalidWordParameter
    | WordNotFound(word: string)
    | InvalidInput
    | AlreadyExists(word: string)
    | NewEntryRecorded(word: string, definition: string)
    | InvalidJson
    | MethodNotAllowed
    | EndpointNotFound

  /** The fields of the JSON reply; `requestCount` is present in every reply body. */
  datatype Fields = Fields(
    word: Option<string>,
    definition: Option<string>,
    message: Option<Message>,
    requestCount: nat,
    totalEntries: Option<nat>)

  /** A status code and the reply body, absent for the 204 preflight answer. */
  datatype Reply = Reply(status: nat, body: Option<Fields>)

  /** The fixed headers set on every reply before any branching. */
  const ContentType: string := "application/json"
  const AllowOrigin: string := "*"
  const AllowMethods: string := "GET, POST, OPTIONS"
  const AllowHeaders: string := "Content-Type"

  /** JavaScript truthiness of an optional string: present and not empty. */
  predicate Truthy(o: Option<string>)
  {
    o.Some? && o.value != ""
  }

  /** A reply whose body holds only a message and the request count. */
  function MessageReply(status: nat, m: Message, count: nat): Reply
  {
    Reply(status, Some(Fields(None, None, Some(m), count, None)))
  }
}
