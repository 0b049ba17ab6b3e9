/**
 * The server as the process holds it: the two globals as fields of one
 * object, and the request callback as a method that updates them.
 */
module App {
  import opened Wrappers
  import opened Words
  import opened Dictionary
  import opened Http
  import opened Handler

  class Server {
    /** The in-memory dictionary, grown with `push`. */
    var dictionary: seq<Entry>
    /** The number of requests received so far. */
    var requestCount: nat

    /** The store invariant every request keeps. */
    ghost predicate Valid()
      reads this
    {
      WellFormed(dictionary)
    }

    /** The state as the pure model of the handler sees it. */
    function Snapshot(): State
      reads this
    {
      State(dictionary, requestCount)
    }

    /** Process start: no entries and no requests yet. */
    constructor ()
      ensures Valid()
      ensures Snapshot() == Initial
    {
      dictionary := [];
      requestCount := 0;
    }

    /**
     * Handle one request as one atomic step: count it, dispatch on method and
     * path, and reply, with the new state and the reply those of `Step`.
     */
    method Handle(req: Request) returns (reply: Reply)
      requires Valid()
      modifies this
      ensures Valid()
      ensures requestCount == old(requestCount) + 1
      ensures (Snapshot(), reply) == Step(old(Snapshot()), req)
    {
      requestCount := requestCount + 1;

      if req.verb == "OPTIONS" {
        return Reply(204, None);
      }

      if req.path == Endpoint {
        if req.verb == "GET" {
          var word := req.word;
          if !Truthy(word) || !IsAlphaWord(word.value) {
            return MessageReply(400, InvalidWordParameter, requestCount);
          }
          var found := Find(dictionary, word.value);
          if found.Some? {
            var entry := dictionary[found.value];
            reply := Reply(200, Some(Fields(Some(entry.word), Some(entry.definition), None, requestCount, None)));
          } else {
            reply := MessageReply(404, WordNotFound(word.value), requestCount);
          }
        } else if req.verb == "POST" {
          match req.body
          case Malformed =>
            reply := MessageReply(400, InvalidJson, requestCount);
          case Parsed(word, definition) =>
            if !Truthy(word) || !Truthy(definition) || !IsAlphaWord(word.value) {
              return MessageReply(400, InvalidInput, requestCount);
            }
            var existing := Find(dictionary, word.value);
            if existing.Some? {
              reply := Reply(409, Some(Fields(None, None, Some(AlreadyExists(word.value)), requestCount, Some(|dictionary|))));
            } else {
              AppendNewPreservesWellFormed(dictionary, Entry(word.value, definition.value));
              dictionary := dictionary + [Entry(word.value, definition.value)];
              reply := Reply(201, Some(Fields(None, None, Some(NewEntryRecorded(word.value, definition.value)), requestCount, Some(|dictionary|))));
            }
        } else {
          reply := MessageReply(405, MethodNotAllowed, requestCount);
        }
      } else {
        reply := MessageReply(404, EndpointNotFound, requestCount);
      }
    }
  }

  /** The lower-cased forms of the words the scenario uses. */
  lemma ScenarioWords()
    ensures Lower("CAT") == "cat" && Lower("cat") == "cat" && Lower("dog") == "dog"
  {
    assert Lower("T") == "t";
    assert Lower("AT") == "at";
  }

  /**
   * A client of `Server`: the add, look up, re-add, miss and missing-parameter
   * sequence, with each reply derived from `Handle`'s contract alone.
   */
  method CatScenario()
  {
    ScenarioWords();
    var server := new Server();
    var cat := Entry("cat", "a feline");

    var add := Request("POST", Endpoint, None, Parsed(Some("cat"), Some("a feline")));
    PostAppendsNewWord(server.Snapshot(), add, "cat", "a feline");
    var r1 := server.Handle(add);
    assert r1.status == 201 && r1.body.value.totalEntries == Some(1) && r1.body.value.requestCount == 1;
    assert server.dictionary == [cat];

    var upper := Request("GET", Endpoint, Some("CAT"), Malformed);
    GetLooksUp(server.Snapshot(), upper, "CAT");
    var r2 := server.Handle(upper);
    assert r2 == Reply(200, Some(Fields(Some("cat"), Some("a feline"), None, 2, None)));

    PostRejectsDuplicate(server.Snapshot(), add, "cat", "a feline");
    var r3 := server.Handle(add);
    assert r3.status == 409 && r3.body.value.requestCount == 3;

    var dog := Request("GET", Endpoint, Some("dog"), Malformed);
    GetLooksUp(server.Snapshot(), dog, "dog");
    var r4 := server.Handle(dog);
    assert r4.status == 404 && r4.body.value.requestCount == 4;

    var missing := Request("GET", Endpoint, None, Malformed);
    GetRejectsInvalidWord(server.Snapshot(), missing);
    var r5 := server.Handle(missing);
    assert r5.status == 400 && r5.body.value.requestCount == 5;
    assert server.dictionary == [cat];
  }
}
