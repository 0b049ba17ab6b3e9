/**
 * The request callback as a function from the shared state and one request
 * to the new state and the reply, with the properties the handler promises
 * about one request and about a run of requests.
 */
module Handler {
  import opened Wrappers
  import opened Words
  import opened Dictionary
  import opened Http

  /** The process-wide state the callback shares across requests. */
  datatype State = State(dictionary: seq<Entry>, requestCount: nat)

  /** The state at process start: an empty dictionary and a zero counter. */
  const Initial: State := State([], 0)

  /** The checks `!word || !/^[a-zA-Z]+$/.test(word)` fail, so the word is accepted. */
  predicate ValidWord(o: Option<string>)
  {
    Truthy(o) && IsAlphaWord(o.value)
  }

  /** The checks of a POST body pass: a valid word and a non-empty definition. */
  predicate ValidInput(word: Option<string>, definition: Option<string>)
  {
    ValidWord(word) && Truthy(definition)
  }

  /** The request reaches the endpoint's dispatch: not a preflight and the right path. */
  predicate AtEndpoint(req: Request)
  {
    req.verb != "OPTIONS" && req.path == Endpoint
  }

  /** The GET lookup; `count` is the counter after this request's increment. */
  function Get(d: seq<Entry>, count: nat, word: Option<string>): Reply
  {
    if !ValidWord(word) then MessageReply(400, InvalidWordParameter, count)
    else match FirstMatch(d, word.value)
      case Some(i) => Reply(200, Some(Fields(Some(d[i].word), Some(d[i].definition), None, count, None)))
      case None => MessageReply(404, WordNotFound(word.value), count)
  }

  /** The POST insert-if-absent, giving the new dictionary and the reply. */
  function Post(d: seq<Entry>, count: nat, body: PostBody): (seq<Entry>, Reply)
  {
    match body
    case Malformed => (d, MessageReply(400, InvalidJson, count))
    case Parsed(word, definition) =>
      if !ValidInput(word, definition) then (d, MessageReply(400, InvalidInput, count))
      else if FirstMatch(d, word.value).Some? then
        (d, Reply(409, Some(Fields(None, None, Some(AlreadyExists(word.value)), count, Some(|d|)))))
      else
        var d' := d + [Entry(word.value, definition.value)];
        (d', Reply(201, Some(Fields(None, None, Some(NewEntryRecorded(word.value, definition.value)), count, Some(|d'|)))))
  }

  /** One request: count it, then dispatch on method and path. */
  function Step(s: State, req: Request): (State, Reply)
  {
    var count := s.requestCount + 1;
    var d := s.dictionary;
    if req.verb == "OPTIONS" then (State(d, count), Reply(204, None))
    else if req.path != Endpoint then (State(d, count), MessageReply(404, EndpointNotFound, count))
    else if req.verb == "GET" then (State(d, count), Get(d, count, req.word))
    else if req.verb == "POST" then
      var (d', reply) := Post(d, count, req.body);
      (State(d', count), reply)
    else (State(d, count), MessageReply(405, MethodNotAllowed, count))
  }

  /** A sequence of requests handled one after another, with the replies in order. */
  function Run(s: State, reqs: seq<Request>): (r: (State, seq<Reply>))
    ensures |r.1| == |reqs|
    decreases |reqs|
  {
    if reqs == [] then (s, [])
    else
      var (s1, reply) := Step(s, reqs[0]);
      var (s2, replies) := Run(s1, reqs[1..]);
      (s2, [reply] + replies)
  }

  // ---------------------------------------------------------------------------
  // One request
  // ---------------------------------------------------------------------------

  /**
   * Every request is counted exactly once whatever its outcome; every reply
   * that has a body reports the incremented count, and only the preflight
   * reply has no body.
   */
  lemma StepCounts(s: State, req: Request)
    ensures Step(s, req).0.requestCount == s.requestCount + 1
    ensures Step(s, req).1.body.None? <==> req.verb == "OPTIONS"
    ensures Step(s, req).1.body.Some? ==> Step(s, req).1.body.value.requestCount == s.requestCount + 1
  {
  }

  /** A preflight on any path answers 204 with no body and changes no entry. */
  lemma PreflightAnswers204(s: State, req: Request)
    requires req.verb == "OPTIONS"
    ensures Step(s, req).1 == Reply(204, None)
    ensures Step(s, req).0.dictionary == s.dictionary
  {
  }

  /**
   * A GET whose word is absent, empty or not letters only is refused with 400
   * whatever the dictionary holds, so it never reaches the lookup and never
   * answers 404.
   */
  lemma GetRejectsInvalidWord(s: State, req: Request)
    requires AtEndpoint(req) && req.verb == "GET"
    requires req.word.None? || !IsAlphaWord(req.word.value)
    ensures Step(s, req).1 == MessageReply(400, InvalidWordParameter, s.requestCount + 1)
    ensures Step(s, req).1.status != 404
    ensures Step(s, req).0.dictionary == s.dictionary
  {
  }

  /**
   * A GET with a valid word answers 200 exactly when some entry matches it
   * case-insensitively, and 404 otherwise. A 200 reply carries a stored entry
   * in its stored case, one that matches the probe; in a well-formed store it
   * is the only matching entry. The dictionary does not change.
   */
  lemma GetLooksUp(s: State, req: Request, w: string)
    requires AtEndpoint(req) && req.verb == "GET"
    requires req.word == Some(w) && IsAlphaWord(w)
    ensures Step(s, req).0.dictionary == s.dictionary
    ensures Step(s, req).1.status == 200 <==> Contains(s.dictionary, w)
    ensures Step(s, req).1.status != 200 ==>
              Step(s, req).1 == MessageReply(404, WordNotFound(w), s.requestCount + 1)
    ensures Step(s, req).1.status == 200 ==>
              var f := Step(s, req).1.body.value;
              && f.word.Some? && f.definition.Some? && f.message.None? && f.totalEntries.None?
              && Entry(f.word.value, f.definition.value) in s.dictionary
              && SameWord(f.word.value, w)
    ensures WellFormed(s.dictionary) ==>
              forall i :: 0 <= i < |s.dictionary| && Matches(s.dictionary[i], w) ==>
                Step(s, req).1.body.value.word == Some(s.dictionary[i].word) &&
                Step(s, req).1.body.value.definition == Some(s.dictionary[i].definition)
  {
    if WellFormed(s.dictionary) {
      forall i | 0 <= i < |s.dictionary| && Matches(s.dictionary[i], w)
        ensures Step(s, req).1.body.value.word == Some(s.dictionary[i].word)
        ensures Step(s, req).1.body.value.definition == Some(s.dictionary[i].definition)
      {
        OnlyMatch(s.dictionary, w, i);
      }
    }
  }

  /** A POST body that is not JSON is refused with 400 and stores nothing. */
  lemma PostRejectsMalformed(s: State, req: Request)
    requires AtEndpoint(req) && req.verb == "POST" && req.body == Malformed
    ensures Step(s, req).1 == MessageReply(400, InvalidJson, s.requestCount + 1)
    ensures Step(s, req).0.dictionary == s.dictionary
  {
  }

  /**
   * A POST whose word is missing, empty or not letters only, or whose
   * definition is missing or empty, is refused with 400 and stores nothing.
   */
  lemma PostRejectsInvalidInput(s: State, req: Request, word: Option<string>, definition: Option<string>)
    requires AtEndpoint(req) && req.verb == "POST" && req.body == Parsed(word, definition)
    requires word.None? || !IsAlphaWord(word.value) || definition.None? || definition.value == ""
    ensures Step(s, req).1 == MessageReply(400, InvalidInput, s.requestCount + 1)
    ensures Step(s, req).0.dictionary == s.dictionary
  {
  }

  /**
   * A POST of a word already present (case ignored) is refused with 409 and
   * stores nothing, so the first definition stays; the reply reports the
   * current number of entries.
   */
  lemma PostRejectsDuplicate(s: State, req: Request, w: string, def: string)
    requires AtEndpoint(req) && req.verb == "POST" && req.body == Parsed(Some(w), Some(def))
    requires IsAlphaWord(w) && def != ""
    requires Contains(s.dictionary, w)
    ensures Step(s, req).0.dictionary == s.dictionary
    ensures Step(s, req).1.status == 409
    ensures Step(s, req).1.body ==
              Some(Fields(None, None, Some(AlreadyExists(w)), s.requestCount + 1, Some(|s.dictionary|)))
  {
  }

  /**
   * A POST of a valid new word appends exactly that entry at the end, keeps
   * every earlier entry in place, and answers 201 with the new number of
   * entries.
   */
  lemma PostAppendsNewWord(s: State, req: Request, w: string, def: string)
    requires AtEndpoint(req) && req.verb == "POST" && req.body == Parsed(Some(w), Some(def))
    requires IsAlphaWord(w) && def != ""
    requires !Contains(s.dictionary, w)
    ensures Step(s, req).0.dictionary == s.dictionary + [Entry(w, def)]
    ensures Step(s, req).1.status == 201
    ensures Step(s, req).1.body ==
              Some(Fields(None, None, Some(NewEntryRecorded(w, def)), s.requestCount + 1, Some(|s.dictionary| + 1)))
  {
  }

  /** Any method other than GET, POST and OPTIONS on the endpoint is refused with 405. */
  lemma OtherMethodRejected(s: State, req: Request)
    requires AtEndpoint(req) && req.verb != "GET" && req.verb != "POST"
    ensures Step(s, req).1 == MessageReply(405, MethodNotAllowed, s.requestCount + 1)
    ensures Step(s, req).0.dictionary == s.dictionary
  {
  }

  /** Any request other than a preflight to any other path is refused with 404. */
  lemma OtherPathRejected(s: State, req: Request)
    requires req.verb != "OPTIONS" && req.path != Endpoint
    ensures Step(s, req).1 == MessageReply(404, EndpointNotFound, s.requestCount + 1)
    ensures Step(s, req).0.dictionary == s.dictionary
  {
  }

  /**
   * Only a 201 reply changes the dictionary, and then by one entry at the
   * end: every other outcome leaves it exactly as it was.
   */
  lemma StepAppendsOnlyOn201(s: State, req: Request)
    ensures Step(s, req).1.status != 201 ==> Step(s, req).0.dictionary == s.dictionary
    ensures Step(s, req).1.status == 201 ==>
              exists e :: Step(s, req).0.dictionary == s.dictionary + [e]
  {
    if Step(s, req).1.status == 201 {
      var d' := Step(s, req).0.dictionary;
      assert d' == s.dictionary + [d'[|s.dictionary|]];
    }
  }

  /** Every request keeps the store invariant: letters-only words, no two the same word. */
  lemma StepPreservesWellFormed(s: State, req: Request)
    requires WellFormed(s.dictionary)
    ensures WellFormed(Step(s, req).0.dictionary)
  {
    if AtEndpoint(req) && req.verb == "POST" && req.body.Parsed? {
      var word, definition := req.body.word, req.body.definition;
      if ValidInput(word, definition) && FirstMatch(s.dictionary, word.value).None? {
        AppendNewPreservesWellFormed(s.dictionary, Entry(word.value, definition.value));
      }
    }
  }

  // ---------------------------------------------------------------------------
  // Several requests
  // ---------------------------------------------------------------------------

  /**
   * After a successful or refused POST of a valid word, a GET for the same
   * word in any case finds it, with the definition of whichever POST stored
   * it first.
   */
  lemma PostThenGet(s: State, post: Request, get: Request, w: string, def: string, probe: string)
    requires AtEndpoint(post) && post.verb == "POST" && post.body == Parsed(Some(w), Some(def))
    requires IsAlphaWord(w) && def != ""
    requires AtEndpoint(get) && get.verb == "GET" && get.word == Some(probe)
    requires IsAlphaWord(probe) && SameWord(probe, w)
    ensures var reply := Step(Step(s, post).0, get).1;
            && reply.status == 200
            && reply.body.value.definition ==
                 Some(if Contains(s.dictionary, w)
                      then s.dictionary[FirstMatch(s.dictionary, w).value].definition
                      else def)
  {
    var d := s.dictionary;
    if !Contains(d, w) {
      FirstMatchAfterAppend(d, Entry(w, def), probe);
      assert FirstMatch(d, probe).None?;
    } else {
      assert FirstMatch(d, probe) == FirstMatch(d, w);
    }
  }

  /**
   * First write wins: once a valid word has been posted, posting it again in
   * any case is refused with 409 and leaves the dictionary as the first POST
   * left it.
   */
  lemma SecondPostRejected(s: State, first: Request, second: Request, w: string, def: string, w2: string, def2: string)
    requires AtEndpoint(first) && first.verb == "POST" && first.body == Parsed(Some(w), Some(def))
    requires IsAlphaWord(w) && def != ""
    requires AtEndpoint(second) && second.verb == "POST" && second.body == Parsed(Some(w2), Some(def2))
    requires IsAlphaWord(w2) && def2 != "" && SameWord(w2, w)
    ensures var s1 := Step(s, first).0;
            && Step(s1, second).1.status == 409
            && Step(s1, second).0.dictionary == s1.dictionary
  {
    var d := s.dictionary;
    if !Contains(d, w) {
      FirstMatchAfterAppend(d, Entry(w, def), w2);
    } else {
      assert FirstMatch(d, w2) == FirstMatch(d, w);
    }
  }

  /**
   * Over any run the counter advances by exactly the number of requests, and
   * the k-th reply reports the count after the k-th request.
   */
  lemma {:induction false} RunCounts(s: State, reqs: seq<Request>)
    ensures Run(s, reqs).0.requestCount == s.requestCount + |reqs|
    ensures |Run(s, reqs).1| == |reqs|
    ensures forall k :: 0 <= k < |reqs| && Run(s, reqs).1[k].body.Some? ==>
              Run(s, reqs).1[k].body.value.requestCount == s.requestCount + k + 1
    decreases |reqs|
  {
    if reqs != [] {
      StepCounts(s, reqs[0]);
      RunCounts(Step(s, reqs[0]).0, reqs[1..]);
    }
  }

  /** The store invariant holds after any run from a well-formed state, in particular from the start. */
  lemma {:induction false} RunPreservesWellFormed(s: State, reqs: seq<Request>)
    requires WellFormed(s.dictionary)
    ensures WellFormed(Run(s, reqs).0.dictionary)
    decreases |reqs|
  {
    if reqs != [] {
      StepPreservesWellFormed(s, reqs[0]);
      RunPreservesWellFormed(Step(s, reqs[0]).0, reqs[1..]);
    }
  }

  /** The request's body, whatever its method or path, asks to store `e`. */
  predicate Posts(req: Request, e: Entry)
  {
    req.body == Parsed(Some(e.word), Some(e.definition))
  }

  /** The request's body names a word equal to `w`, case ignored. */
  predicate PostsWord(req: Request, w: string)
  {
    req.body.Parsed? && req.body.word.Some? && SameWord(req.body.word.value, w)
  }

  /**
   * The store only grows: a run keeps every entry it started with in place,
   * and every entry it adds is the body of one of its requests that was
   * answered 201.
   */
  lemma {:induction false} RunGrowsFromPosts(s: State, reqs: seq<Request>)
    ensures s.dictionary <= Run(s, reqs).0.dictionary
    ensures forall e :: e in Run(s, reqs).0.dictionary ==>
              e in s.dictionary ||
              exists k :: 0 <= k < |reqs| && Posts(reqs[k], e) && Run(s, reqs).1[k].status == 201
    decreases |reqs|
  {
    if reqs != [] {
      var (s1, reply) := Step(s, reqs[0]);
      var rest := reqs[1..];
      StepAppendsOnlyOn201(s, reqs[0]);
      RunGrowsFromPosts(s1, rest);
      var replies := Run(s, reqs).1;
      assert replies == [reply] + Run(s1, rest).1;
      forall e | e in Run(s, reqs).0.dictionary
        ensures e in s.dictionary ||
                exists k :: 0 <= k < |reqs| && Posts(reqs[k], e) && replies[k].status == 201
      {
        if e !in s1.dictionary {
          var k :| 0 <= k < |rest| && Posts(rest[k], e) && Run(s1, rest).1[k].status == 201;
          assert reqs[k + 1] == rest[k] && replies[k + 1] == Run(s1, rest).1[k];
        } else if e !in s.dictionary {
          assert s1.dictionary == s.dictionary + [e];
          assert Posts(reqs[0], e) && replies[0].status == 201;
        }
      }
    }
  }

  /**
   * A word that no request of a run managed to insert (no 201 answered a
   * body naming it in any case), and that the store did not hold before, is
   * not found afterwards: a GET for it answers 404. Starting from `Initial`
   * this is "a word never inserted is not found".
   */
  lemma NeverInsertedNotFound(s: State, reqs: seq<Request>, get: Request, probe: string)
    requires !Contains(s.dictionary, probe)
    requires forall k :: 0 <= k < |reqs| && PostsWord(reqs[k], probe) ==> Run(s, reqs).1[k].status != 201
    requires AtEndpoint(get) && get.verb == "GET" && get.word == Some(probe) && IsAlphaWord(probe)
    ensures Step(Run(s, reqs).0, get).1.status == 404
  {
    var d := Run(s, reqs).0.dictionary;
    RunGrowsFromPosts(s, reqs);
    forall i | 0 <= i < |d|
      ensures !Matches(d[i], probe)
    {
      assert d[i] in d;
      if d[i] !in s.dictionary {
        var k :| 0 <= k < |reqs| && Posts(reqs[k], d[i]) && Run(s, reqs).1[k].status == 201;
        assert !PostsWord(reqs[k], probe);
      }
    }
  }
}
