# Word/definition lookup service: a Dafny model of the request handler

The service keeps an in-memory dictionary of `{word, definition}` entries and a
process-wide request counter. Each HTTP request is one step of a small state
machine. The step increments the counter and then dispatches:

- `OPTIONS` on any path answers 204 with no body (the CORS preflight).
- `GET /api/definitions?word=W` checks that `W` is present and matches
  `^[a-zA-Z]+$`. It then finds the first entry whose word equals `W` with case
  ignored. It answers 200 with that entry's word and definition, or 404.
- `POST /api/definitions` with a JSON body `{word, definition}` applies the same
  check to the word, and also requires a non-empty definition. A word already
  present (case ignored) is refused with 409. A new word is appended, with 201
  and the new number of entries.
- Any other method on the endpoint answers 405; any other path answers 404.

Every reply with a body carries the counter value after this request's
increment. The model is split into these modules:

- `Words` (`words.dfy`): the letters-only pattern and ASCII lower-casing.
- `Dictionary` (`dictionary.dfy`): entries, the front-to-back `find` scan
  (`FirstMatch` specifies it; `Find` is the loop), and the store invariant
  `WellFormed`: every word is letters only and no two words are equal once
  lower-cased.
- `Http` (`http.dfy`): requests after URL and JSON parsing, reply records,
  message kinds, and the constant headers.
- `Handler` (`handler.dfy`): `Step`, the reference definition of one request
  over a `State` (dictionary and counter); `Run`, a sequence of requests; and
  the lemmas about both.
- `App` (`server.dfy`): class `Server`, whose fields `dictionary` and
  `requestCount` are the two globals. Its `Handle` method updates them in place,
  and its contract ties the new state and the reply to `Step`. `CatScenario` is
  a client that replays an add / look up / re-add / miss / missing-parameter
  sequence from `Handle`'s contract alone.

Two behaviours of the code worth noting:

- A 409 reply also carries `totalEntries` (app.js:103).
- The preflight check comes before the path check, so `OPTIONS` on any path
  answers 204 (app.js:19-23).

## Model

| member | source | states |
|---|---|---|
| Words.Lower | app.js:47 | lower-casing keeps the length, turns each upper-case letter into the lower-case letter at the same alphabet position, and keeps every other character |
| Dictionary.FirstMatch | app.js:46-48 | the search result is the first matching index (no earlier entry matches), and it is absent exactly when no entry matches |
| Dictionary.Find | app.js:93-95 | the linear scan returns exactly the first matching index, or none |
| Dictionary.OnlyMatch | app.js:93-107 | in a well-formed store, any matching entry is the one the search returns |
| Dictionary.AppendNewPreservesWellFormed | app.js:106-107 | appending an entry whose word is letters only and not yet present keeps the store invariant |
| Dictionary.FirstMatchAfterAppend | app.js:107 | after an append, a search finds what it found before; only when there was no match can it stop at the new last entry |
| Handler.StepCounts | app.js:10 | every request raises the counter by exactly one; only the preflight reply has no body; every body reports the incremented count |
| Handler.PreflightAnswers204 | app.js:19-23 | OPTIONS on any path answers 204 with no body and leaves the dictionary unchanged |
| Handler.GetRejectsInvalidWord | app.js:35-44 | a GET with a missing, empty or non-letter word answers 400 whatever the dictionary holds, so never 404, and changes nothing |
| Handler.GetLooksUp | app.js:46-67 | a GET with a valid word answers 200 exactly when some entry matches case-insensitively, otherwise 404 with that word; a 200 carries a stored entry, in its stored case, that matches the probe; in a well-formed store it is the only match; the dictionary is unchanged |
| Handler.PostRejectsMalformed | app.js:78-79 | a POST body that does not parse answers 400 (invalid JSON) and stores nothing |
| Handler.PostRejectsInvalidInput | app.js:80-91 | a POST with a missing, empty or non-letter word, or a missing or empty definition, answers 400 and stores nothing |
| Handler.PostRejectsDuplicate | app.js:93-105 | a POST of a word already present, case ignored, answers 409 with the current entry count and leaves the dictionary unchanged |
| Handler.PostAppendsNewWord | app.js:106-116 | a POST of a valid new word makes the dictionary the old one plus exactly that entry at the end, and answers 201 with the old count plus one |
| Handler.OtherMethodRejected | app.js:129-133 | any method other than GET, POST or OPTIONS on the endpoint answers 405 and changes nothing |
| Handler.OtherPathRejected | app.js:134-138 | any non-OPTIONS request to another path answers 404 and changes nothing |
| Handler.StepAppendsOnlyOn201 | app.js:107 | only a 201 reply changes the dictionary, and then by one entry at the end |
| Handler.StepPreservesWellFormed | app.js:82-107 | every request keeps the invariant: letters-only words, no two equal with case ignored |
| Handler.PostThenGet | app.js:46-116 | after a POST of a valid word, a GET in any case answers 200 with the definition that was stored first: the older one if the word was present, else the posted one |
| Handler.SecondPostRejected | app.js:93-105 | after a POST of a valid word, a second POST of the same word in any case answers 409 and leaves the dictionary as the first left it |
| Handler.Run | app.js:8-139 | handling a sequence of requests one after another gives exactly one reply per request |
| Handler.RunCounts | app.js:6-10 | over any run the counter grows by the number of requests, and the k-th reply body reports the start count plus k plus one |
| Handler.RunPreservesWellFormed | app.js:5-107 | the store invariant holds after any run from a well-formed state, and so from process start |
| Handler.RunGrowsFromPosts | app.js:106-116 | a run only appends: the old dictionary is a prefix of the new, and every new entry is the body of one of the run's requests that was answered 201 |
| Handler.NeverInsertedNotFound | app.js:46-67 | after any run from a state that did not hold the word, in which no request naming the word in any case was answered 201 (so it was never inserted), a GET for it answers 404 |
| App.Server.constructor | app.js:5-6 | the server starts with an empty dictionary and a zero counter, and with the invariant holding |
| App.Server.Handle | app.js:8-139 | one request updates the fields in place, with counter plus one, and gives exactly the new state and reply of `Step`; the invariant is kept |

## Left out

- HTTP transport: `http.createServer`, `server.listen`, the `PORT` lookup and the start-up log (app.js:2, app.js:141-146). The model begins once a request is in hand.
- Response headers (app.js:13-16): these are constant. They appear only as constants in `Http` and are not attached to replies.
- URL parsing (app.js:26-27, app.js:33): the pathname and the `word` search parameter are inputs.
- `JSON.parse` and `JSON.stringify`: a POST body is given as `Malformed` or as the destructured `word` and `definition`. A reply is a record, not serialised text. A body that parses but cannot be destructured (`null`) also lands in the catch (app.js:118-126), so it is `Malformed` here.
- Non-string `word` or `definition` values in a JSON body (numbers, arrays, objects) and the coercions they go through: both fields are optional strings.
- Streaming of the POST body (app.js:71-77) and the gap between the increment and the `end` event: each request is one atomic step. Other requests interleaving in that gap, which can change the count a POST reply reports, are not modelled.
- Exact message text: the model uses one `Message` kind per text, carrying the interpolated values.
- Lower-casing outside ASCII: `Lower` maps only `A`-`Z`. Both sides of every comparison have passed the letters-only check, so they are ASCII.
- Handler.StepCounts, Handler.RunCounts: the counter is an unbounded integer. In the code it is a JavaScript number, so `requestCount++` is exact only up to 2^53 and then stops increasing; the model does not capture that limit.
- Handler.PostAppendsNewWord: the entry count is an unbounded integer. The limit on array length that `push` eventually hits (app.js:107) is not modelled.
