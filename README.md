# Gist search, modelled in Dafny

This project models the search endpoint of a small Flask service (`gistapi/gistapi.py`).
The endpoint takes a hosting-service username and a regular-expression pattern. It lists
the user's public gists and fetches each gist's raw file. It then answers with the public
URLs of the gists whose text the pattern is found in.

The model has four modules:

- `Wrappers` (wrappers.dfy) holds `Option` and `Result`.
- `Sequences` (sequences.dfy) holds the subsequence order and duplicate-freedom.
- `GistApi` (gistapi.dfy) holds the model itself:
  - the data model: gists, listing and raw responses, JSON reply objects, Python exceptions;
  - the two URL builders;
  - `GistsForUser`, the triple that `gists_for_user` returns;
  - `Visit`, the loop header, and `DedupById`, the visiting order that replaces it, with
    the lemmas about deduplication;
  - `Walk`, the fetch-and-match loop as a function of the gists visited so far;
  - `Outcome`, the whole request as a value;
  - `Search`, the handler as an imperative method, proved equal to `Outcome`, with its
    loop in the method `FetchAndMatch`.
- `SearchProperties` (properties.dfy) holds the lemmas.

The collaborators are fields of the datatype `Env`, each a total function:

- `listing`: GET of the listing URL, giving a status and a decoded body.
- `fetch`: GET of a raw URL, giving a status and a text.
- `compiles`: whether a pattern compiles.
- `found`: whether the compiled pattern has at least one `findall` hit in a text.

Every outbound request is recorded in order in the `calls` trace of an `Exchange`. This is
how "no upstream call" is stated. The handler's result is a `Reply`:

- `Responded(json)` is the JSON object the handler returns.
- `Raised(error)` is an exception the handler lets escape, which the web server turns into
  a server error. It is stated as an explicit result, not a crash.

The model follows the code where it lets an exception escape:

- An invalid pattern raises at line 86. The model gives `Raised(ReError(pattern))`, not a
  `failed` reply.
- A gist without exactly one file raises at line 92, in the middle of the loop. The model
  gives `Raised(UnpackError(id, count))`, after the earlier gists were fetched.
- A failed raw fetch is skipped silently (lines 95-99).

The loop header on line 87 is treated differently (see Findings). `set(data)` cannot be built
from decoded records, so the model visits each gist id once, at its first position in the
listing. `Outcome` takes an `IterationOrder`:

- `PythonSet` is the header as written.
- `FirstOccurrence` is the corrected header. The `Search` method uses it.

## Model

| member | source | states |
|---|---|---|
| `GistApi.ListingUrl` | gistapi/gistapi.py:44-45 | the listing URL is the API prefix, the username and "/gists", and the username can be read back from between them |
| `GistApi.ListingUrlInjective` | gistapi/gistapi.py:44-48 | distinct usernames give distinct listing URLs, so an upstream answer keyed by URL is an answer keyed by username |
| `GistApi.GistUrl` | gistapi/gistapi.py:99 | the public URL is the gist host, the username and "/", followed by the id, which can be read back from after that prefix |
| `GistApi.GistUrlInjective` | gistapi/gistapi.py:98-99 | for one username, two gist ids that give the same public URL are equal |
| `GistApi.GistsForUser` | gistapi/gistapi.py:44-54 | the triple is ok exactly when the listing status is 200, and then its message is "Successful"; otherwise the message is the body's "message" field; the data is the decoded body; it raises exactly when a non-200 body has no "message" field |
| `GistApi.DedupFrom` | gistapi/gistapi.py:87 | the deduplicated listing is never longer than the listing |
| `GistApi.DedupFromSubsequence` | gistapi/gistapi.py:87 | deduplication keeps the listing's order |
| `GistApi.DedupFromDistinct` | gistapi/gistapi.py:87 | deduplication keeps no id twice and no id already seen |
| `GistApi.DedupFromFirst` | gistapi/gistapi.py:87 | every gist kept is the first entry of the listing with its id |
| `GistApi.DedupFromCovers` | gistapi/gistapi.py:87 | every first entry of an id not yet seen is kept |
| `GistApi.FirstOccurrenceExists` | gistapi/gistapi.py:87 | every listed gist shares its id with a first entry at or before it |
| `GistApi.DedupFromCoversAll` | gistapi/gistapi.py:87 | every first entry of the listing is kept, so every listed id is kept |
| `GistApi.FirstIndex` | gistapi/gistapi.py:87 | the position of the first listed gist with a given id: no earlier gist has that id, and the gist there has it; it is the length of the listing when no gist has it |
| `GistApi.DedupFromOrdered` | gistapi/gistapi.py:87 | deduplication keeps the gists in the order of their first entries, even when a duplicate of one gist is listed after the first entry of another |
| `GistApi.DedupById` | gistapi/gistapi.py:87 | the corrected visiting order is a subsequence of the listing with distinct ids; a gist is visited exactly when it is the first entry with its id; every listed id is visited; the gists come in the order of their first entries |
| `GistApi.Visit` | gistapi/gistapi.py:87 | the loop header raises only a `TypeError`; as written it hands over the (empty) gists only for an empty listing and raises for any other; a JSON object is iterated without error, over nothing, only when it is empty; the corrected header always hands over each first-listed gist once, with distinct ids, in the order of their first entries |
| `GistApi.Walk` | gistapi/gistapi.py:87-99 | after a loop that completes, there are at most as many matches as visited gists, and one raw fetch per visited gist; a loop that raises does so with the unpacking error, before fetching every gist |
| `GistApi.WalkStops` | gistapi/gistapi.py:92 | once the loop raises on a gist, later gists are never fetched or matched |
| `GistApi.Outcome` | gistapi/gistapi.py:58-114 | the whole request as a value: an outbound call is made exactly when the body passes validation, the first call is the listing, and at most one raw file per listed gist is fetched (none for a JSON-object body); the branch-by-branch replies are the lemmas `SearchProperties.ValidationOrder`, `ListingErrorReply`, `InvalidPatternRaises`, `SearchCompletes`, `SearchSuccessReply`, `ReplyShape` and `SetOfRecordsRaises` |
| `GistApi.FetchAndMatch` | gistapi/gistapi.py:85-99 | the imperative loop, whose invariant ties it to `Walk` after each gist: it returns exactly the match list (or the unpacking error) and the raw URLs fetched that `Walk` gives for the visited gists |
| `GistApi.Search` | gistapi/gistapi.py:58-114 | the handler, with its validation returns, listing call, pattern compile, fetch-and-match loop (`FetchAndMatch`) and field-by-field reply, gives exactly the reply and the call trace of `Outcome` with the first-occurrence visiting order |
| `SearchProperties.DedupFromIdentity` | gistapi/gistapi.py:87 | a listing with distinct ids is visited whole, in its own order |
| `SearchProperties.DedupByIdIdempotent` | gistapi/gistapi.py:87 | deduplicating twice gives the same visiting order as deduplicating once |
| `SearchProperties.WalkMatches` | gistapi/gistapi.py:92-99 | a URL is in the match list exactly when it is the public URL of a visited gist that `Hit` accepts: it has exactly one file, whose raw fetch answered 200 with a text the pattern is found in |
| `SearchProperties.WalkInOrder` | gistapi/gistapi.py:87-99 | the match list is a subsequence of the visited gists' public URLs, so it is in visiting order with at most one entry per gist |
| `SearchProperties.WalkDistinct` | gistapi/gistapi.py:97-99 | when the visited gists have distinct ids, no URL is reported twice |
| `SearchProperties.FirstListedMatches` | gistapi/gistapi.py:87-99 | over the first-occurrence order, a URL is in the match list exactly when it is the public URL of a first-listed gist whose raw fetch answered 200 and whose text the pattern is found in |
| `SearchProperties.WalkFetches` | gistapi/gistapi.py:92-95 | the loop completes exactly when every visited gist has one file, and then it fetched each gist's raw URL in visiting order; otherwise it raises naming the first gist without one file, after fetching exactly the gists before it |
| `SearchProperties.ValidationOrder` | gistapi/gistapi.py:69-76 | a `None` or empty body gives "Invalid parameters"; then a missing username gives "username is required", whatever the pattern; then a missing pattern gives "pattern is required"; each of these is given with no outbound call |
| `SearchProperties.ListingErrorReply` | gistapi/gistapi.py:105-110 | when the listing status is not 200, only the listing is requested; the handler replies exactly when the body has a "message"; that reply is `failed` with the upstream message, echoes username and pattern, and has empty matches |
| `SearchProperties.InvalidPatternRaises` | gistapi/gistapi.py:86 | after a 200 listing, a pattern that does not compile raises, with only the listing requested |
| `SearchProperties.SearchCompletes` | gistapi/gistapi.py:87-99 | with a listing of gists and a valid pattern, the search replies exactly when every first-listed gist has one file; otherwise it raises the unpacking error for a first-listed gist without one file, and every first-listed gist before it in the listing has one file |
| `SearchProperties.FirstListedComplete` | gistapi/gistapi.py:87-92 | over the first-occurrence order, the loop completes exactly when every first-listed gist has one file |
| `SearchProperties.FirstListedRaises` | gistapi/gistapi.py:87-92 | over the first-occurrence order, a loop that raises names the earliest first-listed gist without one file, with its file count |
| `SearchProperties.EarlierFirstVisitedEarlier` | gistapi/gistapi.py:87 | a first-listed gist that comes earlier in the listing than a visited gist is visited before it |
| `SearchProperties.SearchSuccessReply` | gistapi/gistapi.py:85-104 | a completed search replies `success` with exactly the keys status, username, pattern and matches, and echoes username and pattern; a URL is in matches exactly when it is the public URL of a first-listed gist whose raw fetch answered 200 and whose text the pattern is found in; matches has no repeats, is in visiting order and is no longer than the listing; the calls are the listing URL, then each visited gist's raw URL once, in order |
| `SearchProperties.ReplyShape` | gistapi/gistapi.py:69-114 | every reply object has status `success` or `failed`; it carries a message exactly when it failed; a successful one has exactly the four result keys |
| `SearchProperties.SetOfRecordsRaises` | gistapi/gistapi.py:87 | as written, once the listing returned at least one gist and the pattern compiled, the loop header raises `TypeError: unhashable type: 'dict'` before any raw fetch |

## Left out

- Flask routing, `jsonify`, `app.run` and the `/ping` endpoint are web-serving plumbing.
- The HTTP client (lines 48 and 94) is not modelled: network failures, timeouts and the
  response cache (line 21, 300-second expiry) are I/O, wall-clock time and process-global
  state. Each GET is a pure function of its URL, which is also what a transparent cache
  shows its callers.
- JSON decoding (lines 51 and 69) is not modelled. The model receives decoded bodies. A
  listing body that is not JSON would raise in `response.json()`.
- The request body is what `request.get_json()` returns once it has accepted the
  request. That is either `None` or a JSON object with string values. `None` comes from a
  JSON `null`, or, in older Flask, from a request not declared as JSON. Such a body gets
  the "Invalid parameters" reply.
- A malformed body, or one not declared as JSON, is refused by `get_json` itself in
  current Flask, which answers with its own error response before line 70 runs. The model
  does not cover that response.
- Bodies that are JSON arrays or scalars, and non-string `username` or `pattern` values,
  are not modelled.
- Listing entries are typed records. An entry without `id`, `files` or `raw_url` would raise
  `KeyError`, and the model does not cover that case. A gist's `files` object is a sequence
  in its JSON insertion order.
- The upstream `message` field is a string. Other JSON values there are not modelled.
- Regular-expression semantics are not modelled: compiling, `findall`, and the MULTILINE
  and IGNORECASE flags (line 86). They are the `compiles` and `found` oracles.
- Usernames are put into URLs verbatim, with no escaping, as the code does.
- Idempotence across the cache window is not stated. The model is a function of its
  inputs, so two identical requests against the same upstream answers give the same
  exchange.

## Findings

| source | as written | input that shows it | evidently intended | confidence | as-written member | corrected member |
|---|---|---|---|---|---|---|
| gistapi/gistapi.py:87 | `for gist in set(data)` builds a Python set of the decoded gist records. Dicts are unhashable, so this raises `TypeError` | any accepted request for a user with at least one public gist, when the listing answers 200 and the pattern compiles | visit each listed gist once per id, in listing order, and collect the matches | high; not executed | `SearchProperties.SetOfRecordsRaises` | `GistApi.DedupById` |
