/** The gist search service: given a hosting-service username and a regular expression, list
    the user's public gists, fetch each gist's raw file, and answer with the public URLs of
    the gists whose text the pattern is found in.

    The HTTP client, the regular-expression engine and the response cache are not modelled:
    they are the oracles carried by `Env`. Every outbound request the handler makes is
    recorded, in order, in the `calls` trace of an `Exchange`. */
module GistApi {
  import opened Wrappers
  import opened Sequences

  // ---------------------------------------------------------------------------------------
  // Data model
  // ---------------------------------------------------------------------------------------

  /** One file of a gist: its name and the URL of its unrendered text. */
  datatype GistFile = GistFile(filename: string, rawUrl: string)

  /** One entry of the upstream listing. `files` keeps the insertion order of the JSON object. */
  datatype Gist = Gist(id: string, files: seq<GistFile>)

  /** The decoded body of the listing response: the array of gists a 200 answer carries, or
      a JSON object (an error answer carries its text under the key "message"). */
  datatype ListingBody = GistArray(gists: seq<Gist>) | JsonObject(fields: map<string, string>)

  datatype ListingResponse = ListingResponse(status: int, body: ListingBody)

  datatype RawResponse = RawResponse(status: int, text: string)

  /** The collaborators of the handler, as total functions:
      `listing` and `fetch` answer a GET of a URL, `compiles` says whether a pattern is a valid
      regular expression, and `found` says whether the compiled pattern (multiline,
      case-insensitive) finds at least one occurrence in a text. */
  datatype Env = Env(
    listing: string -> ListingResponse,
    fetch: string -> RawResponse,
    compiles: string -> bool,
    found: (string, string) -> bool)

  /** The exceptions the handler does not catch; each turns the request into a server error. */
  datatype PyError =
    | KeyError(key: string)                     // a missing key in a decoded JSON object
    | TypeError(reason: string)                 // a JSON value of the wrong kind
    | ReError(pattern: string)                  // the pattern does not compile
    | UnpackError(gistId: string, fileCount: nat) // a gist without exactly one file

  /** The JSON values that occur in a search reply. */
  datatype Json = JStr(str: string) | JList(items: seq<string>)

  /** What the handler produces: a JSON object, or an exception it lets escape. */
  datatype Reply = Responded(json: map<string, Json>) | Raised(error: PyError)

  /** A reply together with the URLs the handler requested, in request order. */
  datatype Exchange = Exchange(reply: Reply, calls: seq<string>)

  /** The triple `gists_for_user` returns. */
  datatype Listing = Listing(ok: bool, message: string, data: ListingBody)

  // ---------------------------------------------------------------------------------------
  // URLs
  // ---------------------------------------------------------------------------------------

  const API_BASE := "https://api.github.com/users/"
  const GIST_BASE := "https://gist.github.com/"

  /** The per-user listing endpoint of the hosting API; the username can be read back
      from between the fixed prefix and suffix. */
  function ListingUrl(username: string): (url: string)
    ensures |url| == |API_BASE| + |username| + |"/gists"|
    ensures url[..|API_BASE|] == API_BASE
    ensures url[|API_BASE|..|API_BASE| + |username|] == username
    ensures url[|API_BASE| + |username|..] == "/gists"
  {
    API_BASE + username + "/gists"
  }

  /** The public page of a gist, the form in which matches are reported; the id can be
      read back from after the user's prefix. */
  function GistUrl(username: string, id: string): (url: string)
    ensures |url| == |GIST_BASE| + |username| + 1 + |id|
    ensures url[..|GIST_BASE + username + "/"|] == GIST_BASE + username + "/"
    ensures url[|GIST_BASE + username + "/"|..] == id
  {
    GIST_BASE + username + "/" + id
  }

  /** Distinct usernames are sent to distinct listing URLs, so an upstream answer keyed by
      URL is an answer keyed by username. */
  lemma ListingUrlInjective(a: string, b: string)
    requires ListingUrl(a) == ListingUrl(b)
    ensures a == b
  {
  }

  /** For one user, distinct gist ids give distinct public URLs. */
  lemma GistUrlInjective(username: string, a: string, b: string)
    requires GistUrl(username, a) == GistUrl(username, b)
    ensures a == b
  {
  }

  // ---------------------------------------------------------------------------------------
  // gists_for_user
  // ---------------------------------------------------------------------------------------

  /** Fetch the listing of `username` and map it to the triple (ok, message, data):
      a 200 answer gives (true, "Successful", body); any other status gives
      (false, body["message"], body). An error answer whose body has no "message"
      raises, as indexing a JSON array or a key-less object does. */
  function GistsForUser(username: string, env: Env): (r: Result<Listing, PyError>)
    ensures r.Ok? ==> r.value.data == env.listing(ListingUrl(username)).body
    ensures r.Ok? && r.value.ok <==> env.listing(ListingUrl(username)).status == 200
    ensures r.Ok? && r.value.ok ==> r.value.message == "Successful"
    ensures r.Ok? && !r.value.ok ==>
      var body := env.listing(ListingUrl(username)).body;
      body.JsonObject? && "message" in body.fields && r.value.message == body.fields["message"]
    ensures r.Err? <==>
      var response := env.listing(ListingUrl(username));
      response.status != 200 && !(response.body.JsonObject? && "message" in response.body.fields)
  {
    var response := env.listing(ListingUrl(username));
    if response.status == 200 then Ok(Listing(true, "Successful", response.body))
    else match response.body
      case GistArray(_) => Err(TypeError("list indices must be integers or slices, not str"))
      case JsonObject(fields) =>
        if "message" in fields then Ok(Listing(false, fields["message"], response.body))
        else Err(KeyError("message"))
  }

  // ---------------------------------------------------------------------------------------
  // The order in which gists are visited
  // ---------------------------------------------------------------------------------------

  /** `PythonSet` is the loop header as written, which builds a set of the decoded records;
      `FirstOccurrence` visits each gist id once, at its first position in the listing. */
  datatype IterationOrder = PythonSet | FirstOccurrence

  /** Gist `gs[i]` is the first entry of the listing with its id. */
  predicate IsFirstOccurrence(gs: seq<Gist>, i: int)
  {
    0 <= i < |gs| && forall j :: 0 <= j < i ==> gs[j].id != gs[i].id
  }

  /** No two entries share an id. */
  predicate DistinctIds(gs: seq<Gist>)
  {
    forall i, j :: 0 <= i < j < |gs| ==> gs[i].id != gs[j].id
  }

  /** The entries of `gs` whose id is neither in `seen` nor taken by an earlier entry. */
  function DedupFrom(gs: seq<Gist>, seen: set<string>): (r: seq<Gist>)
    ensures |r| <= |gs|
    decreases |gs|
  {
    if gs == [] then []
    else if gs[0].id in seen then DedupFrom(gs[1..], seen)
    else [gs[0]] + DedupFrom(gs[1..], seen + {gs[0].id})
  }

  /** Deduplication keeps the order of the listing. */
  lemma {:induction false} DedupFromSubsequence(gs: seq<Gist>, seen: set<string>)
    ensures IsSubsequence(DedupFrom(gs, seen), gs)
    decreases |gs|
  {
    if gs != [] {
      var seen' := if gs[0].id in seen then seen else seen + {gs[0].id};
      DedupFromSubsequence(gs[1..], seen');
      var r := DedupFrom(gs, seen);
      if gs[0].id !in seen {
        assert r[0] == gs[0] && r[1..] == DedupFrom(gs[1..], seen');
      }
    }
  }

  /** Deduplication keeps no id of `seen` and no id twice. */
  lemma {:induction false} DedupFromDistinct(gs: seq<Gist>, seen: set<string>)
    ensures var r := DedupFrom(gs, seen);
      DistinctIds(r) && forall k :: 0 <= k < |r| ==> r[k].id !in seen
    decreases |gs|
  {
    if gs != [] && gs[0].id in seen {
      DedupFromDistinct(gs[1..], seen);
    } else if gs != [] {
      var seen' := seen + {gs[0].id};
      DedupFromDistinct(gs[1..], seen');
      var rest := DedupFrom(gs[1..], seen');
      var r := DedupFrom(gs, seen);
      assert r == [gs[0]] + rest;
      forall i, j | 0 <= i < j < |r| ensures r[i].id != r[j].id {
        assert r[j] == rest[j - 1];
        if i > 0 {
          assert r[i] == rest[i - 1];
        }
      }
    }
  }

  /** `g` is the first entry of the listing with its id. */
  ghost predicate ListedFirst(gs: seq<Gist>, g: Gist)
  {
    exists i :: IsFirstOccurrence(gs, i) && gs[i] == g
  }

  /** Every gist deduplication keeps is the first entry of the listing with its id. */
  lemma {:induction false} DedupFromFirst(gs: seq<Gist>, seen: set<string>)
    ensures var r := DedupFrom(gs, seen);
      forall k :: 0 <= k < |r| ==> ListedFirst(gs, r[k])
    decreases |gs|
  {
    if gs != [] {
      var seen' := if gs[0].id in seen then seen else seen + {gs[0].id};
      DedupFromFirst(gs[1..], seen');
      DedupFromDistinct(gs[1..], seen');
      var rest := DedupFrom(gs[1..], seen');
      var r := DedupFrom(gs, seen);
      var skip := if gs[0].id in seen then 0 else 1;
      assert r == if gs[0].id in seen then rest else [gs[0]] + rest;
      forall k | 0 <= k < |r| ensures ListedFirst(gs, r[k]) {
        if k < skip {
          assert IsFirstOccurrence(gs, 0) && gs[0] == r[k];
        } else {
          assert r[k] == rest[k - skip];
          assert ListedFirst(gs[1..], rest[k - skip]);
          var i' :| IsFirstOccurrence(gs[1..], i') && gs[1..][i'] == rest[k - skip];
          assert gs[0].id in seen' && rest[k - skip].id !in seen';
          assert IsFirstOccurrence(gs, i' + 1) && gs[i' + 1] == r[k];
        }
      }
    }
  }

  /** Every first entry of an id outside `seen` is kept. */
  lemma {:induction false} DedupFromCovers(gs: seq<Gist>, seen: set<string>, i: int)
    requires IsFirstOccurrence(gs, i) && gs[i].id !in seen
    ensures gs[i] in DedupFrom(gs, seen)
    decreases |gs|
  {
    if i > 0 {
      var seen' := if gs[0].id in seen then seen else seen + {gs[0].id};
      assert gs[0].id != gs[i].id;
      assert IsFirstOccurrence(gs[1..], i - 1) by {
        forall j | 0 <= j < i - 1 ensures gs[1..][j].id != gs[1..][i - 1].id {
          assert gs[1..][j] == gs[j + 1];
        }
      }
      DedupFromCovers(gs[1..], seen', i - 1);
    }
  }

  /** Every entry shares its id with a first entry at or before it. */
  lemma {:induction false} FirstOccurrenceExists(gs: seq<Gist>, i: int)
    requires 0 <= i < |gs|
    ensures exists i0 :: 0 <= i0 <= i && IsFirstOccurrence(gs, i0) && gs[i0].id == gs[i].id
    decreases i
  {
    if !IsFirstOccurrence(gs, i) {
      var j :| 0 <= j < i && gs[j].id == gs[i].id;
      FirstOccurrenceExists(gs, j);
    }
  }

  /** Every first entry of the listing is kept, so every id of the listing is kept. */
  lemma DedupFromCoversAll(gs: seq<Gist>)
    ensures forall g :: ListedFirst(gs, g) ==> g in DedupFrom(gs, {})
    ensures forall i :: 0 <= i < |gs| ==>
      exists k :: 0 <= k < |DedupFrom(gs, {})| && DedupFrom(gs, {})[k].id == gs[i].id
  {
    var r := DedupFrom(gs, {});
    forall g | ListedFirst(gs, g) ensures g in r {
      var i :| IsFirstOccurrence(gs, i) && gs[i] == g;
      DedupFromCovers(gs, {}, i);
    }
    forall i | 0 <= i < |gs| ensures exists k :: 0 <= k < |r| && r[k].id == gs[i].id {
      FirstOccurrenceExists(gs, i);
      var i0 :| 0 <= i0 <= i && IsFirstOccurrence(gs, i0) && gs[i0].id == gs[i].id;
      DedupFromCovers(gs, {}, i0);
      var k :| 0 <= k < |r| && r[k] == gs[i0];
    }
  }

  /** The position of the first entry of `gs` with id `id`, or `|gs|` when no entry has it. */
  function FirstIndex(gs: seq<Gist>, id: string): (i: nat)
    ensures i <= |gs|
    ensures forall j :: 0 <= j < i ==> gs[j].id != id
    ensures i < |gs| ==> gs[i].id == id
    decreases |gs|
  {
    if gs == [] then 0
    else if gs[0].id == id then 0
    else 1 + FirstIndex(gs[1..], id)
  }

  /** The ids of `r` come in the order of their first positions in `gs`. */
  predicate InFirstOccurrenceOrder(r: seq<Gist>, gs: seq<Gist>)
  {
    forall k1, k2 :: 0 <= k1 < k2 < |r| ==> FirstIndex(gs, r[k1].id) < FirstIndex(gs, r[k2].id)
  }

  /** Deduplication keeps the gists in the order of their first positions, even where a
      later duplicate of one gist comes after the first entry of another. */
  lemma {:induction false} DedupFromOrdered(gs: seq<Gist>, seen: set<string>)
    ensures InFirstOccurrenceOrder(DedupFrom(gs, seen), gs)
    decreases |gs|
  {
    if gs != [] {
      var seen' := if gs[0].id in seen then seen else seen + {gs[0].id};
      DedupFromOrdered(gs[1..], seen');
      DedupFromDistinct(gs[1..], seen');
      var rest := DedupFrom(gs[1..], seen');
      var r := DedupFrom(gs, seen);
      var skip := if gs[0].id in seen then 0 else 1;
      assert r == if gs[0].id in seen then rest else [gs[0]] + rest;
      forall k | skip <= k < |r|
        ensures r[k] == rest[k - skip]
        ensures FirstIndex(gs, r[k].id) == 1 + FirstIndex(gs[1..], rest[k - skip].id)
      {
        assert gs[0].id in seen' && rest[k - skip].id !in seen';
      }
    }
  }

  /** The visiting order that replaces the set of records: a subsequence of the listing in
      which every id of the listing occurs exactly once, as its first entry, and the gists
      come in the order of their first entries. */
  function DedupById(gs: seq<Gist>): (r: seq<Gist>)
    ensures IsSubsequence(r, gs)
    ensures DistinctIds(r)
    ensures forall g :: g in r <==> ListedFirst(gs, g)
    ensures forall i :: 0 <= i < |gs| ==> exists k :: 0 <= k < |r| && r[k].id == gs[i].id
    ensures InFirstOccurrenceOrder(r, gs)
  {
    DedupFromSubsequence(gs, {});
    DedupFromDistinct(gs, {});
    DedupFromFirst(gs, {});
    DedupFromCoversAll(gs);
    DedupFromOrdered(gs, {});
    DedupFrom(gs, {})
  }

  /** What the loop header hands to the loop body, or the exception it raises. Building a
      Python set of decoded records fails on the first record, as records are not hashable.
      A JSON object (possible only in a 200 answer that is not an array) is iterated by its
      keys, and the body's first `gist['files']` fails on a key string. */
  function Visit(order: IterationOrder, data: ListingBody): (r: Result<seq<Gist>, PyError>)
    ensures r.Err? ==> r.error.TypeError?
    ensures data.JsonObject? ==> (r.Ok? <==> data.fields == map[])
    ensures data.GistArray? && order == PythonSet ==> (r.Ok? <==> data.gists == [])
    ensures r.Ok? && (data.JsonObject? || order == PythonSet) ==> r.value == []
    ensures data.GistArray? && order == FirstOccurrence ==>
      && r.Ok?
      && DistinctIds(r.value)
      && IsSubsequence(r.value, data.gists)
      && (forall g :: g in r.value <==> ListedFirst(data.gists, g))
      && InFirstOccurrenceOrder(r.value, data.gists)
  {
    match data
    case JsonObject(fields) =>
      if fields == map[] then Ok([]) else Err(TypeError("string indices must be integers"))
    case GistArray(gs) =>
      match order
      case PythonSet => if gs == [] then Ok([]) else Err(TypeError("unhashable type: 'dict'"))
      case FirstOccurrence => Ok(DedupById(gs))
  }

  // ---------------------------------------------------------------------------------------
  // The fetch-and-match loop
  // ---------------------------------------------------------------------------------------

  /** The loop records a match for `g`: it has one file, whose raw fetch answered 200 with a
      text in which the pattern is found. */
  predicate Hit(pattern: string, g: Gist, env: Env)
  {
    |g.files| == 1 &&
    var response := env.fetch(g.files[0].rawUrl);
    response.status == 200 && env.found(pattern, response.text)
  }

  /** The state of the loop after some gists: the match list so far (or the exception that
      stopped it) and the raw URLs fetched so far. */
  datatype Walked = Walked(result: Result<seq<string>, PyError>, fetched: seq<string>)

  /** The loop run over `visit`, defined one gist at a time from the front, so the state
      after `visit[..i]` is the state at the top of iteration `i`. */
  function Walk(username: string, pattern: string, visit: seq<Gist>, env: Env): (w: Walked)
    ensures w.result.Ok? ==> |w.result.value| <= |visit| && |w.fetched| == |visit|
    ensures w.result.Err? ==> w.result.error.UnpackError? && |w.fetched| < |visit|
    decreases |visit|
  {
    if visit == [] then Walked(Ok([]), [])
    else
      var before := Walk(username, pattern, visit[..|visit| - 1], env);
      var g := visit[|visit| - 1];
      if before.result.Err? then before
      else if |g.files| != 1 then Walked(Err(UnpackError(g.id, |g.files|)), before.fetched)
      else
        var found := if Hit(pattern, g, env) then [GistUrl(username, g.id)] else [];
        Walked(Ok(before.result.value + found), before.fetched + [g.files[0].rawUrl])
  }

  /** Once the loop has raised, the rest of the gists are never reached. */
  lemma {:induction false} WalkStops(username: string, pattern: string, visit: seq<Gist>, n: nat, env: Env)
    requires n <= |visit|
    requires Walk(username, pattern, visit[..n], env).result.Err?
    ensures Walk(username, pattern, visit, env) == Walk(username, pattern, visit[..n], env)
    decreases |visit| - n
  {
    if n == |visit| {
      assert visit[..n] == visit;
    } else {
      var front := visit[..|visit| - 1];
      assert front[..n] == visit[..n];
      WalkStops(username, pattern, front, n, env);
    }
  }

  // ---------------------------------------------------------------------------------------
  // The reply objects
  // ---------------------------------------------------------------------------------------

  /** The reply to a request rejected before any upstream call. */
  function Rejection(message: string): map<string, Json>
  {
    map["status" := JStr("failed"), "message" := JStr(message)]
  }

  /** The reply when the listing answered an error. */
  function ListingFailure(message: string, username: string, pattern: string): map<string, Json>
  {
    map["status" := JStr("failed"), "message" := JStr(message), "username" := JStr(username),
        "pattern" := JStr(pattern), "matches" := JList([])]
  }

  /** The reply of a completed search. */
  function SearchSuccess(username: string, pattern: string, matches: seq<string>): map<string, Json>
  {
    map["status" := JStr("success"), "username" := JStr(username), "pattern" := JStr(pattern),
        "matches" := JList(matches)]
  }

  /** The request body passes validation: it is present and non-empty and carries both keys. */
  predicate Accepted(body: Option<map<string, string>>)
  {
    body.Some? && body.value != map[] && "username" in body.value && "pattern" in body.value
  }

  // ---------------------------------------------------------------------------------------
  // The search handler
  // ---------------------------------------------------------------------------------------

  /** The whole search request as a value: the reply and the trace of outbound calls, for
      the given loop header. `body` is what `request.get_json()` returns once it has not
      refused the request: `None` (a JSON `null`, or a request not declared as JSON under
      older Flask) or a decoded JSON object. An accepted request first calls the listing,
      and then fetches at most one raw file per listed gist. */
  function Outcome(body: Option<map<string, string>>, env: Env, order: IterationOrder): (e: Exchange)
    ensures e.calls != [] <==> Accepted(body)
    ensures Accepted(body) ==> e.calls[0] == ListingUrl(body.value["username"])
    ensures Accepted(body) ==>
      var response := env.listing(ListingUrl(body.value["username"]));
      && (response.body.GistArray? ==> |e.calls| <= 1 + |response.body.gists|)
      && (response.body.JsonObject? ==> e.calls == [ListingUrl(body.value["username"])])
  {
    if body.None? || body.value == map[] then Exchange(Responded(Rejection("Invalid parameters")), [])
    else if "username" !in body.value then Exchange(Responded(Rejection("username is required")), [])
    else if "pattern" !in body.value then Exchange(Responded(Rejection("pattern is required")), [])
    else
      var username, pattern := body.value["username"], body.value["pattern"];
      var listingCall := [ListingUrl(username)];
      match GistsForUser(username, env)
      case Err(e) => Exchange(Raised(e), listingCall)
      case Ok(listed) =>
        if !listed.ok then
          Exchange(Responded(ListingFailure(listed.message, username, pattern)), listingCall)
        else if !env.compiles(pattern) then Exchange(Raised(ReError(pattern)), listingCall)
        else match Visit(order, listed.data)
          case Err(e) => Exchange(Raised(e), listingCall)
          case Ok(visit) =>
            var w := Walk(username, pattern, visit, env);
            match w.result
            case Err(e) => Exchange(Raised(e), listingCall + w.fetched)
            case Ok(matches) => Exchange(Responded(SearchSuccess(username, pattern, matches)), listingCall + w.fetched)
  }

  /** The body of the loop over the visited gists: unpack the single file of each gist
      (raising when there is not exactly one), fetch its raw text, and record the gist's
      public URL when the fetch answered 200 and the pattern is found in the text. The raw
      URLs fetched are returned in request order, also when the loop raises. */
  method FetchAndMatch(username: string, pattern: string, visit: seq<Gist>, env: Env)
    returns (result: Result<seq<string>, PyError>, fetched: seq<string>)
    ensures Walked(result, fetched) == Walk(username, pattern, visit, env)
  {
    var matchList: seq<string> := [];
    fetched := [];
    var i := 0;
    while i < |visit|
      invariant 0 <= i <= |visit|
      invariant Walk(username, pattern, visit[..i], env) == Walked(Ok(matchList), fetched)
    {
      var gist := visit[i];
      assert visit[..i + 1][..i] == visit[..i];
      if |gist.files| != 1 {
        WalkStops(username, pattern, visit, i + 1, env);
        return Err(UnpackError(gist.id, |gist.files|)), fetched;
      }
      var rawUrl := gist.files[0].rawUrl;
      var response := env.fetch(rawUrl);
      fetched := fetched + [rawUrl];
      if response.status == 200 {
        if env.found(pattern, response.text) {
          matchList := matchList + [GistUrl(username, gist.id)];
        }
      }
      assert !Hit(pattern, gist, env) ==> matchList + [] == matchList;
      i := i + 1;
    }
    assert visit[..i] == visit;
    return Ok(matchList), fetched;
  }

  /** The search endpoint: validate the body, list the user's gists, compile the pattern,
      fetch each gist's raw file once per id in listing order and collect the public URLs of
      those the pattern is found in, then fill in the reply object. */
  method Search(body: Option<map<string, string>>, env: Env) returns (reply: Reply, calls: seq<string>)
    ensures Exchange(reply, calls) == Outcome(body, env, FirstOccurrence)
  {
    calls := [];
    if body.None? || body.value == map[] {
      return Responded(Rejection("Invalid parameters")), calls;
    }
    var postData := body.value;
    if "username" !in postData {
      return Responded(Rejection("username is required")), calls;
    }
    if "pattern" !in postData {
      return Responded(Rejection("pattern is required")), calls;
    }
    var username := postData["username"];
    var pattern := postData["pattern"];

    var result: map<string, Json> := map[];
    calls := calls + [ListingUrl(username)];
    var listed := GistsForUser(username, env);
    if listed.Err? {
      return Raised(listed.error), calls;
    }
    var isSuccessful, msg, data := listed.value.ok, listed.value.message, listed.value.data;
    if isSuccessful {
      if !env.compiles(pattern) {
        return Raised(ReError(pattern)), calls;
      }
      var visiting := Visit(FirstOccurrence, data);
      if visiting.Err? {
        return Raised(visiting.error), calls;
      }
      var walked, fetched := FetchAndMatch(username, pattern, visiting.value, env);
      calls := calls + fetched;
      if walked.Err? {
        return Raised(walked.error), calls;
      }
      var matchList := walked.value;

      result := result["status" := JStr("success")];
      result := result["username" := JStr(username)];
      result := result["pattern" := JStr(pattern)];
      result := result["matches" := JList(matchList)];
    } else {
      result := result["status" := JStr("failed")];
      result := result["message" := JStr(msg)];
      result := result["username" := JStr(username)];
      result := result["pattern" := JStr(pattern)];
      result := result["matches" := JList([])];
    }
    return Responded(result), calls;
  }
}
