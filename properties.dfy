/** What the search handler promises, proved about the model in gistapi.dfy: the order of
    the request checks, the reply on each branch, the visiting order of the gists, and the
    filter/map relation between the visited gists and the reported matches. */
module SearchProperties {
  import opened Wrappers
  import opened Sequences
  import opened GistApi

  // ---------------------------------------------------------------------------------------
  // Visiting each id once, at its first occurrence
  // ---------------------------------------------------------------------------------------

  /** A listing whose ids are already distinct, and new to `seen`, is kept whole. */
  lemma {:induction false} DedupFromIdentity(gs: seq<Gist>, seen: set<string>)
    requires DistinctIds(gs)
    requires forall k :: 0 <= k < |gs| ==> gs[k].id !in seen
    ensures DedupFrom(gs, seen) == gs
    decreases |gs|
  {
    if gs != [] {
      assert gs[0].id !in seen;
      var seen' := seen + {gs[0].id};
      forall k | 0 <= k < |gs[1..]| ensures gs[1..][k].id !in seen' {
        assert gs[1..][k] == gs[k + 1];
      }
      DedupFromIdentity(gs[1..], seen');
      assert gs == [gs[0]] + gs[1..];
    }
  }

  /** Deduplicating twice visits the same gists as deduplicating once. */
  lemma DedupByIdIdempotent(gs: seq<Gist>)
    ensures DedupById(DedupById(gs)) == DedupById(gs)
  {
    DedupFromDistinct(gs, {});
    DedupFromIdentity(DedupById(gs), {});
  }

  // ---------------------------------------------------------------------------------------
  // The fetch-and-match loop
  // ---------------------------------------------------------------------------------------

  /** The public URLs of the visited gists, in visiting order. */
  function Urls(username: string, visit: seq<Gist>): (r: seq<string>)
    ensures |r| == |visit|
  {
    seq(|visit|, k requires 0 <= k < |visit| => GistUrl(username, visit[k].id))
  }

  /** A URL is reported exactly when it is the public URL of a visited gist whose raw fetch
      answered 200 and whose text the pattern is found in. */
  lemma {:induction false} WalkMatches(username: string, pattern: string, visit: seq<Gist>, env: Env)
    requires Walk(username, pattern, visit, env).result.Ok?
    ensures forall url :: url in Walk(username, pattern, visit, env).result.value <==>
      exists k :: 0 <= k < |visit| && Hit(pattern, visit[k], env) && url == GistUrl(username, visit[k].id)
    decreases |visit|
  {
    if visit != [] {
      var n := |visit| - 1;
      var front := visit[..n];
      var g := visit[n];
      WalkMatches(username, pattern, front, env);
      var before := Walk(username, pattern, front, env).result.value;
      var ms := Walk(username, pattern, visit, env).result.value;
      assert ms == before + (if Hit(pattern, g, env) then [GistUrl(username, g.id)] else []);
      forall url
        ensures url in ms <==>
          exists k :: 0 <= k < |visit| && Hit(pattern, visit[k], env) && url == GistUrl(username, visit[k].id)
      {
        if url in before {
          var k :| 0 <= k < |front| && Hit(pattern, front[k], env) && url == GistUrl(username, front[k].id);
          assert visit[k] == front[k];
        }
        if exists k :: 0 <= k < |visit| && Hit(pattern, visit[k], env) && url == GistUrl(username, visit[k].id) {
          var k :| 0 <= k < |visit| && Hit(pattern, visit[k], env) && url == GistUrl(username, visit[k].id);
          if k < n {
            assert front[k] == visit[k];
          }
        }
      }
    }
  }

  /** Matches are reported in visiting order, at most one per visited gist. */
  lemma {:induction false} WalkInOrder(username: string, pattern: string, visit: seq<Gist>, env: Env)
    requires Walk(username, pattern, visit, env).result.Ok?
    ensures IsSubsequence(Walk(username, pattern, visit, env).result.value, Urls(username, visit))
    decreases |visit|
  {
    if visit != [] {
      var n := |visit| - 1;
      var front := visit[..n];
      var g := visit[n];
      WalkInOrder(username, pattern, front, env);
      var before := Walk(username, pattern, front, env).result.value;
      assert Urls(username, visit) == Urls(username, front) + [GistUrl(username, g.id)];
      SubsequenceSnoc(before, Urls(username, front), GistUrl(username, g.id));
      if !Hit(pattern, g, env) {
        assert before + [] == before;
      }
    }
  }

  /** Visiting distinct ids reports no URL twice. */
  lemma {:induction false} WalkDistinct(username: string, pattern: string, visit: seq<Gist>, env: Env)
    requires Walk(username, pattern, visit, env).result.Ok?
    requires DistinctIds(visit)
    ensures Distinct(Walk(username, pattern, visit, env).result.value)
    decreases |visit|
  {
    if visit != [] {
      var n := |visit| - 1;
      var front := visit[..n];
      var g := visit[n];
      WalkDistinct(username, pattern, front, env);
      var before := Walk(username, pattern, front, env).result.value;
      var ms := Walk(username, pattern, visit, env).result.value;
      if Hit(pattern, g, env) {
        var url := GistUrl(username, g.id);
        assert ms == before + [url];
        WalkMatches(username, pattern, front, env);
        if url in before {
          var k :| 0 <= k < |front| && Hit(pattern, front[k], env) && url == GistUrl(username, front[k].id);
          assert false;
        }
        forall i, j | 0 <= i < j < |ms| ensures ms[i] != ms[j] {
          if j < |before| {
            assert ms[i] == before[i] && ms[j] == before[j];
          } else {
            assert ms[i] == before[i] && ms[j] == url;
          }
        }
      } else {
        assert ms == before;
      }
    }
  }

  /** The loop fetches the raw file of every visited gist, in visiting order, unless a gist
      without exactly one file stops it; then the exception names the first such gist, and
      exactly the gists before it were fetched. */
  lemma {:induction false} WalkFetches(username: string, pattern: string, visit: seq<Gist>, env: Env)
    ensures var w := Walk(username, pattern, visit, env);
      w.result.Ok? <==> forall k :: 0 <= k < |visit| ==> |visit[k].files| == 1
    ensures var w := Walk(username, pattern, visit, env);
      w.result.Ok? ==> forall k :: 0 <= k < |visit| ==> w.fetched[k] == visit[k].files[0].rawUrl
    ensures var w := Walk(username, pattern, visit, env);
      w.result.Err? ==>
        var k := |w.fetched|;
        && k < |visit|
        && |visit[k].files| != 1
        && w.result.error == UnpackError(visit[k].id, |visit[k].files|)
        && forall j :: 0 <= j < k ==> |visit[j].files| == 1 && w.fetched[j] == visit[j].files[0].rawUrl
    decreases |visit|
  {
    if visit != [] {
      var n := |visit| - 1;
      var front := visit[..n];
      WalkFetches(username, pattern, front, env);
      forall k | 0 <= k < n ensures front[k] == visit[k] { }
    }
  }

  // ---------------------------------------------------------------------------------------
  // The search handler
  // ---------------------------------------------------------------------------------------

  /** The body is checked first, then `username`, then `pattern`, and each rejection is
      made before any outbound call. */
  lemma ValidationOrder(body: Option<map<string, string>>, env: Env, order: IterationOrder)
    ensures body.None? || body.value == map[] ==>
      Outcome(body, env, order) == Exchange(Responded(Rejection("Invalid parameters")), [])
    ensures body.Some? && body.value != map[] && "username" !in body.value ==>
      Outcome(body, env, order) == Exchange(Responded(Rejection("username is required")), [])
    ensures body.Some? && body.value != map[] && "username" in body.value && "pattern" !in body.value ==>
      Outcome(body, env, order) == Exchange(Responded(Rejection("pattern is required")), [])
  {
  }

  /** When the listing answers an error, no raw file is fetched and the reply is `failed`
      with the upstream message, the request echoed, and no matches. */
  lemma ListingErrorReply(body: Option<map<string, string>>, env: Env, order: IterationOrder)
    requires Accepted(body)
    requires env.listing(ListingUrl(body.value["username"])).status != 200
    ensures Outcome(body, env, order).calls == [ListingUrl(body.value["username"])]
    ensures var response := env.listing(ListingUrl(body.value["username"]));
      Outcome(body, env, order).reply.Responded? <==>
        response.body.JsonObject? && "message" in response.body.fields
    ensures var response := env.listing(ListingUrl(body.value["username"]));
      Outcome(body, env, order).reply.Responded? ==>
        var json := Outcome(body, env, order).reply.json;
        && json.Keys == {"status", "message", "username", "pattern", "matches"}
        && json["status"] == JStr("failed")
        && json["message"] == JStr(response.body.fields["message"])
        && json["username"] == JStr(body.value["username"])
        && json["pattern"] == JStr(body.value["pattern"])
        && json["matches"] == JList([])
  {
  }

  /** A pattern that does not compile raises after the listing call and before any raw fetch. */
  lemma InvalidPatternRaises(body: Option<map<string, string>>, env: Env, order: IterationOrder)
    requires Accepted(body)
    requires env.listing(ListingUrl(body.value["username"])).status == 200
    requires !env.compiles(body.value["pattern"])
    ensures Outcome(body, env, order) ==
      Exchange(Raised(ReError(body.value["pattern"])), [ListingUrl(body.value["username"])])
  {
  }

  /** Given a listing of gists and a valid pattern, the search completes exactly when every
      visited gist has one file; otherwise it raises for the first visited gist that has not,
      which is the first of the first-listed gists, in listing order, without one file. */
  lemma SearchCompletes(body: Option<map<string, string>>, env: Env, gs: seq<Gist>)
    requires Accepted(body)
    requires env.listing(ListingUrl(body.value["username"])) == ListingResponse(200, GistArray(gs))
    requires env.compiles(body.value["pattern"])
    ensures Outcome(body, env, FirstOccurrence).reply.Responded? <==>
      forall i :: IsFirstOccurrence(gs, i) ==> |gs[i].files| == 1
    ensures var reply := Outcome(body, env, FirstOccurrence).reply;
      reply.Raised? ==>
        exists i ::
          && IsFirstOccurrence(gs, i)
          && |gs[i].files| != 1
          && reply.error == UnpackError(gs[i].id, |gs[i].files|)
          && forall j :: 0 <= j < i && IsFirstOccurrence(gs, j) ==> |gs[j].files| == 1
  {
    var u, p := body.value["username"], body.value["pattern"];
    assert Visit(FirstOccurrence, GistArray(gs)) == Ok(DedupById(gs));
    FirstListedComplete(u, p, gs, env);
    FirstListedRaises(u, p, gs, env);
  }

  /** Over the first-occurrence order, the loop completes exactly when every first-listed
      gist has one file. */
  lemma FirstListedComplete(username: string, pattern: string, gs: seq<Gist>, env: Env)
    ensures Walk(username, pattern, DedupById(gs), env).result.Ok? <==>
      forall i :: IsFirstOccurrence(gs, i) ==> |gs[i].files| == 1
  {
    var visit := DedupById(gs);
    WalkFetches(username, pattern, visit, env);
    if forall i :: IsFirstOccurrence(gs, i) ==> |gs[i].files| == 1 {
      forall k | 0 <= k < |visit| ensures |visit[k].files| == 1 {
        assert visit[k] in visit;
      }
    }
    if Walk(username, pattern, visit, env).result.Ok? {
      forall i | IsFirstOccurrence(gs, i) ensures |gs[i].files| == 1 {
        assert gs[i] in visit;
        var k :| 0 <= k < |visit| && visit[k] == gs[i];
      }
    }
  }

  /** Over the first-occurrence order, a loop that raises does so for the first of the
      first-listed gists, in listing order, without one file. */
  lemma FirstListedRaises(username: string, pattern: string, gs: seq<Gist>, env: Env)
    ensures var w := Walk(username, pattern, DedupById(gs), env);
      w.result.Err? ==>
        exists i ::
          && IsFirstOccurrence(gs, i)
          && |gs[i].files| != 1
          && w.result.error == UnpackError(gs[i].id, |gs[i].files|)
          && forall j :: 0 <= j < i && IsFirstOccurrence(gs, j) ==> |gs[j].files| == 1
  {
    var visit := DedupById(gs);
    WalkFetches(username, pattern, visit, env);
    var w := Walk(username, pattern, visit, env);
    if w.result.Err? {
      var k := |w.fetched|;
      assert visit[k] in visit;
      var i :| IsFirstOccurrence(gs, i) && gs[i] == visit[k];
      forall j | 0 <= j < i && IsFirstOccurrence(gs, j) ensures |gs[j].files| == 1 {
        EarlierFirstVisitedEarlier(gs, visit, k, i, j);
      }
    }
  }

  /** A first-listed gist listed before the gist visited at position `k` is visited before
      position `k`. */
  lemma EarlierFirstVisitedEarlier(gs: seq<Gist>, visit: seq<Gist>, k: int, i: int, j: int)
    requires visit == DedupById(gs)
    requires 0 <= k < |visit| && IsFirstOccurrence(gs, i) && gs[i] == visit[k]
    requires 0 <= j < i && IsFirstOccurrence(gs, j)
    ensures exists kj :: 0 <= kj < k && visit[kj] == gs[j]
  {
    assert gs[j] in visit;
    var kj :| 0 <= kj < |visit| && visit[kj] == gs[j];
    assert FirstIndex(gs, gs[i].id) == i && FirstIndex(gs, gs[j].id) == j;
    if kj >= k {
      assert false;
    }
  }

  /** A completed search replies `success`, echoes the request, and reports, in visiting
      order and without repetition, exactly the public URLs of the first-listed gists whose
      raw fetch answered 200 and whose text the pattern is found in; along the way it fetched
      the listing and then each visited gist's raw file once. */
  lemma SearchSuccessReply(body: Option<map<string, string>>, env: Env, gs: seq<Gist>)
    requires Accepted(body)
    requires env.listing(ListingUrl(body.value["username"])) == ListingResponse(200, GistArray(gs))
    requires Outcome(body, env, FirstOccurrence).reply.Responded?
    ensures var u, p := body.value["username"], body.value["pattern"];
      var json := Outcome(body, env, FirstOccurrence).reply.json;
      && json.Keys == {"status", "username", "pattern", "matches"}
      && json["status"] == JStr("success")
      && json["username"] == JStr(u)
      && json["pattern"] == JStr(p)
      && json["matches"].JList?
    ensures var u, p := body.value["username"], body.value["pattern"];
      var matches := Outcome(body, env, FirstOccurrence).reply.json["matches"].items;
      && (forall url :: url in matches <==>
            exists i :: IsFirstOccurrence(gs, i) && Hit(p, gs[i], env) && url == GistUrl(u, gs[i].id))
      && Distinct(matches)
      && |matches| <= |gs|
      && IsSubsequence(matches, Urls(u, DedupById(gs)))
    ensures var visit := DedupById(gs);
      var calls := Outcome(body, env, FirstOccurrence).calls;
      && |calls| == 1 + |visit|
      && calls[0] == ListingUrl(body.value["username"])
      && forall k :: 0 <= k < |visit| ==>
           |visit[k].files| == 1 && calls[k + 1] == visit[k].files[0].rawUrl
  {
    var u, p := body.value["username"], body.value["pattern"];
    var visit := DedupById(gs);
    var w := Walk(u, p, visit, env);
    assert Visit(FirstOccurrence, GistArray(gs)) == Ok(visit);
    assert w.result.Ok?;
    assert Outcome(body, env, FirstOccurrence) ==
      Exchange(Responded(SearchSuccess(u, p, w.result.value)), [ListingUrl(u)] + w.fetched);
    FirstListedMatches(u, p, gs, env);
    WalkInOrder(u, p, visit, env);
    WalkDistinct(u, p, visit, env);
    WalkFetches(u, p, visit, env);
    SubsequenceLength(visit, gs);
  }

  /** Over the first-occurrence visiting order, a URL is reported exactly when it is the
      public URL of a first-listed gist that is a hit. */
  lemma FirstListedMatches(username: string, pattern: string, gs: seq<Gist>, env: Env)
    requires Walk(username, pattern, DedupById(gs), env).result.Ok?
    ensures forall url :: url in Walk(username, pattern, DedupById(gs), env).result.value <==>
      exists i :: IsFirstOccurrence(gs, i) && Hit(pattern, gs[i], env) && url == GistUrl(username, gs[i].id)
  {
    var visit := DedupById(gs);
    var matches := Walk(username, pattern, visit, env).result.value;
    WalkMatches(username, pattern, visit, env);
    forall url
      ensures url in matches <==>
        exists i :: IsFirstOccurrence(gs, i) && Hit(pattern, gs[i], env) && url == GistUrl(username, gs[i].id)
    {
      if url in matches {
        var k :| 0 <= k < |visit| && Hit(pattern, visit[k], env) && url == GistUrl(username, visit[k].id);
        assert visit[k] in visit;
        var i :| IsFirstOccurrence(gs, i) && gs[i] == visit[k];
      }
      if exists i :: IsFirstOccurrence(gs, i) && Hit(pattern, gs[i], env) && url == GistUrl(username, gs[i].id) {
        var i :| IsFirstOccurrence(gs, i) && Hit(pattern, gs[i], env) && url == GistUrl(username, gs[i].id);
        assert gs[i] in visit;
        var k :| 0 <= k < |visit| && visit[k] == gs[i];
      }
    }
  }

  /** Every reply object has a status of `success` or `failed`; exactly the failed ones
      carry a message, and a successful one has exactly the four result keys. */
  lemma ReplyShape(body: Option<map<string, string>>, env: Env, order: IterationOrder)
    ensures var reply := Outcome(body, env, order).reply;
      reply.Responded? ==>
        && "status" in reply.json
        && (reply.json["status"] == JStr("success") || reply.json["status"] == JStr("failed"))
        && ("message" in reply.json <==> reply.json["status"] == JStr("failed"))
        && (reply.json["status"] == JStr("success") ==>
              reply.json.Keys == {"status", "username", "pattern", "matches"})
  {
  }

  // ---------------------------------------------------------------------------------------
  // The loop header as written
  // ---------------------------------------------------------------------------------------

  /** Building a set of the listed records raises for every user who has at least one gist,
      once the listing succeeded and the pattern compiled: no such search can complete. */
  lemma SetOfRecordsRaises(body: Option<map<string, string>>, env: Env, gs: seq<Gist>)
    requires Accepted(body)
    requires env.listing(ListingUrl(body.value["username"])) == ListingResponse(200, GistArray(gs))
    requires gs != []
    requires env.compiles(body.value["pattern"])
    ensures Outcome(body, env, PythonSet) ==
      Exchange(Raised(TypeError("unhashable type: 'dict'")), [ListingUrl(body.value["username"])])
  {
  }
}
