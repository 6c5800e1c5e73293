/**
 One scraping run as a pure function from what the network does to the
 ordered list of effects the scraper performs: the requests it sends,
 the lines it logs, and whether an exception escapes the run.
 Every HTTP call is an abstract `Response`; the per-provider tasks that
 the scraper gathers concurrently are taken one after another.
 */
module Scraper {
  import opened Wrappers
  import opened PyFloat
  import opened Price
  import opened Records

  /** What one HTTP call yields: a response with its status and decoded body, or an exception. */
  datatype Response<T> = Answered(status: int, body: T) | Raised

  predicate Succeeded<T>(r: Response<T>)
  {
    r.Answered? && r.status == 200
  }

  /** The console lines of a provider task, by the branch that prints them. */
  datatype LogKind =
    | ScrapeFailed(name: string, status: int)
    | PriceAdded(name: string)
    | AddPriceFailed(name: string)
    | PriceError(name: string)
    | NoPriceFound(name: string)

  datatype Effect =
    | Login(client_id: string, client_secret: string)
    | OpenSession(authorization: string)
    | ListProviders
    | GetProvider(provider_id: int)
    | GetPage(url: string)
    | PostPrice(id: int, price: Decimal)
    | PutLastAccessed(id: int)
    | PostRun
    | Log(kind: LogKind)
    | Abort   // an exception escapes the run

  /** What the network does for one provider's task. */
  datatype ProviderEnv = ProviderEnv(
    record: Response<Provider>,          // GET /providers/{id}
    page: Response<Option<string>>,      // GET of the provider's url; body: text of the first element matching its selector;
                                         // Raised also stands for an exception from reading the body or selecting the element
    pricePost: Response<()>,             // POST /providers/{id}/prices
    lastAccessedPut: Response<()>)       // PUT /providers/{id}/last_accessed

  /** An entry of the provider list, with what the network does for its task. */
  datatype Listed = Listed(id: int, env: ProviderEnv)

  /** What the network does for one run. */
  datatype RunEnv = RunEnv(
    login: Response<Token>,              // POST /auth/login
    listing: Response<seq<Listed>>,      // GET /scraping_runs/providers
    runPost: Response<()>)               // POST /scraping_runs

  datatype RunResult = RunResult(effects: seq<Effect>, credentials: Credentials)

  // ---------------------------------------------------------------------
  // Observations on effect lists

  /** The price posts among the effects, in order. */
  function Posts(es: seq<Effect>): seq<(int, Decimal)>
  {
    if |es| == 0 then []
    else (if es[0].PostPrice? then [(es[0].id, es[0].price)] else []) + Posts(es[1..])
  }

  /** The last-accessed updates among the effects, in order. */
  function Puts(es: seq<Effect>): seq<int>
  {
    if |es| == 0 then []
    else (if es[0].PutLastAccessed? then [es[0].id] else []) + Puts(es[1..])
  }

  /** The number of log lines among the effects. */
  function Logs(es: seq<Effect>): nat
  {
    if |es| == 0 then 0 else (if es[0].Log? then 1 else 0) + Logs(es[1..])
  }

  lemma {:induction false} PostsAppend(a: seq<Effect>, b: seq<Effect>)
    ensures Posts(a + b) == Posts(a) + Posts(b)
  {
    if |a| > 0 {
      assert (a + b)[1..] == a[1..] + b;
      PostsAppend(a[1..], b);
    } else {
      assert a + b == b;
    }
  }

  lemma {:induction false} PutsAppend(a: seq<Effect>, b: seq<Effect>)
    ensures Puts(a + b) == Puts(a) + Puts(b)
  {
    if |a| > 0 {
      assert (a + b)[1..] == a[1..] + b;
      PutsAppend(a[1..], b);
    } else {
      assert a + b == b;
    }
  }

  lemma {:induction false} LogsAppend(a: seq<Effect>, b: seq<Effect>)
    ensures Logs(a + b) == Logs(a) + Logs(b)
  {
    if |a| > 0 {
      assert (a + b)[1..] == a[1..] + b;
      LogsAppend(a[1..], b);
    } else {
      assert a + b == b;
    }
  }

  /** The observations of a concatenation are those of its parts. */
  lemma ObservationsAppend(a: seq<Effect>, b: seq<Effect>)
    ensures Posts(a + b) == Posts(a) + Posts(b)
    ensures Puts(a + b) == Puts(a) + Puts(b)
    ensures Logs(a + b) == Logs(a) + Logs(b)
  {
    PostsAppend(a, b);
    PutsAppend(a, b);
    LogsAppend(a, b);
  }

  /** An escaping exception, if any, is the last thing that happens. */
  predicate AbortLast(es: seq<Effect>)
  {
    forall i :: 0 <= i < |es| && es[i] == Abort ==> i == |es| - 1
  }

  /** A last-accessed update only ever follows a price post. */
  predicate PutAfterPost(es: seq<Effect>)
  {
    forall i, j :: 0 <= i < |es| && 0 <= j < |es| && es[i].PutLastAccessed? && es[j].PostPrice? ==> j < i
  }

  /** Effects a provider task can have: nothing of the login, the listing or the run report. */
  predicate ProviderScoped(e: Effect)
  {
    e.GetProvider? || e.GetPage? || e.PostPrice? || e.PutLastAccessed? || e.Log? || e.Abort?
  }

  // ---------------------------------------------------------------------
  // What the network makes of a provider, independently of the effects

  /** The task raises: the record fetch failed or returned non-200, or the page fetch raised. */
  predicate Propagates(env: ProviderEnv)
  {
    !Succeeded(env.record) || env.page.Raised?
  }

  /** The price a matched element offers: its text, sanitised and parsed. */
  function ElementPrice(element: Option<string>): Option<Decimal>
  {
    match element
    case None => None
    case Some(text) => if SanitizePrice(text).Success? then Some(SanitizePrice(text).value) else None
  }

  /** The price the page yields: record and page arrived with 200, an element matched, and its text parsed. */
  function Quote(env: ProviderEnv): Option<Decimal>
  {
    if Succeeded(env.record) && Succeeded(env.page) then ElementPrice(env.page.body) else None
  }

  /** `_add_price_for_provider` reports success exactly for status 200 or 201. */
  predicate PriceAccepted(status: int)
  {
    status == 200 || status == 201
  }

  predicate WillPost(env: ProviderEnv)
  {
    Quote(env).Some? && Positive(Quote(env).value)
  }

  predicate WillPut(env: ProviderEnv)
  {
    WillPost(env) && env.pricePost.Answered? && PriceAccepted(env.pricePost.status)
  }

  // ---------------------------------------------------------------------
  // One provider's task

  /** A lone log line: no post, no update, one line. */
  lemma ObserveLog(k: LogKind)
    ensures var r := [Log(k)];
            Posts(r) == [] && Puts(r) == [] && Logs(r) == 1 && PutAfterPost(r)
  {
    var r := [Log(k)];
    assert r[1..] == [];
  }

  /** A post followed by a log line. */
  lemma ObservePosted(id: int, v: Decimal, k: LogKind)
    ensures var r := [PostPrice(id, v), Log(k)];
            Posts(r) == [(id, v)] && Puts(r) == [] && Logs(r) == 1 && PutAfterPost(r)
  {
    var r := [PostPrice(id, v), Log(k)];
    ObserveLog(k);
    assert r[1..] == [Log(k)];
  }

  /** A post, then the last-accessed update, then a log line. */
  lemma ObserveUpdated(id: int, v: Decimal, k: LogKind)
    ensures var r := [PostPrice(id, v), PutLastAccessed(id), Log(k)];
            Posts(r) == [(id, v)] && Puts(r) == [id] && Logs(r) == 1 && PutAfterPost(r)
  {
    var r := [PostPrice(id, v), PutLastAccessed(id), Log(k)];
    ObserveLog(k);
    assert r[1..] == [PutLastAccessed(id), Log(k)];
    assert r[1..][1..] == [Log(k)];
  }

  /**
   The price branch once the text parsed: only a positive price is
   posted, the last-accessed PUT is issued only when the post was
   accepted, and an exception of either call is caught and logged.
   */
  function ReportPrice(p: Provider, price: Decimal, env: ProviderEnv): (r: seq<Effect>)
    ensures |r| > 0 && r[|r| - 1].Log? && Logs(r) == 1
    ensures Abort !in r && (forall e :: e in r ==> ProviderScoped(e))
    ensures Posts(r) == if Positive(price) then [(p.id, price)] else []
    ensures Puts(r) == if Positive(price) && env.pricePost.Answered? && PriceAccepted(env.pricePost.status)
                       then [p.id] else []
    ensures PutAfterPost(r)
  {
    if !Positive(price) then
      ObserveLog(AddPriceFailed(p.name));
      [Log(AddPriceFailed(p.name))]
    else if env.pricePost.Raised? then
      ObservePosted(p.id, price, PriceError(p.name));
      [PostPrice(p.id, price), Log(PriceError(p.name))]
    else if !PriceAccepted(env.pricePost.status) then
      ObservePosted(p.id, price, AddPriceFailed(p.name));
      [PostPrice(p.id, price), Log(AddPriceFailed(p.name))]
    else
      var k := if env.lastAccessedPut.Raised? then PriceError(p.name) else PriceAdded(p.name);
      ObserveUpdated(p.id, price, k);
      [PostPrice(p.id, price), PutLastAccessed(p.id), Log(k)]
  }

  /**
   The price is posted exactly when it is positive, and the last-accessed
   update is sent exactly when that post answered 200 or 201.
   */
  lemma AddPriceAccepted(p: Provider, price: Decimal, env: ProviderEnv)
    ensures PostPrice(p.id, price) in ReportPrice(p, price, env) <==> Positive(price)
    ensures PutLastAccessed(p.id) in ReportPrice(p, price, env) <==>
            Positive(price) && env.pricePost.Answered? && env.pricePost.status in {200, 201}
  {
    var r := ReportPrice(p, price, env);
    if !Positive(price) {
      assert r == [Log(AddPriceFailed(p.name))];
    } else if env.pricePost.Raised? {
      assert r == [PostPrice(p.id, price), Log(PriceError(p.name))];
    } else if !PriceAccepted(env.pricePost.status) {
      assert r == [PostPrice(p.id, price), Log(AddPriceFailed(p.name))];
    } else {
      assert r[..2] == [PostPrice(p.id, price), PutLastAccessed(p.id)];
    }
  }

  /** The matched element: none logs "No price found"; a parse error is caught and logged. */
  function HandleElement(p: Provider, element: Option<string>, env: ProviderEnv): (r: seq<Effect>)
    ensures |r| > 0 && r[|r| - 1].Log? && Logs(r) == 1
    ensures Abort !in r && (forall e :: e in r ==> ProviderScoped(e))
    ensures element.None? ==> r == [Log(NoPriceFound(p.name))]
    ensures element.Some? && SanitizePrice(element.value).Failure? ==> r == [Log(PriceError(p.name))]
    ensures var q := ElementPrice(element);
            Posts(r) == if q.Some? && Positive(q.value) then [(p.id, q.value)] else []
    ensures var q := ElementPrice(element);
            Puts(r) == if q.Some? && Positive(q.value) && env.pricePost.Answered? && PriceAccepted(env.pricePost.status)
                       then [p.id] else []
    ensures PutAfterPost(r)
  {
    match element
    case None => [Log(NoPriceFound(p.name))]
    case Some(text) =>
      match SanitizePrice(text)
      case Failure(_) => [Log(PriceError(p.name))]
      case Success(price) => ReportPrice(p, price, env)
  }

  /** What follows the page fetch: a non-200 page logs and ends the task; an exception escapes. */
  function PageOutcome(p: Provider, env: ProviderEnv): (r: seq<Effect>)
    requires Succeeded(env.record) && env.record.body == p
    ensures |r| > 0
    ensures env.page.Raised? ==> r == [Abort]
    ensures AbortLast(r)
    ensures env.page.Answered? ==> Abort !in r && r[|r| - 1].Log? && Logs(r) == 1
    ensures env.page.Answered? && env.page.status != 200 ==> r == [Log(ScrapeFailed(p.name, env.page.status))]
    ensures forall e :: e in r ==> ProviderScoped(e)
  {
    match env.page
    case Raised => [Abort]
    case Answered(status, element) =>
      if status != 200 then [Log(ScrapeFailed(p.name, status))]
      else HandleElement(p, element, env)
  }

  /** After the page fetch, a post happens only for a positive quoted price and an update only after an accepted post. */
  lemma PageReports(p: Provider, env: ProviderEnv)
    requires Succeeded(env.record) && env.record.body == p
    ensures var r := PageOutcome(p, env);
            && Posts(r) == (if WillPost(env) then [(p.id, Quote(env).value)] else [])
            && Puts(r) == (if WillPut(env) then [p.id] else [])
            && PutAfterPost(r)
  {
    match env.page
    case Raised =>
      assert PageOutcome(p, env) == [Abort];
      assert Quote(env) == None;
    case Answered(status, element) =>
      if status != 200 {
        assert PageOutcome(p, env) == [Log(ScrapeFailed(p.name, status))];
        assert Quote(env) == None;
      } else {
        assert PageOutcome(p, env) == HandleElement(p, element, env);
        assert Quote(env) == ElementPrice(element);
      }
  }

  /**
   `_scrape_provider`: fetch the record (a failure raises out of the
   task), fetch the page, and act on the element. Exactly the failures of
   the record fetch and an exception of the page fetch escape; a post
   happens only for a positive parsed price, a last-accessed update only
   after an accepted post, and a task that does not raise ends in one log
   line.
   */
  function ScrapeProvider(c: Listed): (r: seq<Effect>)
    ensures |r| > 0 && r[0] == GetProvider(c.id)
    ensures Abort in r <==> Propagates(c.env)
    ensures AbortLast(r)
    ensures forall e :: e in r ==> ProviderScoped(e)
  {
    var head := [GetProvider(c.id)];
    if !Succeeded(c.env.record) then
      AbortLastAppend(head, [Abort]);
      head + [Abort]
    else
      var p := c.env.record.body;
      var after := PageOutcome(p, c.env);
      AbortLastAppend(head + [GetPage(p.url)], after);
      head + [GetPage(p.url)] + after
  }

  /** Two requests in front of a task's outcome change none of its observations. */
  lemma RequestsFirst(x: Effect, y: Effect, t: seq<Effect>)
    requires x.GetProvider? && y.GetPage?
    ensures var r := [x, y] + t;
            && Posts(r) == Posts(t) && Puts(r) == Puts(t) && Logs(r) == Logs(t)
            && (PutAfterPost(t) ==> PutAfterPost(r))
            && (|t| > 0 ==> r[|r| - 1] == t[|t| - 1])
  {
    var r := [x, y] + t;
    ObservationsAppend([x, y], t);
    assert forall i :: 2 <= i < |r| ==> r[i] == t[i - 2];
    assert !r[0].PutLastAccessed? && !r[0].PostPrice? && !r[1].PutLastAccessed? && !r[1].PostPrice?;
  }

  /**
   What one task reports: a post only for a positive parsed price, a
   last-accessed update only after an accepted post, the update after
   the post, and a task that does not raise ends in one log line.
   */
  lemma ProviderReports(c: Listed)
    ensures var r := ScrapeProvider(c);
            && Posts(r) == (if WillPost(c.env) then [(c.env.record.body.id, Quote(c.env).value)] else [])
            && Puts(r) == (if WillPut(c.env) then [c.env.record.body.id] else [])
            && PutAfterPost(r)
            && (!Propagates(c.env) ==> r[|r| - 1].Log? && Logs(r) == 1)
  {
    if Succeeded(c.env.record) {
      var p := c.env.record.body;
      var after := PageOutcome(p, c.env);
      assert ScrapeProvider(c) == [GetProvider(c.id), GetPage(p.url)] + after;
      RequestsFirst(GetProvider(c.id), GetPage(p.url), after);
      PageReports(p, c.env);
    } else {
      var r := [GetProvider(c.id), Abort];
      assert ScrapeProvider(c) == r;
      assert r[1..] == [Abort] && Posts([Abort]) == [] && Puts([Abort]) == [];
      assert !WillPost(c.env) && !WillPut(c.env);
    }
  }

  // ---------------------------------------------------------------------
  // Gathering the tasks

  /**
   `asyncio.gather` over task outcomes, folded sequentially in list order:
   the first outcome with an escaping exception ends the fold, and the
   fold takes no later task. The fold's effects are a prefix of the
   concatenation of the task outcomes in list order.
   */
  function Gather(tasks: seq<seq<Effect>>): (r: seq<Effect>)
    ensures r <= Concat(tasks)
  {
    if |tasks| == 0 then []
    else if Abort in tasks[0] then tasks[0]
    else tasks[0] + Gather(tasks[1..])
  }

  /** Reference: every outcome, in order. */
  function Concat(tasks: seq<seq<Effect>>): seq<Effect>
  {
    if |tasks| == 0 then [] else tasks[0] + Concat(tasks[1..])
  }

  /** The gather raises exactly when some task does. */
  lemma {:induction false} GatherAbort(tasks: seq<seq<Effect>>)
    ensures Abort in Gather(tasks) <==> exists i :: 0 <= i < |tasks| && Abort in tasks[i]
  {
    if |tasks| > 0 && Abort !in tasks[0] {
      GatherAbort(tasks[1..]);
      assert forall i :: 0 <= i < |tasks| - 1 ==> tasks[1..][i] == tasks[i + 1];
      if exists i :: 0 <= i < |tasks| && Abort in tasks[i] {
        var i :| 0 <= i < |tasks| && Abort in tasks[i];
        assert Abort in tasks[1..][i - 1];
      }
    }
  }

  /** Whatever the gather does, some task did. */
  lemma {:induction false} GatherFrom(tasks: seq<seq<Effect>>, e: Effect)
    requires e in Gather(tasks)
    ensures exists i :: 0 <= i < |tasks| && e in tasks[i]
  {
    if e !in tasks[0] {
      GatherFrom(tasks[1..], e);
      var i :| 0 <= i < |tasks[1..]| && e in tasks[1..][i];
      assert e in tasks[i + 1];
    }
  }

  lemma {:induction false} AbortLastAppend(a: seq<Effect>, b: seq<Effect>)
    requires Abort !in a && AbortLast(b)
    ensures AbortLast(a + b)
  {
    assert forall j :: 0 <= j < |a| ==> (a + b)[j] == a[j] != Abort;
    forall i | 0 <= i < |a + b| && (a + b)[i] == Abort
      ensures i == |a + b| - 1
    {
      assert b[i - |a|] == Abort;
    }
  }

  /** An escaping exception ends the gather, when it ends each task. */
  lemma {:induction false} GatherAbortLast(tasks: seq<seq<Effect>>)
    requires forall i :: 0 <= i < |tasks| ==> AbortLast(tasks[i])
    ensures AbortLast(Gather(tasks))
  {
    if |tasks| > 0 && Abort !in tasks[0] {
      assert forall i :: 0 <= i < |tasks| - 1 ==> tasks[1..][i] == tasks[i + 1];
      GatherAbortLast(tasks[1..]);
      AbortLastAppend(tasks[0], Gather(tasks[1..]));
    }
  }

  /** When no task raises, every task is taken: one failing provider does not stop its siblings. */
  lemma {:induction false} GatherIsolated(tasks: seq<seq<Effect>>)
    requires forall i :: 0 <= i < |tasks| ==> Abort !in tasks[i]
    ensures Gather(tasks) == Concat(tasks)
  {
    if |tasks| > 0 {
      assert forall i :: 0 <= i < |tasks| - 1 ==> tasks[1..][i] == tasks[i + 1];
      GatherIsolated(tasks[1..]);
    }
  }

  /** The first task that raises is the last one taken. */
  lemma {:induction false} GatherStops(tasks: seq<seq<Effect>>, k: nat)
    requires k < |tasks| && Abort in tasks[k]
    requires forall i :: 0 <= i < k ==> Abort !in tasks[i]
    ensures Gather(tasks) == Concat(tasks[..k + 1])
  {
    if k == 0 {
      assert tasks[..1][1..] == [];
      assert tasks[0] + [] == tasks[0];
    } else {
      assert forall i :: 0 <= i < |tasks| - 1 ==> tasks[1..][i] == tasks[i + 1];
      GatherStops(tasks[1..], k - 1);
      assert tasks[..k + 1][1..] == tasks[1..][..k];
    }
  }

  // ---------------------------------------------------------------------
  // All providers, and the run

  /** The provider tasks `_handle_scraping` creates, one per listed provider, in list order. */
  function Tasks(cases: seq<Listed>): (r: seq<seq<Effect>>)
    ensures |r| == |cases| && forall i :: 0 <= i < |cases| ==> r[i] == ScrapeProvider(cases[i])
  {
    seq(|cases|, i requires 0 <= i < |cases| => ScrapeProvider(cases[i]))
  }

  /** A provider's task raises exactly when its record fetch fails or its page fetch raises. */
  lemma TasksAbort(cases: seq<Listed>)
    ensures forall i :: 0 <= i < |cases| ==> (Abort in Tasks(cases)[i] <==> Propagates(cases[i].env))
  {
  }

  lemma TasksPrefix(cases: seq<Listed>, n: nat)
    requires n <= |cases|
    ensures Tasks(cases)[..n] == Tasks(cases[..n])
  {
  }

  /** No listed provider's task raises. */
  predicate NoneRaise(cases: seq<Listed>)
  {
    forall i :: 0 <= i < |cases| ==> !Propagates(cases[i].env)
  }

  /**
   `_handle_scraping`: gather the provider tasks. The gather raises
   exactly when some provider's task raises, the exception is the last
   effect, and nothing but provider effects happen.
   */
  function ScrapeAll(cases: seq<Listed>): (r: seq<Effect>)
    ensures Abort in r <==> !NoneRaise(cases)
    ensures AbortLast(r)
    ensures forall e :: e in r ==> ProviderScoped(e)
  {
    var tasks := Tasks(cases);
    GatherAbort(tasks);
    GatherAbortLast(tasks);
    TasksAbort(cases);
    forall e | e in Gather(tasks)
      ensures ProviderScoped(e)
    {
      GatherFrom(tasks, e);
    }
    Gather(tasks)
  }

  /** Reference: the price posts the listed providers call for, in list order. */
  function ExpectedPosts(cases: seq<Listed>): seq<(int, Decimal)>
  {
    if |cases| == 0 then []
    else
      var env := cases[0].env;
      (if WillPost(env) then [(env.record.body.id, Quote(env).value)] else []) + ExpectedPosts(cases[1..])
  }

  /** Reference: the last-accessed updates the listed providers call for, in list order. */
  function ExpectedPuts(cases: seq<Listed>): seq<int>
  {
    if |cases| == 0 then []
    else
      var env := cases[0].env;
      (if WillPut(env) then [env.record.body.id] else []) + ExpectedPuts(cases[1..])
  }

  /** Taking every task posts and updates exactly what each provider calls for. */
  lemma {:induction false} ConcatReports(cases: seq<Listed>)
    ensures Posts(Concat(Tasks(cases))) == ExpectedPosts(cases)
    ensures Puts(Concat(Tasks(cases))) == ExpectedPuts(cases)
  {
    if |cases| > 0 {
      assert Tasks(cases)[1..] == Tasks(cases[1..]);
      ObservationsAppend(ScrapeProvider(cases[0]), Concat(Tasks(cases[1..])));
      ProviderReports(cases[0]);
      ConcatReports(cases[1..]);
    }
  }

  /** When no provider's task raises, every listed provider gets exactly the posts and updates it calls for. */
  lemma ScrapeAllReports(cases: seq<Listed>)
    requires NoneRaise(cases)
    ensures Posts(ScrapeAll(cases)) == ExpectedPosts(cases)
    ensures Puts(ScrapeAll(cases)) == ExpectedPuts(cases)
  {
    GatherIsolated(Tasks(cases));
    ConcatReports(cases);
  }

  /**
   In the sequential fold, the first provider whose task raises is the
   last one taken: the fold records nothing of the providers after it.
   */
  lemma ScrapeAllStopsAtFirstRaise(cases: seq<Listed>, k: nat)
    requires k < |cases| && Propagates(cases[k].env)
    requires forall i :: 0 <= i < k ==> !Propagates(cases[i].env)
    ensures ScrapeAll(cases) == Concat(Tasks(cases[..k + 1]))
  {
    TasksAbort(cases);
    GatherStops(Tasks(cases), k);
    TasksPrefix(cases, k + 1);
  }

  /** The run completes its scraping phase: login and listing returned 200 and no task raised. */
  predicate Completes(env: RunEnv)
  {
    Succeeded(env.login) && Succeeded(env.listing) && NoneRaise(env.listing.body)
  }

  /** `_post_run`, called after the gather: skipped when a task raised; its own exception escapes. */
  function Report(scraped: seq<Effect>, runPost: Response<()>): (r: seq<Effect>)
    ensures PostRun in r <==> Abort !in scraped
    ensures Abort in r <==> Abort !in scraped && runPost.Raised?
    ensures AbortLast(r)
    ensures forall e :: e in r ==> e.PostRun? || e.Abort?
  {
    if Abort in scraped then [] else [PostRun] + (if runPost.Raised? then [Abort] else [])
  }

  /**
   What follows a successful login: the session is opened with the given
   Authorization header, the providers are listed (a non-200 list
   raises), every task is gathered, and the run is reported.
   */
  function Session(header: string, env: RunEnv): (r: seq<Effect>)
    ensures |r| >= 2 && r[0] == OpenSession(header) && r[1] == ListProviders
    ensures PostRun in r <==> Succeeded(env.listing) && NoneRaise(env.listing.body)
    ensures Abort in r <==> !(Succeeded(env.listing) && NoneRaise(env.listing.body)) || env.runPost.Raised?
    ensures AbortLast(r)
  {
    var opening := [OpenSession(header), ListProviders];
    if !Succeeded(env.listing) then
      AbortLastAppend(opening, [Abort]);
      opening + [Abort]
    else
      var scraped := ScrapeAll(env.listing.body);
      var report := Report(scraped, env.runPost);
      assert !ProviderScoped(PostRun) && forall h :: !ProviderScoped(OpenSession(h));
      AbortLastJoin(opening, scraped, report);
      opening + scraped + report
  }

  /** A session sends only the header it was opened with, and fetches providers only after a 200 listing. */
  lemma SessionScope(header: string, env: RunEnv)
    ensures forall h :: OpenSession(h) in Session(header, env) ==> h == header
    ensures forall id :: GetProvider(id) in Session(header, env) ==> Succeeded(env.listing)
  {
    var opening := [OpenSession(header), ListProviders];
    if Succeeded(env.listing) {
      var scraped := ScrapeAll(env.listing.body);
      var report := Report(scraped, env.runPost);
      assert Session(header, env) == opening + scraped + report;
      assert forall h :: OpenSession(h) !in scraped && OpenSession(h) !in report;
    } else {
      assert Session(header, env) == opening + [Abort];
    }
  }

  lemma {:induction false} AbortLastJoin(a: seq<Effect>, b: seq<Effect>, c: seq<Effect>)
    requires Abort !in a && AbortLast(b) && AbortLast(c)
    requires Abort in b ==> c == []
    ensures AbortLast(a + b + c)
  {
    if Abort in b {
      assert a + b + c == a + b;
      AbortLastAppend(a, b);
    } else {
      AbortLastAppend(a + b, c);
    }
  }

  /**
   `run`: log in (a non-200 login raises before anything else), store
   the token, open the session with its Authorization header, and carry
   on as `Session` says. The run report is posted exactly when the run
   completes; an exception escapes exactly when it does not or when the
   report itself raises, and nothing happens after it.
   */
  function Run(creds: Credentials, env: RunEnv): (r: RunResult)
    ensures |r.effects| > 0 && r.effects[0] == Login(creds.client_id, creds.client_secret)
    ensures !Succeeded(env.login) ==>
              r.effects == [Login(creds.client_id, creds.client_secret), Abort] && r.credentials == creds
    ensures Succeeded(env.login) ==> r.credentials == SetToken(creds, env.login.body)
    ensures ListProviders in r.effects <==> Succeeded(env.login)
    ensures forall h :: OpenSession(h) in r.effects ==> Succeeded(env.login) && h == AuthHeader(env.login.body)
    ensures forall id :: GetProvider(id) in r.effects ==> Succeeded(env.login) && Succeeded(env.listing)
    ensures PostRun in r.effects <==> Completes(env)
    ensures Abort in r.effects <==> !Completes(env) || env.runPost.Raised?
    ensures AbortLast(r.effects)
  {
    var login := [Login(creds.client_id, creds.client_secret)];
    if !Succeeded(env.login) then
      AbortLastAppend(login, [Abort]);
      RunResult(login + [Abort], creds)
    else
      var authed := SetToken(creds, env.login.body);
      var header := ConfigureClient(authed).value;
      assert header == AuthHeader(env.login.body);
      var rest := Session(header, env);
      SessionScope(header, env);
      AbortLastAppend(login, rest);
      RunResult(login + rest, authed)
  }

  /** After a successful listing with no raising task, the session takes every task and then reports. */
  lemma SessionPhases(header: string, env: RunEnv)
    requires Succeeded(env.listing) && NoneRaise(env.listing.body)
    ensures Session(header, env) ==
            [OpenSession(header), ListProviders] + Concat(Tasks(env.listing.body))
            + [PostRun] + (if env.runPost.Raised? then [Abort] else [])
  {
    var cases := env.listing.body;
    var tasks := Tasks(cases);
    var scraped := ScrapeAll(cases);
    assert scraped == Concat(tasks) by {
      assert forall i :: 0 <= i < |tasks| ==> Abort !in tasks[i];
      GatherIsolated(tasks);
    }
    var report := Report(scraped, env.runPost);
    assert report == [PostRun] + (if env.runPost.Raised? then [Abort] else []) by {
      assert Abort !in scraped;
    }
    var opening := [OpenSession(header), ListProviders];
    assert Session(header, env) == opening + scraped + report;
    Regroup(opening + scraped, [PostRun], if env.runPost.Raised? then [Abort] else []);
  }

  /** Regrouping a concatenation of effects; used by SessionPhases and RunPhases. */
  lemma Regroup(a: seq<Effect>, b: seq<Effect>, c: seq<Effect>)
    ensures a + (b + c) == a + b + c
  {
  }

  /** The phases of a completed run, in order: login, session, listing, every task, run report. */
  lemma RunPhases(creds: Credentials, env: RunEnv)
    requires Completes(env)
    ensures Run(creds, env).effects ==
            [Login(creds.client_id, creds.client_secret), OpenSession(AuthHeader(env.login.body)), ListProviders]
            + Concat(Tasks(env.listing.body))
            + [PostRun] + (if env.runPost.Raised? then [Abort] else [])
  {
    var header := AuthHeader(env.login.body);
    assert ConfigureClient(SetToken(creds, env.login.body)).value == header;
    SessionPhases(header, env);
    var login := [Login(creds.client_id, creds.client_secret)];
    var opening := [OpenSession(header), ListProviders];
    var scraped := Concat(Tasks(env.listing.body));
    var tail := if env.runPost.Raised? then [Abort] else [];
    assert Run(creds, env).effects == login + (opening + scraped + [PostRun] + tail);
    Regroup(login, opening + scraped + [PostRun], tail);
    Regroup(login, opening + scraped, [PostRun]);
    Regroup(login, opening, scraped);
    assert login + opening == [Login(creds.client_id, creds.client_secret), OpenSession(header), ListProviders];
  }
}
