/** `fetch_tech_news`: the headline request, retried. The HTTP call, the JSON
    decoding and the page chosen at random are replaced by one given outcome per
    attempt. */
module News {
  import opened Wrappers
  import opened Retry
  import opened Post

  /** The `articles` key of a decoded reply: missing, `null`, or a list. */
  datatype ArticleList = NoArticles | NullArticles | Items(items: seq<Article>)

  /** What one request came back with: an exception raised by the request, by
      `raise_for_status` or by the JSON decoding (with its text), or a decoded
      JSON object. */
  datatype FetchOutcome =
    | RequestError(error: string)
    | Reply(status: Field, message: Field, articles: ArticleList)

  const FetchFailure: string := "Error fetching news"
  const FetchGaveUp: string := "Failed to fetch news after retries. Skipping post."

  /** The body of the `try` block: a missing key raises a `KeyError` (whose text
      is the quoted key), a status other than "ok" raises a `ValueError` carrying
      the reply's message, and a `null` article list is returned as `None`. */
  function TryFetch(o: FetchOutcome): (t: Attempt<Option<seq<Article>>>)
    ensures t.Succeeded? <==> o.Reply? && o.status == Present("ok") && !o.articles.NoArticles?
    ensures t.Succeeded? ==> t.value == if o.articles.Items? then Some(o.articles.items) else None
  {
    match o
    case RequestError(error) => Failed(error)
    case Reply(status, message, articles) =>
      if status.Absent? then Failed("'status'")
      else if status != Present("ok") then Failed("News API error: " + Render(message, "None"))
      else
        match articles
        case NoArticles => Failed("'articles'")
        case NullArticles => Succeeded(None)
        case Items(items) => Succeeded(Some(items))
  }

  function FetchTries(outcomes: seq<FetchOutcome>): (tries: seq<Attempt<Option<seq<Article>>>>)
    ensures |tries| == |outcomes|
  {
    seq(|outcomes|, i requires 0 <= i < |outcomes| => TryFetch(outcomes[i]))
  }

  /** What `fetch_tech_news` returns. */
  function FetchResult(outcomes: seq<FetchOutcome>, retries: int): Option<seq<Article>>
    requires AttemptBudget(retries) <= |outcomes|
  {
    match FirstSuccess(FetchTries(outcomes), AttemptBudget(retries))
    case Some(articles) => articles
    case None => None
  }

  /** The lines `fetch_tech_news` logs. */
  function FetchLog(outcomes: seq<FetchOutcome>, retries: int): seq<string>
    requires AttemptBudget(retries) <= |outcomes|
  {
    var tries, n := FetchTries(outcomes), AttemptBudget(retries);
    var k := Failures(tries, n);
    FailureLines(FetchFailure, tries, k, n) + if k < n then [] else [FetchGaveUp]
  }

  /** `fetch_tech_news(retries)`. `attempts` counts the requests made, `log` the
      lines written, `pauses` the sleeps taken, in seconds. */
  method FetchTechNews(outcomes: seq<FetchOutcome>, retries: int)
      returns (result: Option<seq<Article>>, ghost attempts: nat, ghost log: seq<string>, ghost pauses: seq<nat>)
    requires AttemptBudget(retries) <= |outcomes|
    ensures var tries, n := FetchTries(outcomes), AttemptBudget(retries);
              attempts == AttemptsMade(tries, n)
              && pauses == Pauses(Failures(tries, n), n)
    ensures result == FetchResult(outcomes, retries)
    ensures log == FetchLog(outcomes, retries)
  {
    ghost var tries := FetchTries(outcomes);
    ghost var n := AttemptBudget(retries);
    log, pauses := [], [];
    var attempt := 0;
    while attempt < retries
      invariant 0 <= attempt <= n
      invariant forall a :: 0 <= a < attempt ==> tries[a].Failed?
      invariant log == FailureLines(FetchFailure, tries, attempt, n)
      invariant pauses == Pauses(attempt, n)
    {
      var t := TryFetch(outcomes[attempt]);
      assert t == tries[attempt];
      if t.Succeeded? {
        FailuresIs(tries, n, attempt);
        result, attempts := t.value, attempt + 1;
        return;
      }
      FailureLinesStep(FetchFailure, tries, attempt, n);
      PausesStep(attempt, n);
      log := log + [AttemptLine(FetchFailure, attempt, n, t.reason)];
      if attempt < retries - 1 {
        pauses := pauses + [5 * (attempt + 1)];
      }
      attempt := attempt + 1;
    }
    FailuresIs(tries, n, n);
    log := log + [FetchGaveUp];
    result, attempts := None, n;
  }

  /** When every attempt fails (a request error, a status other than "ok", or an
      "ok" reply without an `articles` key), `fetch_tech_news` makes all
      `retries` attempts and returns `None` after logging each failure and then
      giving up. */
  lemma FetchAllFail(outcomes: seq<FetchOutcome>, retries: int)
    requires AttemptBudget(retries) <= |outcomes|
    requires forall a :: 0 <= a < AttemptBudget(retries) ==> FetchTries(outcomes)[a].Failed?
    ensures AttemptsMade(FetchTries(outcomes), AttemptBudget(retries)) == AttemptBudget(retries)
    ensures FetchResult(outcomes, retries) == None
    ensures var log := FetchLog(outcomes, retries);
              |log| == AttemptBudget(retries) + 1 && log[|log| - 1] == FetchGaveUp
  {
    FailuresIs(FetchTries(outcomes), AttemptBudget(retries), AttemptBudget(retries));
  }

  /** When attempt `k` is the first to succeed (an `ok` reply with an `articles`
      key, whatever else it carries), exactly `k + 1` requests are made, that
      reply's articles are returned (`None` for a `null` list) and only the `k`
      failures are logged. */
  lemma FetchSucceedsAt(outcomes: seq<FetchOutcome>, retries: int, k: nat)
    requires k < AttemptBudget(retries) <= |outcomes|
    requires forall a :: 0 <= a < k ==> !FetchTries(outcomes)[a].Succeeded?
    requires outcomes[k].Reply? && outcomes[k].status == Present("ok") && !outcomes[k].articles.NoArticles?
    ensures FetchResult(outcomes, retries)
              == if outcomes[k].articles.Items? then Some(outcomes[k].articles.items) else None
    ensures AttemptsMade(FetchTries(outcomes), AttemptBudget(retries)) == k + 1
    ensures |FetchLog(outcomes, retries)| == k
  {
    FailuresIs(FetchTries(outcomes), AttemptBudget(retries), k);
  }
}
