/** The script's entry point: fetch, format, publish. */
module DailyJob {
  import opened Wrappers
  import opened Retry
  import opened Post
  import opened News
  import opened Publisher

  /** The attempt budget both calls use by default. */
  const Retries: int := 3

  const NothingFetched: string := "No news fetched; no post made."

  /** One run of the script. `shuffle` stands for `random.shuffle`: whatever
      order it produces holds the same articles. `text` is the post handed to
      the publisher, if any, and `order` the order in which it lists the fetched
      articles; `log` is every line written, in order. */
  method Run(fetchOutcomes: seq<FetchOutcome>, shuffle: seq<Article> -> seq<Article>, postOutcomes: seq<PostOutcome>)
      returns (posted: bool, ghost text: Option<string>, ghost order: seq<Article>, ghost log: seq<string>)
    requires |fetchOutcomes| >= Retries && |postOutcomes| >= Retries
    requires forall s :: multiset(shuffle(s)) == multiset(s)
    ensures match FetchResult(fetchOutcomes, Retries)
            case None => !posted && text == None && order == []
                         && log == FetchLog(fetchOutcomes, Retries) + [NothingFetched]
            case Some(articles) =>
              if articles == [] then
                !posted && text == None && order == [] && log == FetchLog(fetchOutcomes, Retries) + [NothingFetched]
              else
                order == shuffle(articles) && multiset(order) == multiset(articles)
                && text == Some(FormattedPost(order)) && |text.value| <= PostLimit
                && posted == PostSucceeds(postOutcomes, Retries)
                && log == FetchLog(fetchOutcomes, Retries) + PostLog(postOutcomes, Retries)
  {
    var articles, fetchAttempts, fetchLog, fetchPauses := FetchTechNews(fetchOutcomes, Retries);
    if articles.Some? && articles.value != [] {
      var postText := FormatPost(shuffle(articles.value));
      ghost var sent, postLog, postPauses;
      posted, sent, postLog, postPauses := PostToX(postText, postOutcomes, Retries);
      text, order, log := Some(postText), shuffle(articles.value), fetchLog + postLog;
    } else {
      posted, text, order, log := false, None, [], fetchLog + [NothingFetched];
    }
  }
}
