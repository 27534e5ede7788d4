/** `post_to_x`: publishing the post, retried. The client and its
    `create_tweet` call are replaced by one given outcome per attempt. */
module Publisher {
  import opened Wrappers
  import opened Strings
  import opened Retry

  /** What one `create_tweet` call came to: the new post's id, or the text of
      the exception it raised. */
  datatype PostOutcome = Posted(id: string) | PostError(error: string)

  const PostFailure: string := "Error posting to X"
  const PostGaveUp: string := "Failed to post after retries."

  function PostTries(outcomes: seq<PostOutcome>): (tries: seq<Attempt<string>>)
    ensures |tries| == |outcomes|
    ensures forall i :: 0 <= i < |outcomes| ==> (tries[i].Succeeded? <==> outcomes[i].Posted?)
  {
    seq(|outcomes|, i requires 0 <= i < |outcomes| =>
      match outcomes[i]
      case Posted(id) => Succeeded(id)
      case PostError(error) => Failed(error))
  }

  /** Whether `post_to_x` reports success. */
  function PostSucceeds(outcomes: seq<PostOutcome>, retries: int): bool
    requires AttemptBudget(retries) <= |outcomes|
  {
    FirstSuccess(PostTries(outcomes), AttemptBudget(retries)).Some?
  }

  /** The lines `post_to_x` logs. */
  function PostLog(outcomes: seq<PostOutcome>, retries: int): seq<string>
    requires AttemptBudget(retries) <= |outcomes|
  {
    var tries, n := PostTries(outcomes), AttemptBudget(retries);
    var k := Failures(tries, n);
    FailureLines(PostFailure, tries, k, n)
      + if k < n then ["Tweet posted: " + tries[k].value] else [PostGaveUp]
  }

  /** `post_to_x(text, retries)`. `sent` lists the texts submitted, one per
      attempt; `log` the lines written; `pauses` the sleeps taken, in seconds. */
  method PostToX(text: string, outcomes: seq<PostOutcome>, retries: int)
      returns (ok: bool, ghost sent: seq<string>, ghost log: seq<string>, ghost pauses: seq<nat>)
    requires AttemptBudget(retries) <= |outcomes|
    ensures var tries, n := PostTries(outcomes), AttemptBudget(retries);
              sent == seq(AttemptsMade(tries, n), _ => text)
              && pauses == Pauses(Failures(tries, n), n)
    ensures ok == PostSucceeds(outcomes, retries)
    ensures log == PostLog(outcomes, retries)
  {
    ghost var tries := PostTries(outcomes);
    ghost var n := AttemptBudget(retries);
    sent, log, pauses := [], [], [];
    var attempt := 0;
    while attempt < retries
      invariant 0 <= attempt <= n
      invariant forall a :: 0 <= a < attempt ==> tries[a].Failed?
      invariant sent == seq(attempt, _ => text)
      invariant log == FailureLines(PostFailure, tries, attempt, n)
      invariant pauses == Pauses(attempt, n)
    {
      sent := sent + [text];
      match outcomes[attempt] {
        case Posted(id) =>
          FailuresIs(tries, n, attempt);
          log := log + ["Tweet posted: " + id];
          return true, sent, log, pauses;
        case PostError(error) =>
          FailureLinesStep(PostFailure, tries, attempt, n);
          PausesStep(attempt, n);
          log := log + [AttemptLine(PostFailure, attempt, n, error)];
          if attempt < retries - 1 {
            pauses := pauses + [5 * (attempt + 1)];
          }
      }
      attempt := attempt + 1;
    }
    FailuresIs(tries, n, n);
    log := log + [PostGaveUp];
    ok := false;
  }

  /** `post_to_x` succeeds exactly when one of its first `retries` calls goes
      through; when it fails it has logged one line per call and a final one. */
  lemma PostOutcomes(outcomes: seq<PostOutcome>, retries: int)
    requires AttemptBudget(retries) <= |outcomes|
    ensures PostSucceeds(outcomes, retries) <==>
              exists a :: 0 <= a < AttemptBudget(retries) && outcomes[a].Posted?
    ensures !PostSucceeds(outcomes, retries) ==>
              var log := PostLog(outcomes, retries);
              |log| == AttemptBudget(retries) + 1 && log[|log| - 1] == PostGaveUp
  {
    var tries, n := PostTries(outcomes), AttemptBudget(retries);
    var k := Failures(tries, n);
    if k < n {
      assert outcomes[k].Posted?;
    }
  }
}
