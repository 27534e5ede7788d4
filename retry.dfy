/** The retry policy shared by `fetch_tech_news` and `post_to_x`: up to
    `retries` attempts, stopping at the first success, one log line per failed
    attempt, a pause of `5 * (a + 1)` seconds after failed attempt `a` unless it
    was the last one, and a final log line when every attempt failed. */
module Retry {
  import opened Wrappers
  import opened Strings

  /** What one attempt came to: a value, or the text of the exception it raised. */
  datatype Attempt<T> = Succeeded(value: T) | Failed(reason: string)

  /** `range(retries)` has no element when `retries <= 0`. */
  function AttemptBudget(retries: int): nat
  {
    if retries > 0 then retries else 0
  }

  /** The number of failed attempts before the first success among the first
      `n`, or `n` when all of them fail. */
  function Failures<T>(tries: seq<Attempt<T>>, n: nat): (k: nat)
    requires n <= |tries|
    ensures k <= n
    ensures forall a :: 0 <= a < k ==> tries[a].Failed?
    ensures k < n ==> tries[k].Succeeded?
  {
    if n == 0 || tries[0].Succeeded? then 0 else 1 + Failures(tries[1..], n - 1)
  }

  lemma {:induction false} FailuresIs<T>(tries: seq<Attempt<T>>, n: nat, k: nat)
    requires k <= n <= |tries|
    requires forall a :: 0 <= a < k ==> tries[a].Failed?
    requires k < n ==> tries[k].Succeeded?
    ensures Failures(tries, n) == k
  {
    if k > 0 {
      FailuresIs(tries[1..], n - 1, k - 1);
    }
  }

  /** How many attempts are made. */
  function AttemptsMade<T>(tries: seq<Attempt<T>>, n: nat): nat
    requires n <= |tries|
  {
    var k := Failures(tries, n);
    if k < n then k + 1 else n
  }

  /** The value of the first successful attempt, if there is one. */
  function FirstSuccess<T>(tries: seq<Attempt<T>>, n: nat): Option<T>
    requires n <= |tries|
  {
    var k := Failures(tries, n);
    if k < n then Some(tries[k].value) else None
  }

  /** The log line for failed attempt `a`, as `f"{what} (attempt {a+1}/{retries}): {str(e)}"`. */
  function AttemptLine(what: string, a: nat, retries: nat, reason: string): string
  {
    what + " (attempt " + NatToDecimal(a + 1) + "/" + NatToDecimal(retries) + "): " + reason
  }

  /** The log lines of the first `k` attempts, all of which failed. */
  function FailureLines<T>(what: string, tries: seq<Attempt<T>>, k: nat, retries: nat): (lines: seq<string>)
    requires k <= |tries|
    requires forall a :: 0 <= a < k ==> tries[a].Failed?
    ensures |lines| == k
  {
    seq(k, a requires 0 <= a < k => AttemptLine(what, a, retries, tries[a].reason))
  }

  /** The pauses, in seconds, taken while `k` attempts out of a budget of `n` failed. */
  function Pauses(k: nat, n: nat): (ps: seq<nat>)
  {
    var m := if k < n then k else if n > 0 then n - 1 else 0;
    seq(m, a requires 0 <= a < m => 5 * (a + 1))
  }

  /** One more failed attempt adds its own log line. */
  lemma FailureLinesStep<T>(what: string, tries: seq<Attempt<T>>, a: nat, retries: nat)
    requires a < |tries|
    requires forall b :: 0 <= b <= a ==> tries[b].Failed?
    ensures FailureLines(what, tries, a + 1, retries)
              == FailureLines(what, tries, a, retries) + [AttemptLine(what, a, retries, tries[a].reason)]
  {
  }

  /** One more failed attempt adds a pause unless it was the last one allowed. */
  lemma PausesStep(a: nat, n: nat)
    requires a < n
    ensures Pauses(a + 1, n) == Pauses(a, n) + if a + 1 < n then [5 * (a + 1)] else []
  {
  }

  function Sum(ps: seq<nat>): nat
  {
    if ps == [] then 0 else Sum(ps[..|ps| - 1]) + ps[|ps| - 1]
  }

  /** At most `n` attempts are made; the loop stops at the first success and
      gives up (with no value) exactly when all `n` attempts fail; there is one
      pause between consecutive attempts and none after the last. */
  lemma RetryPolicy<T>(tries: seq<Attempt<T>>, n: nat)
    requires n <= |tries|
    ensures var made, k := AttemptsMade(tries, n), Failures(tries, n);
              made <= n
              && (FirstSuccess(tries, n) == None <==> forall a :: 0 <= a < n ==> tries[a].Failed?)
              && (FirstSuccess(tries, n).Some? ==> tries[made - 1] == Succeeded(FirstSuccess(tries, n).value))
              && (n > 0 ==> |Pauses(k, n)| == made - 1)
  {
    var k := Failures(tries, n);
    if FirstSuccess(tries, n) == None {
      assert k == n;
    } else {
      assert k < n && tries[k].Succeeded?;
    }
  }

  /** Pause `a` lasts `5 * (a + 1)` seconds, so `m` pauses take `5 * m * (m + 1) / 2`
      seconds in all: 15 seconds when three attempts all fail. */
  lemma {:induction false} PausesTotal(k: nat, n: nat)
    ensures var ps := Pauses(k, n);
              (forall a :: 0 <= a < |ps| ==> ps[a] == 5 * (a + 1))
              && 2 * Sum(ps) == 5 * |ps| * (|ps| + 1)
  {
    var ps := Pauses(k, n);
    if ps != [] {
      var m := |ps|;
      PausesTotal(m - 1, m);
      assert Pauses(m - 1, m) == ps[..m - 1];
    }
  }
}
