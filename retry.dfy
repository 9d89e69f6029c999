/**
 * The bounded retry loop shared by `save_page_as_pdf` and
 * `extract_text_from_website`: at most three passes, each ending at its first
 * `return` or at a caught exception, and `None` after three failed passes.
 */
module Retry {

  import opened Common

  /** `retry_attempts = 3`. */
  const RetryAttempts: nat := 3

  /** Every task of a batch comes with what each of its attempts runs into. */
  predicate EachHasAllAttempts<T>(attempts: seq<seq<T>>) {
    forall i :: 0 <= i < |attempts| ==> |attempts[i]| == RetryAttempts
  }

  /** What the cookie-consent step of one attempt ran into. */
  datatype Consent =
    | Dismissed    // an "Accept" button was found and clicked
    | TimedOut     // the wait for the button raised TimeoutException
    | OtherError   // the wait or the click raised some other exception

  /** How one pass through the body of the retry loop ends. */
  datatype Outcome =
    | Done(result: Option<Path>)  // the try block reached its `return`
    | Failed                      // an exception was caught by an `except` clause
    | Escaped                     // an exception raised outside the try block left the method

  /** What the caller of a retry-wrapped operation sees: a value, or an exception. */
  datatype TaskResult = Returned(value: Option<Path>) | Raised

  /** How each pass ends, given what each attempt runs into and how one pass handles it. */
  function Outcomes<A>(attempts: seq<A>, outcome: A -> Outcome): (r: seq<Outcome>)
    ensures |r| == |attempts|
    ensures forall i :: 0 <= i < |attempts| ==> r[i] == outcome(attempts[i])
  {
    seq(|attempts|, i requires 0 <= i < |attempts| => outcome(attempts[i]))
  }

  /** What each task of a batch gives its caller, in submission order. */
  function Results<A>(attempts: seq<seq<A>>, task: seq<A> -> TaskResult): (r: seq<TaskResult>)
    ensures |r| == |attempts|
    ensures forall i :: 0 <= i < |attempts| ==> r[i] == task(attempts[i])
  {
    seq(|attempts|, i requires 0 <= i < |attempts| => task(attempts[i]))
  }

  /** The result of the loop and how many passes entered the try block. */
  datatype RetryRun = RetryRun(result: TaskResult, tries: nat)

  /** The loop over the per-attempt outcomes, as a specification. */
  function Retry(outcomes: seq<Outcome>): (run: RetryRun)
    ensures run.tries <= |outcomes|
    ensures run.result.Raised? ==> run.tries < |outcomes| && outcomes[run.tries].Escaped?
    ensures run.result.Returned? && run.tries < |outcomes| ==>
              0 < run.tries && outcomes[run.tries - 1] == Done(run.result.value)
  {
    if outcomes == [] then RetryRun(Returned(None), 0)
    else match outcomes[0]
      case Done(v) => RetryRun(Returned(v), 1)
      case Escaped => RetryRun(Raised, 0)
      case Failed =>
        var rest := Retry(outcomes[1..]);
        RetryRun(rest.result, rest.tries + 1)
  }

  predicate AllFailed(outcomes: seq<Outcome>) {
    forall j :: 0 <= j < |outcomes| ==> outcomes[j].Failed?
  }

  /** Index of the first outcome that ends the loop, or `|outcomes|` when every pass failed. */
  function FirstDecisive(outcomes: seq<Outcome>): (k: nat)
    ensures k <= |outcomes|
    ensures AllFailed(outcomes[..k])
    ensures k < |outcomes| ==> !outcomes[k].Failed?
  {
    if outcomes == [] || !outcomes[0].Failed? then 0
    else
      var k := 1 + FirstDecisive(outcomes[1..]);
      assert outcomes[..k] == [outcomes[0]] + outcomes[1..][..k - 1];
      k
  }

  /** Skipping a run of failed passes only adds them to the count. */
  lemma {:induction false} RetryAfterFailures(outcomes: seq<Outcome>, k: nat)
    requires k <= |outcomes| && AllFailed(outcomes[..k])
    ensures Retry(outcomes).result == Retry(outcomes[k..]).result
    ensures Retry(outcomes).tries == k + Retry(outcomes[k..]).tries
  {
    if k > 0 {
      assert outcomes[0] == outcomes[..k][0];
      assert AllFailed(outcomes[1..][..k - 1]) by {
        assert outcomes[1..][..k - 1] == outcomes[..k][1..];
      }
      RetryAfterFailures(outcomes[1..], k - 1);
      assert outcomes[1..][k - 1..] == outcomes[k..];
    }
  }

  /**
   * The loop ends at the first pass that does not fail: it returns what that
   * pass returned (or raises if it escaped), with one try per pass up to it;
   * when every pass fails it returns `None` after trying them all.
   */
  lemma StopsAtFirstDecisive(outcomes: seq<Outcome>)
    ensures var k := FirstDecisive(outcomes);
            var run := Retry(outcomes);
            && (k == |outcomes| ==> run == RetryRun(Returned(None), |outcomes|))
            && (k < |outcomes| && outcomes[k].Done? ==> run == RetryRun(Returned(outcomes[k].result), k + 1))
            && (k < |outcomes| && outcomes[k].Escaped? ==> run == RetryRun(Raised, k))
  {
    var k := FirstDecisive(outcomes);
    RetryAfterFailures(outcomes, k);
    assert outcomes[k..] == [] || outcomes[k..][0] == outcomes[k];
  }

  /** Nothing after the first decisive pass is attempted: later outcomes do not matter. */
  lemma LaterAttemptsIgnored(outcomes: seq<Outcome>, later: seq<Outcome>)
    requires FirstDecisive(outcomes) < |outcomes|
    ensures var k := FirstDecisive(outcomes);
            Retry(outcomes[..k + 1] + later) == Retry(outcomes)
  {
    var k := FirstDecisive(outcomes);
    var other := outcomes[..k + 1] + later;
    assert other[..k] == outcomes[..k];
    assert other[k] == outcomes[k];
    assert FirstDecisive(other) == k by {
      FirstDecisiveIs(other, k);
    }
    StopsAtFirstDecisive(outcomes);
    StopsAtFirstDecisive(other);
  }

  lemma {:induction false} FirstDecisiveIs(outcomes: seq<Outcome>, k: nat)
    requires k < |outcomes| && AllFailed(outcomes[..k]) && !outcomes[k].Failed?
    ensures FirstDecisive(outcomes) == k
  {
    if k > 0 {
      assert outcomes[0] == outcomes[..k][0];
      assert outcomes[1..][..k - 1] == outcomes[..k][1..];
      FirstDecisiveIs(outcomes[1..], k - 1);
    }
  }

  /** Returned(Some(p)) exactly when some pass returned `p` and every pass before it failed. */
  lemma ReturnsPathIff(outcomes: seq<Outcome>, p: Path)
    ensures Retry(outcomes).result == Returned(Some(p)) <==>
            exists i :: 0 <= i < |outcomes| && outcomes[i] == Done(Some(p)) && AllFailed(outcomes[..i])
  {
    StopsAtFirstDecisive(outcomes);
    var k := FirstDecisive(outcomes);
    if i :| 0 <= i < |outcomes| && outcomes[i] == Done(Some(p)) && AllFailed(outcomes[..i]) {
      FirstDecisiveIs(outcomes, i);
    }
    if Retry(outcomes).result == Returned(Some(p)) {
      assert k < |outcomes| && outcomes[k] == Done(Some(p)) && AllFailed(outcomes[..k]);
    }
  }

  /** Without an escaping pass the loop always returns normally. */
  lemma {:induction false} NoEscapeNoRaise(outcomes: seq<Outcome>)
    requires forall j :: 0 <= j < |outcomes| ==> !outcomes[j].Escaped?
    ensures Retry(outcomes).result.Returned?
  {
    if outcomes != [] && outcomes[0].Failed? {
      NoEscapeNoRaise(outcomes[1..]);
    }
  }

  /**
   * When no pass can return `None` itself, the loop returns `None` exactly
   * when every pass failed.
   */
  lemma ReturnsNoneIff(outcomes: seq<Outcome>)
    requires forall j :: 0 <= j < |outcomes| ==> outcomes[j] != Done(None)
    ensures Retry(outcomes).result == Returned(None) <==> AllFailed(outcomes)
  {
    StopsAtFirstDecisive(outcomes);
    var k := FirstDecisive(outcomes);
    if k == |outcomes| {
      assert outcomes[..k] == outcomes;
    }
  }

  /**
   * The `for attempt in range(retry_attempts)` loop: a pass that escapes ends
   * the method before its `try` is entered; otherwise the `finally` clause
   * runs once for the pass (one cooldown, and with `freshDriver` one
   * `driver.quit()` for the driver opened at its start) whether it returned
   * or failed.
   */
  method RunAttempts(outcomes: seq<Outcome>, freshDriver: bool)
    returns (result: TaskResult, tries: nat, created: nat, closed: nat, cooldowns: nat)
    requires |outcomes| == RetryAttempts
    ensures RetryRun(result, tries) == Retry(outcomes)
    ensures tries <= RetryAttempts
    ensures cooldowns == tries
    ensures created == closed == (if freshDriver then tries else 0)
  {
    tries, created, closed, cooldowns := 0, 0, 0, 0;
    var attempt := 0;
    while attempt < RetryAttempts
      invariant attempt <= RetryAttempts
      invariant AllFailed(outcomes[..attempt])
      invariant tries == cooldowns == attempt
      invariant created == closed == (if freshDriver then attempt else 0)
    {
      var outcome := outcomes[attempt];
      if outcome.Escaped? {
        RetryAfterFailures(outcomes, attempt);
        return Raised, tries, created, closed, cooldowns;
      }
      if freshDriver {
        created := created + 1;
      }
      tries := tries + 1;
      // finally:
      if freshDriver {
        closed := closed + 1;
      }
      cooldowns := cooldowns + 1;
      if outcome.Done? {
        RetryAfterFailures(outcomes, attempt);
        return Returned(outcome.result), tries, created, closed, cooldowns;
      }
      assert outcomes[..attempt + 1] == outcomes[..attempt] + [outcome];
      attempt := attempt + 1;
    }
    RetryAfterFailures(outcomes, RetryAttempts);
    return Returned(None), tries, created, closed, cooldowns;
  }
}
