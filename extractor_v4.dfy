/**
 * `Data_extractor_V4`: the earlier version. Each attempt of a URL task opens
 * its own browser session before the `try` block and quits it in `finally`;
 * any exception while dismissing the cookie-consent button is logged and
 * ignored, and no wait for the page body is made. URL normalisation, text
 * joining and sanitisation, link extraction, merging and zipping are the same
 * as in V5 and are modelled once, in their own modules.
 */
module ExtractorV4 {

  import opened Common
  import opened Urls
  import opened Text
  import opened Retry
  import opened Batch

  /** A constructed extractor: its normalised URL list and whether it holds a driver of its own. */
  datatype Extractor = Extractor(urls: seq<string>, ownsDriver: bool)

  /**
   * `Web2PDF(urls)`: normalise, then set up a driver that the URL tasks never
   * use; `None` when `_setup_driver` raises, which the constructor does not catch.
   */
  function NewWeb2Pdf(raw: seq<string>, driverStarts: bool): (e: Option<Extractor>)
    ensures e.Some? <==> driverStarts
    ensures e.Some? ==> e.value.ownsDriver && e.value.urls == NormalizeAll(raw) && |e.value.urls| == |raw|
  {
    if driverStarts then Some(Extractor(NormalizeAll(raw), true)) else None
  }

  /** `Web2Text(urls=None)`: no driver; `if urls:` sends `None` and `[]` to an empty list. */
  function NewWeb2Text(raw: Option<seq<string>>): (e: Extractor)
    ensures !e.ownsDriver
    ensures (raw.None? || raw.value == []) ==> e.urls == []
    ensures raw.Some? ==> e.urls == NormalizeAll(raw.value) && |e.urls| == |raw.value|
  {
    Extractor(NormalizeOptional(raw), false)
  }

  /** `All2PDF(urls)`: normalise only; in this version the constructor starts no driver and cannot fail. */
  function NewAll2Pdf(raw: seq<string>): (e: Extractor)
    ensures !e.ownsDriver
    ensures e.urls == NormalizeAll(raw) && |e.urls| == |raw|
  {
    Extractor(NormalizeAll(raw), false)
  }

  /**
   * One attempt of `save_page_as_pdf`: whether `_setup_driver` returned,
   * whether `driver.get` returned, the consent step, and the file the printed
   * PDF was written to (`None` when printing, decoding or writing raised).
   */
  datatype PageAttempt = PageAttempt(driverStarts: bool, loaded: bool, consent: Consent, printed: Option<Path>)

  /** A driver that fails to start raises outside the `try` and leaves the method. */
  function PageOutcome(a: PageAttempt): (o: Outcome)
    ensures o.Escaped? <==> !a.driverStarts
    ensures o.Done? <==> a.driverStarts && a.loaded && a.printed.Some?
    ensures o.Done? ==> o.result == a.printed
  {
    if !a.driverStarts then Escaped
    else if a.loaded && a.printed.Some? then Done(a.printed)
    else Failed
  }

  /**
   * What the caller of `save_page_as_pdf` receives: it raises only when the
   * driver of one of the attempts failed to start.
   */
  function PageTask(attempts: seq<PageAttempt>): (t: TaskResult)
    ensures t.Raised? ==> exists i :: 0 <= i < |attempts| && !attempts[i].driverStarts
  {
    var run := Retry.Retry(Outcomes(attempts, PageOutcome));
    assert run.result.Raised? ==> !attempts[run.tries].driverStarts;
    run.result
  }

  /** `save_page_as_pdf(url, base_filename)` with one fresh driver per attempt. */
  method SavePageAsPdf(attempts: seq<PageAttempt>)
    returns (result: TaskResult, tries: nat, created: nat, closed: nat)
    requires |attempts| == RetryAttempts
    ensures RetryRun(result, tries) == Retry.Retry(Outcomes(attempts, PageOutcome))
    ensures result == PageTask(attempts)
    ensures created == closed == tries <= RetryAttempts
  {
    var cooldowns;
    result, tries, created, closed, cooldowns := RunAttempts(Outcomes(attempts, PageOutcome), true);
  }

  /** The consent step has no influence on how an attempt ends. */
  lemma ConsentIgnored(a: PageAttempt, c: Consent)
    ensures PageOutcome(a.(consent := c)) == PageOutcome(a)
  {
  }

  /**
   * A driver that fails to start is not retried: after `k` failed attempts, a
   * failing `_setup_driver` makes the task raise, with `k` tries made and
   * every one of their drivers quit.
   */
  lemma SetupFailureRaises(attempts: seq<PageAttempt>, k: nat)
    requires |attempts| == RetryAttempts && k < RetryAttempts
    requires forall j :: 0 <= j < k ==> PageOutcome(attempts[j]).Failed?
    requires !attempts[k].driverStarts
    ensures Retry.Retry(Outcomes(attempts, PageOutcome)) == RetryRun(Raised, k)
  {
    var outcomes := Outcomes(attempts, PageOutcome);
    assert AllFailed(outcomes[..k]) by {
      assert forall j :: 0 <= j < k ==> outcomes[..k][j] == outcomes[j];
    }
    RetryAfterFailures(outcomes, k);
    assert outcomes[k..][0] == Escaped;
  }

  /** `None` comes back exactly when every attempt failed. */
  lemma PageTaskNoneIff(attempts: seq<PageAttempt>)
    ensures PageTask(attempts) == Returned(None) <==>
            forall i :: 0 <= i < |attempts| ==> PageOutcome(attempts[i]).Failed?
  {
    var outcomes := Outcomes(attempts, PageOutcome);
    ReturnsNoneIff(outcomes);
    assert AllFailed(outcomes) <==> forall i :: 0 <= i < |attempts| ==> PageOutcome(attempts[i]).Failed?;
  }

  /**
   * One attempt of `extract_text_from_website`: driver start, `driver.get`,
   * the consent step, the texts of the matched tags and the file FPDF wrote.
   */
  datatype TextAttempt = TextAttempt(driverStarts: bool, loaded: bool, consent: Consent, tags: seq<string>, written: Option<Path>)

  function TextOutcome(a: TextAttempt): (o: Outcome)
    ensures o.Escaped? <==> !a.driverStarts
    ensures o.Done? <==> a.driverStarts && a.loaded
    ensures o.Done? ==> o.result == a.written
  {
    if !a.driverStarts then Escaped
    else if a.loaded then
      var saved := SaveTextToTempPdf(Join(a.tags), a.written);
      Done(if saved.Some? then Some(saved.value.path) else None)
    else Failed
  }

  /** What the caller of `extract_text_from_website` receives; it too raises only on a driver that failed to start. */
  function TextTask(attempts: seq<TextAttempt>): (t: TaskResult)
    ensures t.Raised? ==> exists i :: 0 <= i < |attempts| && !attempts[i].driverStarts
  {
    var run := Retry.Retry(Outcomes(attempts, TextOutcome));
    assert run.result.Raised? ==> !attempts[run.tries].driverStarts;
    run.result
  }

  /** `extract_text_from_website(url, base_filename)` with one fresh driver per attempt. */
  method ExtractTextFromWebsite(attempts: seq<TextAttempt>)
    returns (result: TaskResult, tries: nat, created: nat, closed: nat)
    requires |attempts| == RetryAttempts
    ensures RetryRun(result, tries) == Retry.Retry(Outcomes(attempts, TextOutcome))
    ensures result == TextTask(attempts)
    ensures created == closed == tries <= RetryAttempts
  {
    var cooldowns;
    result, tries, created, closed, cooldowns := RunAttempts(Outcomes(attempts, TextOutcome), true);
  }

  /** The consent step has no influence on a text attempt either. */
  lemma TextConsentIgnored(a: TextAttempt, c: Consent)
    ensures TextOutcome(a.(consent := c)) == TextOutcome(a)
  {
  }

  /**
   * `Web2PDF.run`, `All2PDF.run` and `save_all_linked_pages_as_pdfs`: a task
   * that raised (its driver would not start) is logged by the collecting loop
   * and contributes nothing.
   */
  method SavePagesAsPdfs(attempts: seq<seq<PageAttempt>>, order: seq<nat>) returns (paths: seq<Path>)
    requires EachHasAllAttempts(attempts)
    requires IsPermutation(order, |attempts|)
    ensures paths == Kept(InOrder(Results(attempts, PageTask), order))
    ensures multiset(paths) == multiset(Kept(Results(attempts, PageTask)))
    ensures |paths| <= |attempts|
  {
    var results: seq<TaskResult> := [];
    for i := 0 to |attempts|
      invariant results == Results(attempts[..i], PageTask)
    {
      var result, tries, created, closed := SavePageAsPdf(attempts[i]);
      results := results + [result];
    }
    assert attempts[..|attempts|] == attempts;
    paths := CollectCompleted(results, order);
  }

  /** `Web2Text.run`. */
  method ExtractTexts(attempts: seq<seq<TextAttempt>>, order: seq<nat>) returns (paths: seq<Path>)
    requires EachHasAllAttempts(attempts)
    requires IsPermutation(order, |attempts|)
    ensures paths == Kept(InOrder(Results(attempts, TextTask), order))
    ensures multiset(paths) == multiset(Kept(Results(attempts, TextTask)))
    ensures |paths| <= |attempts|
  {
    var results: seq<TaskResult> := [];
    for i := 0 to |attempts|
      invariant results == Results(attempts[..i], TextTask)
    {
      var result, tries, created, closed := ExtractTextFromWebsite(attempts[i]);
      results := results + [result];
    }
    assert attempts[..|attempts|] == attempts;
    paths := CollectCompleted(results, order);
  }
}
