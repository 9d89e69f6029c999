/**
 * `Data_extractor_V5`: `Web2PDF`, `Web2Text` and `All2PDF` share one browser
 * session opened in the constructor. Each URL task retries up to three times;
 * a `TimeoutException` while waiting for the cookie-consent button is logged
 * and the attempt goes on, every other exception in an attempt is caught and
 * the next attempt starts. What the browser does in each attempt is an input.
 */
module ExtractorV5 {

  import opened Common
  import opened Urls
  import opened Text
  import opened Retry
  import opened Batch
  import opened Links

  /** A constructed extractor: its normalised URL list (the driver is not modelled further). */
  datatype Extractor = Extractor(urls: seq<string>)

  /**
   * `Web2PDF(urls)` and `All2PDF(urls)`: normalise, then set up the driver;
   * `None` when `_setup_driver` raises, which the constructor does not catch.
   */
  function New(raw: seq<string>, driverStarts: bool): (e: Option<Extractor>)
    ensures e.Some? <==> driverStarts
    ensures e.Some? ==> |e.value.urls| == |raw| && e.value.urls == NormalizeAll(raw)
  {
    if driverStarts then Some(Extractor(NormalizeAll(raw))) else None
  }

  /** `Web2Text(urls=None)`: a falsy list gives no URLs. */
  function NewText(raw: Option<seq<string>>, driverStarts: bool): (e: Option<Extractor>)
    ensures e.Some? <==> driverStarts
    ensures e.Some? && (raw.None? || raw.value == []) ==> e.value.urls == []
    ensures e.Some? && raw.Some? ==> e.value.urls == NormalizeAll(raw.value)
  {
    if driverStarts then Some(Extractor(NormalizeOptional(raw))) else None
  }

  // ---------------------------------------------------------------------------
  // save_page_as_pdf

  /**
   * What one attempt of `save_page_as_pdf` runs into: whether `driver.get`
   * returned, the consent step, whether the `body` became visible, and the
   * temporary file the printed PDF was written to (`None` when printing,
   * decoding or writing raised).
   */
  datatype PageAttempt = PageAttempt(loaded: bool, consent: Consent, bodyVisible: bool, printed: Option<Path>)

  /** How the try block of one attempt ends. */
  function PageOutcome(a: PageAttempt): (o: Outcome)
    ensures !o.Escaped? && o != Done(None)
    ensures o.Done? <==> a.loaded && a.consent != OtherError && a.bodyVisible && a.printed.Some?
    ensures o.Done? ==> o.result == a.printed
  {
    if a.loaded && a.consent != OtherError && a.bodyVisible && a.printed.Some? then Done(a.printed) else Failed
  }

  /**
   * What the caller of `save_page_as_pdf` receives. Every exception inside
   * an attempt is caught, so the method never raises.
   */
  function PageTask(attempts: seq<PageAttempt>): (t: TaskResult)
    ensures t.Returned?
  {
    NoEscapeNoRaise(Outcomes(attempts, PageOutcome));
    Retry.Retry(Outcomes(attempts, PageOutcome)).result
  }

  /** `save_page_as_pdf(url, base_filename)`, given what the browser does in each attempt. */
  method SavePageAsPdf(attempts: seq<PageAttempt>) returns (path: Option<Path>, tries: nat, cooldowns: nat)
    requires |attempts| == RetryAttempts
    ensures Returned(path) == PageTask(attempts)
    ensures RetryRun(Returned(path), tries) == Retry.Retry(Outcomes(attempts, PageOutcome))
    ensures cooldowns == tries <= RetryAttempts
  {
    var result, created, closed;
    result, tries, created, closed, cooldowns := RunAttempts(Outcomes(attempts, PageOutcome), false);
    path := result.value;
  }

  /** `None` is returned exactly when every attempt failed. */
  lemma PageTaskNoneIff(attempts: seq<PageAttempt>)
    ensures PageTask(attempts) == Returned(None) <==>
            forall i :: 0 <= i < |attempts| ==> PageOutcome(attempts[i]).Failed?
  {
    var outcomes := Outcomes(attempts, PageOutcome);
    ReturnsNoneIff(outcomes);
    assert AllFailed(outcomes) <==> forall i :: 0 <= i < |attempts| ==> PageOutcome(attempts[i]).Failed?;
  }

  /** A path is returned exactly when it was printed by an attempt that followed nothing but failures. */
  lemma PageTaskPathIff(attempts: seq<PageAttempt>, p: Path)
    ensures PageTask(attempts) == Returned(Some(p)) <==>
            exists i :: 0 <= i < |attempts| && PageOutcome(attempts[i]) == Done(Some(p)) &&
                        forall j :: 0 <= j < i ==> PageOutcome(attempts[j]).Failed?
  {
    var outcomes := Outcomes(attempts, PageOutcome);
    ReturnsPathIff(outcomes, p);
    forall i | 0 <= i < |attempts|
      ensures AllFailed(outcomes[..i]) <==> forall j :: 0 <= j < i ==> PageOutcome(attempts[j]).Failed?
    {
      assert forall j :: 0 <= j < i ==> outcomes[..i][j] == PageOutcome(attempts[j]);
    }
  }

  /**
   * A consent wait that times out is only logged: the attempt ends as if the
   * button had been clicked. Any other exception there fails the attempt.
   */
  lemma ConsentTimeoutIsNotAFailure(a: PageAttempt)
    ensures PageOutcome(a.(consent := TimedOut)) == PageOutcome(a.(consent := Dismissed))
    ensures PageOutcome(a.(consent := OtherError)) == Failed
  {
  }

  // ---------------------------------------------------------------------------
  // extract_text_from_website

  /**
   * What one attempt of `extract_text_from_website` runs into: as for pages,
   * then the `get_text(strip=True)` of every matched tag in document order,
   * and the file FPDF wrote (`None` when `save_text_to_temp_pdf` caught an
   * exception and returned `None`).
   */
  datatype TextAttempt = TextAttempt(loaded: bool, consent: Consent, bodyVisible: bool, tags: seq<string>, written: Option<Path>)

  /** `"\n\n".join(...)` over the tag texts. */
  function ExtractedText(a: TextAttempt): (t: string)
    ensures |t| == TotalLength(a.tags) + (if a.tags == [] then 0 else |Separator| * (|a.tags| - 1))
  {
    Join(a.tags)
  }

  /**
   * How the try block of one attempt ends. Reaching `save_text_to_temp_pdf`
   * ends the loop with whatever it returned, `None` included.
   */
  function TextOutcome(a: TextAttempt): (o: Outcome)
    ensures !o.Escaped?
    ensures o.Done? <==> a.loaded && a.consent != OtherError && a.bodyVisible
    ensures o.Done? ==> o.result == a.written
  {
    if a.loaded && a.consent != OtherError && a.bodyVisible then
      var saved := SaveTextToTempPdf(ExtractedText(a), a.written);
      Done(if saved.Some? then Some(saved.value.path) else None)
    else Failed
  }

  /**
   * What the caller of `extract_text_from_website` receives; as for pages,
   * every exception inside an attempt is caught.
   */
  function TextTask(attempts: seq<TextAttempt>): (t: TaskResult)
    ensures t.Returned?
  {
    NoEscapeNoRaise(Outcomes(attempts, TextOutcome));
    Retry.Retry(Outcomes(attempts, TextOutcome)).result
  }

  /** `extract_text_from_website(url, base_filename)`. */
  method ExtractTextFromWebsite(attempts: seq<TextAttempt>) returns (path: Option<Path>, tries: nat, cooldowns: nat)
    requires |attempts| == RetryAttempts
    ensures Returned(path) == TextTask(attempts)
    ensures RetryRun(Returned(path), tries) == Retry.Retry(Outcomes(attempts, TextOutcome))
    ensures cooldowns == tries <= RetryAttempts
  {
    var result, created, closed;
    result, tries, created, closed, cooldowns := RunAttempts(Outcomes(attempts, TextOutcome), false);
    path := result.value;
  }

  /**
   * A failed text save is not retried: if the first attempt reaches the save
   * and the save fails, the task returns `None` after one try, whatever the
   * later attempts would have done.
   */
  lemma TextSaveFailureEndsRetries(attempts: seq<TextAttempt>)
    requires |attempts| >= 1
    requires TextOutcome(attempts[0]).Done? && attempts[0].written.None?
    ensures Retry.Retry(Outcomes(attempts, TextOutcome)) == RetryRun(Returned(None), 1)
  {
  }

  /**
   * A returned text file holds the joined tag texts of the attempt that
   * produced it, with every character above U+00FF replaced by '?'.
   */
  lemma TextFileContents(a: TextAttempt, p: Path)
    requires TextOutcome(a) == Done(Some(p))
    ensures SaveTextToTempPdf(ExtractedText(a), a.written) == Some(TextPdf(p, Latin1Replace(Join(a.tags))))
  {
  }

  // ---------------------------------------------------------------------------
  // run and save_all_linked_pages_as_pdfs

  /**
   * `Web2PDF.run` / `All2PDF.run` over `urls`: one `save_page_as_pdf` task per
   * URL (`attempts[i]` is what the browser does for `urls[i]`), then the
   * results gathered in completion order `order`, keeping truthy paths.
   */
  method SavePagesAsPdfs(urls: seq<string>, attempts: seq<seq<PageAttempt>>, order: seq<nat>)
    returns (visited: seq<string>, paths: seq<Path>)
    requires |attempts| == |urls| && EachHasAllAttempts(attempts)
    requires IsPermutation(order, |urls|)
    ensures visited == urls
    ensures paths == Kept(InOrder(Results(attempts, PageTask), order))
    ensures multiset(paths) == multiset(Kept(Results(attempts, PageTask)))
    ensures |paths| <= |urls|
    ensures (forall i :: 0 <= i < |urls| ==> Succeeded(PageTask(attempts[i]))) ==> |paths| == |urls|
  {
    var results: seq<TaskResult> := [];
    visited := [];
    for i := 0 to |urls|
      invariant results == Results(attempts[..i], PageTask)
      invariant visited == urls[..i]
    {
      var path, tries, cooldowns := SavePageAsPdf(attempts[i]);
      results := results + [Returned(path)];
      visited := visited + [urls[i]];
      assert urls[..i + 1] == urls[..i] + [urls[i]];
    }
    assert attempts[..|urls|] == attempts;
    assert urls[..|urls|] == urls;
    paths := CollectCompleted(results, order);
  }

  /** The URIs of the link rows, in row order. */
  function LinkedUrls(rows: seq<LinkRow>): (r: seq<string>)
    ensures |r| == |rows| && forall i :: 0 <= i < |rows| ==> r[i] == rows[i].uri
  {
    seq(|rows|, i requires 0 <= i < |rows| => rows[i].uri)
  }

  /**
   * `save_all_linked_pages_as_pdfs(df_urls)`: one page task per row, on the
   * row's URI exactly as extracted (no normalisation).
   */
  method SaveAllLinkedPagesAsPdfs(rows: seq<LinkRow>, attempts: seq<seq<PageAttempt>>, order: seq<nat>)
    returns (visited: seq<string>, paths: seq<Path>)
    requires |attempts| == |rows| && EachHasAllAttempts(attempts)
    requires IsPermutation(order, |rows|)
    ensures |visited| == |rows| && forall i :: 0 <= i < |rows| ==> visited[i] == rows[i].uri
    ensures multiset(paths) == multiset(Kept(Results(attempts, PageTask)))
    ensures |paths| <= |rows|
  {
    visited, paths := SavePagesAsPdfs(LinkedUrls(rows), attempts, order);
  }

  /** `Web2Text.run`: one `extract_text_from_website` task per URL, gathered like the page runs. */
  method ExtractTexts(urls: seq<string>, attempts: seq<seq<TextAttempt>>, order: seq<nat>)
    returns (visited: seq<string>, paths: seq<Path>)
    requires |attempts| == |urls| && EachHasAllAttempts(attempts)
    requires IsPermutation(order, |urls|)
    ensures visited == urls
    ensures paths == Kept(InOrder(Results(attempts, TextTask), order))
    ensures multiset(paths) == multiset(Kept(Results(attempts, TextTask)))
    ensures |paths| <= |urls|
  {
    var results: seq<TaskResult> := [];
    visited := [];
    for i := 0 to |urls|
      invariant results == Results(attempts[..i], TextTask)
      invariant visited == urls[..i]
    {
      var path, tries, cooldowns := ExtractTextFromWebsite(attempts[i]);
      results := results + [Returned(path)];
      visited := visited + [urls[i]];
      assert urls[..i + 1] == urls[..i] + [urls[i]];
    }
    assert attempts[..|urls|] == attempts;
    assert urls[..|urls|] == urls;
    paths := CollectCompleted(results, order);
  }
}
