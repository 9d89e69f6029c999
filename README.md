# Web-to-PDF extractor: a Dafny model of its deterministic core

The system turns lists of web pages into PDF files: it renders each page in a
headless browser (or extracts its text and typesets it), merges the results,
extracts the outbound links of the merged document, captures the linked pages
too, and packs everything into a zip archive, behind four HTTP endpoints
(`/web2pdf`, `/web2text/`, `/all2pdf`, `/stop`).

Once the browser, the PDF libraries, the file system and the HTTP framework are
replaced by abstract inputs, what remains is modelled and proved here:

- `Urls` — the URL list built by the constructors of `Web2PDF`, `Web2Text` and
  `All2PDF`: each entry stripped (Python `str.strip()`, with Python's set of
  whitespace characters) and prefixed with `http://` unless the *unstripped*
  entry begins with the literal `http`.
- `Text` — the `"\n\n".join` of the extracted tag texts, and the Latin-1
  `encode(..., 'replace')`/`decode` round trip that turns every character above
  U+00FF into `?`; `save_text_to_temp_pdf` returning `None` on failure. Dafny
  `char` is a Unicode scalar value here, like a character of a Python `str`.
- `Retry` — the `for attempt in range(3)` loop shared by every retrying
  method, over an abstract sequence of per-attempt outcomes: a return, a caught
  exception, or an exception raised outside the `try` (which ends the method).
  `RunAttempts` counts tries, cooldowns and (V4) drivers created and quit.
- `Batch` — the `as_completed` collection loop of every `run` and of
  `save_all_linked_pages_as_pdfs`: results taken in an arbitrary completion
  order (a permutation of the submitted tasks), only truthy paths appended.
- `Links` — `extract_urls_from_pdf`: a document is `seq<seq<Link>>`, pages in
  index order, links in stored order, one `(page_num, uri)` row per link whose
  URI is truthy, page numbers 1-based. A link entry without a `uri` key (an
  internal jump) makes `link['uri']` raise `KeyError`, which fails the whole
  extraction and, in `/all2pdf`, the request.
- `Merge` — `merge_pdfs`: the pages of the inputs concatenated in list order; a
  missing input makes the merge fail as a whole.
- `Archive` — `create_zip_file`: each file written under its POSIX base name,
  in input order.
- `ExtractorV5`, `ExtractorV4` — the two versions of the extractor classes,
  with what the browser does in each attempt as input. V5 shares one driver
  opened by the constructor and only tolerates a `TimeoutException` in the
  consent step; V4 opens and quits one driver per attempt, swallows every
  consent exception, and opens the driver outside the `try`.
- `Server` — `main.py`: `delete_file`, the `stop_signal` event, and the
  response selection and deletion bookkeeping of `/web2pdf`, `/web2text/` and
  `/all2pdf`.

Points where the code behaves differently from what its comments or a first reading suggest:

- Merging an empty list: the code hands no input to `PdfMerger` and writes an
  empty document; it does not fail. `Merge.Merged` gives `Some([])`.
- Duplicate base names in the archive: `zipfile` keeps both members (it only
  warns). `Archive.Entries` keeps one entry per input, duplicates included.
- In V4 a browser that fails to start is not retried: `_setup_driver()` sits
  before the `try`, so its exception leaves `save_page_as_pdf` at once and the
  collecting loop drops that URL (`ExtractorV4.SetupFailureRaises`).
- In the text path a failed `save_text_to_temp_pdf` returns `None` from
  inside the `try`, which ends the retry loop: it is not retried
  (`ExtractorV5.TextSaveFailureEndsRetries`).
- `/all2pdf` fails with status 500 for any merged document holding an
  internal link, since such a link has no `uri` key and `link['uri']` raises
  (`Links.ExtractUrlsFromPdf`, `Server.Api.GenerateAllPdfs`).

## Model

| member | source | states |
|---|---|---|
| `Urls.Strip` | app/Data_extractor_V5.py:29 | the result is a contiguous middle part of the input, everything cut off is whitespace, and it neither begins nor ends with whitespace |
| `Urls.StripIdempotent` | app/Data_extractor_V5.py:29 | stripping twice is stripping once |
| `Urls.StripUnique` | app/Data_extractor_V5.py:29 | for any split into whitespace, a core without whitespace at its ends, and whitespace, the strip is exactly that core |
| `Urls.Normalize` | app/Data_extractor_V5.py:29 | every normalised entry begins with `http` and has no surrounding whitespace |
| `Urls.PrefixedIsFixed` | app/Data_extractor_V5.py:29 | `http://` in front of a stripped entry gives an entry that begins with `http` and has no surrounding whitespace |
| `Urls.NormalizeAll` | app/Data_extractor_V5.py:28-31 | same length and order as the input; entry i is `strip(u)` when the raw `u` begins with `http`, otherwise `"http://" + strip(u)` |
| `Urls.NormalizeOptional` | app/Data_extractor_V5.py:110-113 | `None` or an empty list gives `[]`; otherwise the entry-wise normalisation |
| `Urls.NormalizeIdempotent` | app/Data_extractor_V5.py:29 | normalising a normalised entry changes nothing |
| `Urls.NormalizeAllIdempotent` | app/Data_extractor_V5.py:206-209 | a second pass over a constructed URL list leaves it unchanged |
| `Urls.NormalizeWithScheme` | app/Data_extractor_V5.py:29 | an entry that begins with `http` keeps only its core, whatever whitespace trails it |
| `Urls.NormalizeWithoutScheme` | app/Data_extractor_V5.py:29 | an entry whose raw text does not begin with `http` becomes `http://` followed by its core |
| `Urls.LeadingBlankGetsPrefixed` | app/Data_extractor_V5.py:111 | the prefix test looks at the unstripped entry: a leading blank earns the prefix even before `http://...` |
| `UrlExamples.HttpsExample` | app/Data_extractor_V5.py:29 | `https://a` is left as it is |
| `UrlExamples.HttpbinExample` | app/Data_extractor_V5.py:111 | `httpbin.org` is left unprefixed, since the test is the bare literal `http` |
| `UrlExamples.LeadingBlankExample` | app/Data_extractor_V5.py:207 | ` http://a` becomes `http://http://a` |
| `Text.Join` | app/Data_extractor_V5.py:149 | the joined length is the total of the parts plus one two-character separator between each neighbouring pair; one part joins to itself |
| `Text.SplitJoin` | app/Data_extractor_V5.py:149 | splitting the joined text on the separator gives back exactly the tag texts, when none holds a newline |
| `Text.JoinSnoc` | app/Data_extractor_V5.py:149 | one more tag adds exactly one separator and that tag's text at the end |
| `Text.Latin1Replace` | app/Data_extractor_V5.py:170 | same length; characters with code at most 255 unchanged, every other one `?`; the result is all Latin-1 |
| `Text.Latin1ReplaceIdempotent` | app/Data_extractor_V5.py:170 | the replacement is idempotent |
| `Text.Latin1Fixed` | app/Data_extractor_V4.py:187 | a text is unchanged by the replacement exactly when Latin-1 can encode all of it |
| `Text.Latin1ReplaceJoin` | app/Data_extractor_V5.py:149-170 | replacing the joined text equals joining the replaced tag texts |
| `Text.SaveTextToTempPdf` | app/Data_extractor_V5.py:163-181 | a path comes back exactly when the writer produced one; the text written is the Latin-1 replacement of the input: of the input's length, all Latin-1, and the input itself when that was already Latin-1 |
| `Retry.Outcomes` | app/Data_extractor_V5.py:48 | one outcome per attempt, in attempt order, each the per-attempt handling of that attempt |
| `Retry.Retry` | app/Data_extractor_V5.py:46-88 | at most one try per attempt; a raise happens only at an attempt that escapes, right after the tries counted; a normal return before the last attempt is the value of the last attempt tried |
| `Retry.FirstDecisive` | app/Data_extractor_V5.py:48-80 | the index of the first attempt that does not fail: every attempt before it failed, and it is decisive unless it is the end |
| `Retry.Results` | app/Data_extractor_V5.py:95-100 | one result per submitted task, in submission order, each what that task gives its caller |
| `Retry.RetryAfterFailures` | app/Data_extractor_V5.py:48-86 | a run of failed attempts only adds to the try count and does not change the result |
| `Retry.StopsAtFirstDecisive` | app/Data_extractor_V5.py:46-88 | the loop ends at the first attempt that does not fail: its return value with that many tries, a raise if it escaped, or `None` after trying every attempt |
| `Retry.LaterAttemptsIgnored` | app/Data_extractor_V5.py:48-80 | nothing after the first decisive attempt is looked at |
| `Retry.ReturnsPathIff` | app/Data_extractor_V5.py:46-88 | path `p` is returned exactly when some attempt returned `p` and every attempt before it failed |
| `Retry.NoEscapeNoRaise` | app/Data_extractor_V5.py:48-88 | when no exception escapes an attempt, the method returns normally |
| `Retry.ReturnsNoneIff` | app/Data_extractor_V5.py:87-88 | when no attempt returns `None` itself, `None` comes back exactly when every attempt failed |
| `Retry.RunAttempts` | app/Data_extractor_V4.py:48-96 | the loop agrees with the specification; tries at most 3; one cooldown per try; with a fresh driver per attempt, drivers created = drivers quit = tries |
| `Batch.Kept` | app/Data_extractor_V5.py:99-100 | at most one path per result, and one per result when every task returned a truthy path |
| `Batch.KeptCount` | app/Data_extractor_V5.py:95-100 | each path is kept as often as a task returned it; the empty path never |
| `Batch.KeptRespectsMultiset` | app/Data_extractor_V5.py:95-100 | reordering the results only reorders the kept paths |
| `Batch.InOrderRespectsMultiset` | app/Data_extractor_V5.py:93-95 | two orders naming the same tasks equally often take the same results, up to reordering |
| `Batch.KeptPermutation` | app/Data_extractor_V5.py:93-104 | collecting in any completion order keeps a permutation of what submission order keeps |
| `Batch.CollectCompleted` | app/Data_extractor_V5.py:90-104 | the collected list is the kept paths in completion order, a permutation of the truthy per-task results, no longer than the task list and as long as it when every task succeeded |
| `Links.PageRows` | app/Data_extractor_V5.py:302-308 | a page gives at most one row per link, each tagged with the page's number and a non-empty URI |
| `Links.Rows` | app/Data_extractor_V5.py:300-308 | every row's page number lies in 1..number of pages |
| `Links.ExtractUrlsFromPdf` | app/Data_extractor_V5.py:296-310 | fails exactly when some link lacks the `uri` key; otherwise builds exactly the rows of the specification, page numbers in range, URIs truthy |
| `Links.PageUrls` | app/Data_extractor_V5.py:302-308 | the inner loop fails exactly when a link of the page lacks the `uri` key, and otherwise gives exactly the page's rows |
| `Links.RowsOrdered` | app/Data_extractor_V5.py:300-308 | rows come in non-decreasing page order and all have truthy URIs |
| `Links.PageRowsCount` | app/Data_extractor_V5.py:303-308 | on one page, a row occurs as often as a link with that truthy URI |
| `Links.RowsCount` | app/Data_extractor_V4.py:324-334 | no deduplication and nothing invented: row (n, u) occurs exactly as often as page n holds a link with truthy URI u |
| `Links.RowMembership` | app/Data_extractor_V5.py:300-308 | a row is present exactly when its page holds a link with that truthy URI |
| `Links.RowsOfConcat` | app/Data_extractor_V5.py:300-308 | the rows of two documents back to back are those of the first, then those of the second with page numbers shifted |
| `Links.ThreePageExample` | app/Data_extractor_V5.py:296-310 | pages [no links], [two URI links], [one link whose uri is `None`] give exactly two rows, both on page 2, in stored order |
| `Merge.Merged` | app/Data_extractor_V5.py:284-294 | a missing first or last input makes the merge fail |
| `Merge.MergedDefinedIff` | app/Data_extractor_V5.py:284-294 | the merge succeeds exactly when every input is a stored document |
| `Merge.MergePdfs` | app/Data_extractor_V4.py:306-316 | the append loop yields the specification's result, and fails exactly when an input is missing |
| `Merge.MergedSnoc` | app/Data_extractor_V5.py:288-289 | one more input appends its pages, or makes the merge fail |
| `Merge.MergedConcat` | app/Data_extractor_V5.py:288-290 | merging two lists back to back concatenates their merged pages |
| `Merge.MergedSingle` | app/Data_extractor_V5.py:284-294 | a single input merges to exactly its own pages |
| `Merge.MergedPlacesPages` | app/Data_extractor_V5.py:288-290 | page k of input i lands right after all pages of the inputs before it |
| `Merge.MergedRowsOfTwo` | app/main.py:132-135 | the links of a merge of two documents are the first's links, then the second's with page numbers counted from the start of the merge |
| `Archive.ComponentStart` | app/Data_extractor_V5.py:333 | the last component starts after the last `/` (or at 0), and holds no `/` |
| `Archive.Basename` | app/Data_extractor_V5.py:333 | the base name holds no `/`, is a suffix of the path, and is preceded by `/` unless it is the whole path |
| `Archive.BasenameOfPlain` | app/Data_extractor_V5.py:333 | a name without `/` is its own base name |
| `Archive.BasenameIdempotent` | app/Data_extractor_V5.py:333 | taking the base name twice changes nothing |
| `Archive.BasenameOfJoin` | app/Data_extractor_V4.py:361 | a file in any directory is archived under its own name |
| `Archive.Entries` | app/Data_extractor_V5.py:332-333 | one entry per input, in input order, named by the input's base name |
| `Archive.EntriesSnoc` | app/Data_extractor_V5.py:332-333 | writing one more file appends exactly one entry, named by that file's base name |
| `Archive.CreateZipFile` | app/Data_extractor_V5.py:328-336 | an archive comes back exactly when every input exists, and then its entries are the base names in input order |
| `Archive.EntriesAreFlat` | app/Data_extractor_V4.py:356-364 | every entry name is a `/`-free suffix of an input path |
| `ExtractorV5.New` | app/Data_extractor_V5.py:24-33 | the object exists exactly when its driver started; its URL list is the normalisation of the input, of the same length |
| `ExtractorV5.NewText` | app/Data_extractor_V5.py:106-115 | as above, and a falsy URL argument gives an empty list |
| `ExtractorV5.PageOutcome` | app/Data_extractor_V5.py:49-86 | an attempt never escapes and never returns `None`; it returns the printed file exactly when the page loaded, the consent step raised nothing but a timeout, the body became visible and printing succeeded |
| `ExtractorV5.SavePageAsPdf` | app/Data_extractor_V5.py:46-88 | the method's result and try count are the retry loop's over the attempt outcomes; one cooldown per try, at most 3 |
| `ExtractorV5.PageTask` | app/Data_extractor_V5.py:46-88 | every exception in an attempt is caught, so the method never raises |
| `ExtractorV5.PageTaskNoneIff` | app/Data_extractor_V5.py:87-88 | `None` is returned exactly when all attempts failed |
| `ExtractorV5.PageTaskPathIff` | app/Data_extractor_V5.py:48-80 | path p is returned exactly when some attempt printed p and all earlier attempts failed |
| `ExtractorV5.ConsentTimeoutIsNotAFailure` | app/Data_extractor_V5.py:54-60 | a consent `TimeoutException` ends the attempt as a clicked button would; any other consent exception fails it |
| `ExtractorV5.ExtractedText` | app/Data_extractor_V5.py:147-149 | the text has the tag texts' total length plus one separator between each neighbouring pair |
| `ExtractorV5.TextOutcome` | app/Data_extractor_V5.py:131-157 | a text attempt never escapes; it ends the loop exactly when page, consent and body steps passed, with whatever the save returned |
| `ExtractorV5.TextTask` | app/Data_extractor_V5.py:128-161 | every exception in a text attempt is caught, so the method never raises |
| `ExtractorV5.ExtractTextFromWebsite` | app/Data_extractor_V5.py:128-161 | the method's result and try count are the retry loop's over the text outcomes; one cooldown per try, at most 3 |
| `ExtractorV5.TextSaveFailureEndsRetries` | app/Data_extractor_V5.py:151-152 | a failed save in the first attempt returns `None` after one try, whatever later attempts would do |
| `ExtractorV5.TextFileContents` | app/Data_extractor_V5.py:149-176 | a returned text file holds the joined tag texts with every character above U+00FF replaced by `?` |
| `ExtractorV5.LinkedUrls` | app/Data_extractor_V5.py:316 | one URL per link row, its URI as extracted, in row order |
| `ExtractorV5.SavePagesAsPdfs` | app/Data_extractor_V5.py:268-282 | every URL gets one task; the result is the truthy task paths in completion order, a permutation of them, at most one per URL and one per URL when all succeed |
| `ExtractorV5.SaveAllLinkedPagesAsPdfs` | app/Data_extractor_V5.py:312-326 | one task per link row on its raw URI; the result is a permutation of the truthy task paths, at most one per row |
| `ExtractorV5.ExtractTexts` | app/Data_extractor_V5.py:183-200 | one text task per URL; the result is the truthy task paths in completion order, a permutation of them, at most one per URL |
| `ExtractorV4.NewWeb2Pdf` | app/Data_extractor_V4.py:25-33 | the object exists exactly when its constructor's driver started; its URL list is the normalisation of the input |
| `ExtractorV4.NewWeb2Text` | app/Data_extractor_V4.py:115-125 | no driver; a falsy URL argument gives `[]`, otherwise the normalisation |
| `ExtractorV4.NewAll2Pdf` | app/Data_extractor_V4.py:220-227 | no driver and no failure; the URL list is the normalisation of the input |
| `ExtractorV4.PageOutcome` | app/Data_extractor_V4.py:50-91 | an attempt escapes exactly when its driver did not start, and returns the printed file exactly when the driver started, the page loaded and printing succeeded |
| `ExtractorV4.PageTask` | app/Data_extractor_V4.py:48-96 | the method raises only when the driver of some attempt failed to start |
| `ExtractorV4.SavePageAsPdf` | app/Data_extractor_V4.py:48-96 | the retry loop's result and try count; drivers created = drivers quit = tries, at most 3 |
| `ExtractorV4.ConsentIgnored` | app/Data_extractor_V4.py:58-66 | whatever the consent step raises, the attempt ends the same way |
| `ExtractorV4.SetupFailureRaises` | app/Data_extractor_V4.py:50-52 | after k failed attempts, a driver that fails to start makes the method raise with k tries made |
| `ExtractorV4.PageTaskNoneIff` | app/Data_extractor_V4.py:95-96 | `None` comes back exactly when all attempts failed |
| `ExtractorV4.TextOutcome` | app/Data_extractor_V4.py:142-172 | a text attempt escapes exactly when its driver did not start, and ends the loop with the save's result exactly when the page loaded |
| `ExtractorV4.TextTask` | app/Data_extractor_V4.py:140-177 | the method raises only when the driver of some attempt failed to start |
| `ExtractorV4.ExtractTextFromWebsite` | app/Data_extractor_V4.py:140-177 | the retry loop's result and try count; drivers created = drivers quit = tries, at most 3 |
| `ExtractorV4.TextConsentIgnored` | app/Data_extractor_V4.py:150-158 | the consent step has no influence on a text attempt |
| `ExtractorV4.SavePagesAsPdfs` | app/Data_extractor_V4.py:98-112 | the truthy task paths in completion order, a permutation of them, at most one per URL; a raising task contributes nothing |
| `ExtractorV4.ExtractTexts` | app/Data_extractor_V4.py:200-217 | the same for text tasks |
| `Server.DeleteFile` | app/main.py:51-56 | the file is gone afterwards and nothing else is; an error is logged exactly when it was not there; nothing is raised |
| `Server.RunBackgroundTasks` | app/main.py:51-56 | after the queued deletions exactly the files not queued remain, with one log line per task, an error exactly for a missing or repeated file |
| `Server.StopCut` | app/main.py:74-77 | the loop stops at the first check after a `/stop`, or at the end of the list |
| `Server.NoStopKeepsAll` | app/main.py:74-77 | without a `/stop` every produced file is collected |
| `Server.StopAtStartCollectsNothing` | app/main.py:74-80 | a `/stop` before the first check collects nothing |
| `Server.Api.constructor` | app/main.py:59 | the flag starts clear |
| `Server.Api.StopProcessing` | app/main.py:61-64 | sets the flag and returns the confirmation message |
| `Server.Api.CreatePdf` | app/main.py:66-97 | clears the flag on entry; collects the prefix of `run()` up to the first check that sees the flag; 500 when nothing was collected; else the first file, and exactly the collected files are queued for deletion |
| `Server.Api.Web2Text` | app/main.py:99-119 | no path gives 500; one path is returned unmerged; several are merged in list order; a failed constructor or merge is unhandled |
| `Server.Api.GenerateAllPdfs` | app/main.py:121-169 | a zip response exactly when the extractor started, the merge succeeded, every link of the merged document has a `uri` key and every archived file exists; otherwise 500; its rows are the merged document's links, its inputs `pdf_paths ++ linked ++ [csv]`, and the zip plus every archived file are queued for deletion, the merged PDF never |

## Left out

- The browser: driver setup, navigation, waits, the consent click, `Page.printToPDF` and its base64 payload are abstract per-attempt inputs (`PageAttempt`, `TextAttempt`).
- BeautifulSoup parsing and `get_text(strip=True)`: the tag texts are an input sequence.
- FPDF layout, PyPDF2 merging internals and PyMuPDF parsing: a PDF is its sequence of pages, a page its link annotations. A link entry is either one with a `uri` key (whose value may be `None`) or one without; the other keys of the entry are not modelled.
- pandas and the CSV file contents; the CSV is only a path.
- zipfile compression and how readers resolve duplicate member names.
- Temporary-file naming, `os.remove` and the file system: file names and the set of existing files are inputs.
- `time.sleep` and the `X-Processing-Time` header; only the number of cooldowns is counted.
- The thread pool: tasks are run one after the other; their completion order is an arbitrary permutation. V5's sharing of one driver among worker threads is not modelled.
- FastAPI routing, CORS, static and template serving, the request bodies and logging (beyond the error/info level of `delete_file`).
- `Server.Api.CreatePdf`: a `/stop` request arriving during the loop is modelled by the set of loop positions before whose check it was handled; real interleaving is not. In the deployed server this set is always empty: `create_pdf` is an `async def` that never awaits and `run()` is synchronous, so no `/stop` handler can run between the flag being cleared and the end of the loop, and only `Server.NoStopKeepsAll` describes a reachable run. The model also admits the interleavings a threaded server would allow.
- `Server.Api.GenerateAllPdfs`: the linked PDFs and the CSV write are inputs; the link between the extracted rows and the linked pages is stated by `ExtractorV5.SaveAllLinkedPagesAsPdfs`, not inside the endpoint.
- An exception from `driver.quit()` inside V4's `finally` is not modelled.
