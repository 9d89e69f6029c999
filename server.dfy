/**
 * `main.py`: the HTTP endpoints over the V5 extractors. The HTTP layer is
 * abstracted to a `Response` value; the file handed back, its media type and
 * download name, and the files queued for deletion after the response are
 * what the model keeps. What the extractors return enters as parameters; their
 * behaviour is specified in `ExtractorV5`.
 */
module Server {

  import opened Common
  import opened Links
  import opened Merge
  import opened Archive

  const ServerError: nat := 500
  const PdfMediaType := "application/pdf"
  const ZipMediaType := "application/zip"
  const MergedTextName := "merged_text_output.pdf"
  const ArchiveName := "output.zip"
  const StoppedMessage := "Processing stopped"

  /**
   * What a request ends with: a file, an `HTTPException` with a status, or
   * an exception the endpoint does not catch (which the framework turns into
   * an internal server error).
   */
  datatype Response =
    | FileResponse(path: Path, mediaType: string, filename: string)
    | ErrorResponse(status: nat)
    | Unhandled

  datatype LogLevel = Info | Error

  /**
   * `delete_file`: `os.remove`, logging success; any exception (here: the
   * file is not there) is logged and swallowed.
   */
  function DeleteFile(present: set<Path>, p: Path): (r: (set<Path>, LogLevel))
    ensures p !in r.0 && r.0 <= present
    ensures forall q :: q in present && q != p ==> q in r.0
    ensures r.1 == Error <==> p !in present
  {
    if p in present then (present - {p}, Info) else (present, Error)
  }

  /**
   * The background tasks run after the response, in the order they were
   * added. Since `delete_file` never raises, every task runs.
   */
  method RunBackgroundTasks(present: set<Path>, tasks: seq<Path>) returns (remaining: set<Path>, log: seq<LogLevel>)
    ensures forall q :: q in remaining <==> q in present && q !in tasks
    ensures |log| == |tasks|
    ensures forall i :: 0 <= i < |tasks| ==> (log[i] == Error <==> tasks[i] !in present || tasks[i] in tasks[..i])
  {
    remaining, log := present, [];
    for i := 0 to |tasks|
      invariant forall q :: q in remaining <==> q in present && q !in tasks[..i]
      invariant |log| == i
      invariant forall j :: 0 <= j < i ==> (log[j] == Error <==> tasks[j] !in present || tasks[j] in tasks[..j])
    {
      var (left, level) := DeleteFile(remaining, tasks[i]);
      remaining := left;
      log := log + [level];
      assert tasks[..i + 1] == tasks[..i] + [tasks[i]];
    }
    assert tasks[..|tasks|] == tasks;
  }

  /**
   * Where the collecting loop of `/web2pdf` stops: the first element whose
   * flag check comes after a `/stop` (`stopsBefore` holds the indices before
   * whose check a stop request was handled), or the end of the list.
   */
  function StopCut(n: nat, stopsBefore: set<nat>): (cut: nat)
    ensures cut <= n
    ensures cut < n ==> cut in stopsBefore
    ensures forall j :: 0 <= j < cut ==> j !in stopsBefore
  {
    FirstStopFrom(0, n, stopsBefore)
  }

  function FirstStopFrom(from: nat, n: nat, stopsBefore: set<nat>): (cut: nat)
    requires from <= n
    ensures from <= cut <= n
    ensures cut < n ==> cut in stopsBefore
    ensures forall j :: from <= j < cut ==> j !in stopsBefore
    decreases n - from
  {
    if from == n || from in stopsBefore then from else FirstStopFrom(from + 1, n, stopsBefore)
  }

  /** With no stop request during the loop every produced file is collected. */
  lemma NoStopKeepsAll(n: nat, stopsBefore: set<nat>)
    requires forall j :: 0 <= j < n ==> j !in stopsBefore
    ensures StopCut(n, stopsBefore) == n
  {
  }

  /** A stop before the first check collects nothing, so `/web2pdf` answers 500. */
  lemma StopAtStartCollectsNothing(n: nat, stopsBefore: set<nat>)
    requires 0 in stopsBefore
    ensures StopCut(n, stopsBefore) == 0
  {
  }

  /** The process-wide `stop_signal` event and the endpoints that use or ignore it. */
  class Api {
    var stopSignal: bool

    constructor ()
      ensures !stopSignal
    {
      stopSignal := false;
    }

    /** `POST /stop`. */
    method StopProcessing() returns (message: string)
      modifies this
      ensures stopSignal && message == StoppedMessage
    {
      stopSignal := true;
      message := StoppedMessage;
    }

    /**
     * `POST /web2pdf`. `started` says whether the `Web2PDF` constructor
     * returned (its driver started); `produced` is what `run()` returned.
     * Every exception, the explicit 500 for an empty list included, ends as
     * status 500.
     */
    method CreatePdf(started: bool, produced: seq<Path>, stopsBefore: set<nat>)
      returns (response: Response, collected: seq<Path>, tasks: seq<Path>)
      modifies this
      ensures !started ==> response == ErrorResponse(ServerError) && collected == [] && tasks == [] && !stopSignal
      ensures started ==> collected == produced[..StopCut(|produced|, stopsBefore)]
      ensures started ==> (stopSignal <==> StopCut(|produced|, stopsBefore) < |produced|)
      ensures collected == [] ==> response == ErrorResponse(ServerError) && tasks == []
      ensures collected != [] ==> response == FileResponse(collected[0], PdfMediaType, Basename(collected[0]))
      ensures collected != [] ==> tasks == collected
    {
      stopSignal := false;
      collected, tasks := [], [];
      if !started {
        return ErrorResponse(ServerError), collected, tasks;
      }
      var i := 0;
      while i < |produced|
        invariant i <= StopCut(|produced|, stopsBefore)
        invariant collected == produced[..i]
        invariant !stopSignal
      {
        if i in stopsBefore {
          var message := StopProcessing();
        }
        if stopSignal {
          break;
        }
        collected := collected + [produced[i]];
        i := i + 1;
      }
      if collected == [] {
        return ErrorResponse(ServerError), collected, tasks;
      }
      for k := 0 to |collected|
        invariant tasks == collected[..k]
      {
        tasks := tasks + [collected[k]];
      }
      assert collected[..|collected|] == collected;
      response := FileResponse(collected[0], PdfMediaType, Basename(collected[0]));
    }

    /**
     * `POST /web2text/`. No `try` here: a failed `Web2Text` constructor or a
     * failed merge leaves the endpoint as an unhandled exception. `store` is
     * the set of PDF files on disk and `mergedPath` the temporary file the
     * merge writes. No file is queued for deletion.
     */
    method Web2Text(started: bool, produced: seq<Path>, store: Store, mergedPath: Path)
      returns (response: Response, stored: Store)
      ensures !started ==> response == Unhandled && stored == store
      ensures started && produced == [] ==> response == ErrorResponse(ServerError) && stored == store
      ensures started && |produced| == 1 ==>
                response == FileResponse(produced[0], PdfMediaType, Basename(produced[0])) && stored == store
      ensures started && |produced| > 1 && !AllStored(store, produced) ==> response == Unhandled && stored == store
      ensures started && |produced| > 1 && AllStored(store, produced) ==>
                && response == FileResponse(mergedPath, PdfMediaType, MergedTextName)
                && Merged(store, produced).Some?
                && stored == store[mergedPath := Merged(store, produced).value]
    {
      stored := store;
      if !started {
        return Unhandled, stored;
      }
      if produced == [] {
        return ErrorResponse(ServerError), stored;
      }
      if |produced| > 1 {
        var merged := MergePdfs(store, produced);
        if merged.None? {
          return Unhandled, stored;
        }
        stored := store[mergedPath := merged.value];
        response := FileResponse(mergedPath, PdfMediaType, MergedTextName);
      } else if |produced| == 1 {
        response := FileResponse(produced[0], PdfMediaType, Basename(produced[0]));
      } else {
        assert false;
      }
    }

    /**
     * `POST /all2pdf`: merge the produced PDFs, extract the links of the
     * merged document into a CSV file, save every linked page, put the
     * produced PDFs, the linked PDFs and the CSV (last) into a zip archive and
     * queue the archive and each archived file for deletion. A link of the
     * merged document without a 'uri' key raises `KeyError` during the
     * extraction, which the handler turns into status 500. `linkedProduced`
     * is what `save_all_linked_pages_as_pdfs` returned for the extracted rows;
     * `present` is the set of files on disk besides the CSV.
     */
    method GenerateAllPdfs(started: bool, produced: seq<Path>, store: Store, mergedPath: Path,
                           csvPath: Path, linkedProduced: seq<Path>, present: set<Path>, zipPath: Path)
      returns (response: Response, rows: seq<LinkRow>, archived: seq<Path>, zip: Option<ZipArchive>, tasks: seq<Path>)
      ensures response.FileResponse? <==>
                && started
                && Merged(store, produced).Some?
                && AllKeyed(Merged(store, produced).value)
                && AllPresent(present + {csvPath}, produced + linkedProduced)
      ensures !response.FileResponse? ==> response == ErrorResponse(ServerError) && tasks == []
      ensures response.FileResponse? ==>
                && response == FileResponse(zipPath, ZipMediaType, ArchiveName)
                && Merged(store, produced).Some?
                && rows == Rows(Merged(store, produced).value)
                && archived == produced + linkedProduced + [csvPath]
                && zip == Some(ZipArchive(zipPath, Entries(archived)))
                && tasks == [zipPath] + archived
      ensures started && produced == [] && linkedProduced == [] ==>
                response.FileResponse? && archived == [csvPath] && rows == []
      ensures response.FileResponse? && mergedPath !in produced && mergedPath !in linkedProduced &&
              mergedPath != csvPath && mergedPath != zipPath ==>
                mergedPath !in tasks && forall e :: e in zip.value.entries ==> e.source != mergedPath
    {
      rows, archived, zip, tasks := [], [], None, [];
      if !started {
        return ErrorResponse(ServerError), rows, archived, zip, tasks;
      }
      var merged := MergePdfs(store, produced);
      if merged.None? {
        return ErrorResponse(ServerError), rows, archived, zip, tasks;
      }
      var files := store[mergedPath := merged.value];
      var extracted := ExtractUrlsFromPdf(files[mergedPath]);
      if extracted.None? {
        return ErrorResponse(ServerError), rows, archived, zip, tasks;
      }
      rows := extracted.value;
      archived := produced + linkedProduced + [csvPath];
      AllPresentConcat(present + {csvPath}, produced + linkedProduced, csvPath);
      zip := CreateZipFile(present + {csvPath}, archived, zipPath);
      if zip.None? {
        return ErrorResponse(ServerError), rows, archived, zip, tasks;
      }
      tasks := [zipPath] + archived;
      response := FileResponse(zipPath, ZipMediaType, ArchiveName);
    }
  }

  lemma AllPresentConcat(present: set<Path>, paths: seq<Path>, p: Path)
    requires p in present
    ensures AllPresent(present, paths + [p]) <==> AllPresent(present, paths)
  {
    assert forall k :: 0 <= k < |paths| ==> (paths + [p])[k] == paths[k];
  }
}
