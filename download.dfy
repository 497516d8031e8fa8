/**
 * `po:download`: after its configuration guards, asks POEditor for a PO
 * export of every selected locale, fetches the file at the returned URL
 * and saves it as `<locale>.po` in the import directory. Locales are
 * attempted one after another whatever the earlier replies said, until a
 * request cannot reach its server: the HTTP client then throws, and the
 * command ends there with status 1. It succeeds only when every locale
 * was saved. POEditor's two HTTP calls are given as functions from the
 * request to the reply.
 */
module Download {
  import opened Optional
  import opened Strings
  import opened Arrays
  import opened Locales
  import opened Export
  import opened Store

  /** `po.poeditor`: `enabled`, `api_token` and `project_id` (None for null). */
  datatype PoeditorConfig = PoeditorConfig(enabled: bool, apiToken: Option<string>, projectId: Option<string>)

  /**
   * The reply to the export request: whether it was successful, and the
   * JSON's `response.status` and `result.url` when they are set; or a
   * connection failure or time-out, on which `Http::post` throws.
   */
  datatype ExportReply =
    | ExportReply(successful: bool, status: Option<string>, url: Option<string>)
    | ExportConnectionError

  /** The reply to fetching the download URL, or a connection failure on which `Http::get` throws. */
  datatype FileReply = FileReply(successful: bool, body: string) | FileConnectionError

  /** How the download of one locale ended; `ConnectionError` is the uncaught throw. */
  datatype Outcome = RequestFailed | ApiError | NoUrl | FetchFailed | Saved(body: string) | ConnectionError

  /** A configuration value passes `! $value` when it is set and truthy. */
  predicate Present(value: Option<string>)
  {
    value.Some? && Truthy(value.value)
  }

  /** `downloadLanguage`'s decision over the two replies, in the order the checks are made. */
  function Classify(reply: ExportReply, fetch: string -> FileReply): (r: Outcome)
    ensures r.Saved? <==> reply.ExportReply? && reply.successful && reply.status == Some("success") && reply.url.Some? &&
                          fetch(reply.url.value).FileReply? && fetch(reply.url.value).successful
    ensures r.Saved? ==> r.body == fetch(reply.url.value).body
    ensures r.ConnectionError? <==>
              reply.ExportConnectionError? ||
              (reply.successful && reply.status == Some("success") && reply.url.Some? && fetch(reply.url.value).FileConnectionError?)
  {
    if reply.ExportConnectionError? then ConnectionError
    else if !reply.successful then RequestFailed
    else if reply.status != Some("success") then ApiError
    else if reply.url.None? then NoUrl
    else
      var file := fetch(reply.url.value);
      if file.FileConnectionError? then ConnectionError
      else if !file.successful then FetchFailed else Saved(file.body)
  }

  /** The outcome for one locale with the given credentials. */
  function OutcomeFor(locale: string, token: string, project: string,
                      request: (string, string, string) -> ExportReply, fetch: string -> FileReply): Outcome
  {
    Classify(request(token, project, locale), fetch)
  }

  /** The import directory: file name to contents. */
  class ImportDirectory {
    var files: Assoc<string>

    constructor (files: Assoc<string>)
      ensures this.files == files
    {
      this.files := files;
    }

    /** `File::put`. */
    method Write(name: string, contents: string)
      modifies this
      ensures files == Arrays.Put(old(files), name, contents)
    {
      files := Arrays.Put(files, name, contents);
    }
  }

  /** The import directory after one locale's download: written only on the saved path. */
  function AfterDownload(files: Assoc<string>, locale: string, outcome: Outcome): Assoc<string>
  {
    if outcome.Saved? then Arrays.Put(files, PoFile(locale), outcome.body) else files
  }

  /**
   * `downloadLanguage`: one locale, reporting whether its file was saved;
   * `thrown` reports the connection error the source lets propagate.
   */
  method DownloadLanguage(dir: ImportDirectory, locale: string, token: string, project: string,
                          request: (string, string, string) -> ExportReply, fetch: string -> FileReply)
    returns (success: bool, thrown: bool)
    modifies dir
    ensures success == OutcomeFor(locale, token, project, request, fetch).Saved?
    ensures thrown == OutcomeFor(locale, token, project, request, fetch).ConnectionError?
    ensures dir.files == AfterDownload(old(dir.files), locale, OutcomeFor(locale, token, project, request, fetch))
  {
    success, thrown := false, false;
    var response := request(token, project, locale);
    if response.ExportConnectionError? {
      thrown := true;
      return;
    }
    if !response.successful {
      success := false;
      return;
    }
    if response.status.None? || response.status.value != "success" {
      success := false;
      return;
    }
    if response.url.None? {
      success := false;
      return;
    }
    var fileResponse := fetch(response.url.value);
    if fileResponse.FileConnectionError? {
      thrown := true;
      return;
    }
    if !fileResponse.successful {
      success := false;
      return;
    }
    dir.Write(PoFile(locale), fileResponse.body);
    success := true;
  }

  /** The downloads of the selected locales, one after another. */
  function DownloadAll(files: Assoc<string>, locales: seq<string>, token: string, project: string,
                       request: (string, string, string) -> ExportReply, fetch: string -> FileReply): Assoc<string>
  {
    if |locales| == 0 then files
    else
      var l := locales[|locales| - 1];
      AfterDownload(DownloadAll(files, locales[..|locales| - 1], token, project, request, fetch), l,
                    OutcomeFor(l, token, project, request, fetch))
  }

  /** Whether every selected locale was saved. */
  predicate AllSaved(locales: seq<string>, token: string, project: string,
                     request: (string, string, string) -> ExportReply, fetch: string -> FileReply)
  {
    forall l :: l in locales ==> OutcomeFor(l, token, project, request, fetch).Saved?
  }

  lemma AllSavedSnoc(locales: seq<string>, l: string, token: string, project: string,
                     request: (string, string, string) -> ExportReply, fetch: string -> FileReply)
    ensures AllSaved(locales + [l], token, project, request, fetch) <==>
              AllSaved(locales, token, project, request, fetch) && OutcomeFor(l, token, project, request, fetch).Saved?
  {
    assert forall x :: x in locales + [l] <==> x in locales || x == l;
  }

  /**
   * Every locale of the fold is attempted whatever happened to the others:
   * a saved locale's `<locale>.po` holds the fetched body, a failed one's
   * file is as it was, and no other file changes.
   */
  lemma {:induction false} DownloadAllEffect(files: Assoc<string>, locales: seq<string>, token: string, project: string,
                                             request: (string, string, string) -> ExportReply, fetch: string -> FileReply)
    requires UniqueKeys(files)
    ensures UniqueKeys(DownloadAll(files, locales, token, project, request, fetch))
    ensures forall l :: l in locales ==>
              Lookup(DownloadAll(files, locales, token, project, request, fetch), PoFile(l)) ==
                match OutcomeFor(l, token, project, request, fetch)
                case Saved(body) => Some(body)
                case _ => Lookup(files, PoFile(l))
    ensures forall f :: (forall l :: l in locales ==> f != PoFile(l)) ==>
              Lookup(DownloadAll(files, locales, token, project, request, fetch), f) == Lookup(files, f)
  {
    if |locales| > 0 {
      var init := locales[..|locales| - 1];
      var last := locales[|locales| - 1];
      var outcome := OutcomeFor(last, token, project, request, fetch);
      DownloadAllEffect(files, init, token, project, request, fetch);
      var before := DownloadAll(files, init, token, project, request, fetch);
      if outcome.Saved? {
        PutProperties(before, PoFile(last), outcome.body);
      }
      forall l | l in init && PoFile(l) == PoFile(last) ensures l == last {
        PoFileInjective(l, last);
      }
      assert forall l :: l in locales <==> l in init || l == last;
    }
  }

  lemma DownloadAllStep(files: Assoc<string>, locales: seq<string>, k: nat, token: string, project: string,
                        request: (string, string, string) -> ExportReply, fetch: string -> FileReply)
    requires k < |locales|
    ensures DownloadAll(files, locales[..k + 1], token, project, request, fetch) ==
              AfterDownload(DownloadAll(files, locales[..k], token, project, request, fetch), locales[k],
                            OutcomeFor(locales[k], token, project, request, fetch))
    ensures AllSaved(locales[..k + 1], token, project, request, fetch) <==>
              AllSaved(locales[..k], token, project, request, fetch) && OutcomeFor(locales[k], token, project, request, fetch).Saved?
  {
    assert locales[..k + 1] == locales[..k] + [locales[k]];
    AllSavedSnoc(locales[..k], locales[k], token, project, request, fetch);
  }

  /**
   * How many locales the loop gets through before a connection error:
   * none of them throws, and the one after them, if any, does.
   */
  function Reached(locales: seq<string>, token: string, project: string,
                   request: (string, string, string) -> ExportReply, fetch: string -> FileReply): (n: nat)
    ensures n <= |locales|
    ensures forall i :: 0 <= i < n ==> !OutcomeFor(locales[i], token, project, request, fetch).ConnectionError?
    ensures n < |locales| ==> OutcomeFor(locales[n], token, project, request, fetch).ConnectionError?
  {
    if |locales| == 0 || OutcomeFor(locales[0], token, project, request, fetch).ConnectionError? then 0
    else 1 + Reached(locales[1..], token, project, request, fetch)
  }

  /** Every locale saved means no connection error stopped the loop. */
  lemma AllSavedReached(locales: seq<string>, token: string, project: string,
                        request: (string, string, string) -> ExportReply, fetch: string -> FileReply)
    ensures AllSaved(locales, token, project, request, fetch) ==> Reached(locales, token, project, request, fetch) == |locales|
  {
    var n := Reached(locales, token, project, request, fetch);
    if n < |locales| {
      assert locales[n] in locales;
    }
  }

  /**
   * `handle`'s loop: the locales are attempted in turn, the `&&` keeping
   * every one from short-circuiting the next, until one throws; `complete`
   * says whether the loop reached the end.
   */
  method DownloadEach(dir: ImportDirectory, locales: seq<string>, token: string, project: string,
                      request: (string, string, string) -> ExportReply, fetch: string -> FileReply)
    returns (success: bool, complete: bool)
    modifies dir
    ensures var n := Reached(locales, token, project, request, fetch);
      && dir.files == DownloadAll(old(dir.files), locales[..n], token, project, request, fetch)
      && (success <==> AllSaved(locales[..n], token, project, request, fetch))
      && (complete <==> n == |locales|)
  {
    ghost var files0 := dir.files;
    ghost var n := Reached(locales, token, project, request, fetch);
    success := true;
    var k, thrown := 0, false;
    while k < |locales| && !thrown
      invariant 0 <= k <= n
      invariant thrown ==> k == n < |locales|
      decreases |locales| - k, !thrown
      invariant dir.files == DownloadAll(files0, locales[..k], token, project, request, fetch)
      invariant success <==> AllSaved(locales[..k], token, project, request, fetch)
    {
      var saved;
      saved, thrown := DownloadLanguage(dir, locales[k], token, project, request, fetch);
      if !thrown {
        success := saved && success;
        DownloadAllStep(files0, locales, k, token, project, request, fetch);
        k := k + 1;
      }
    }
    complete := !thrown;
  }

  /** The guards that end the command before any download. */
  predicate Configured(config: PoeditorConfig)
  {
    config.enabled && Present(config.apiToken) && Present(config.projectId)
  }

  /**
   * `po:download`'s `handle`. A disabled integration, missing credentials
   * or an empty selection fail without touching the import directory;
   * otherwise the selected locales are downloaded up to the first
   * connection error, which ends the command with status 1 (FAILURE)
   * after the earlier files were saved. The command succeeds exactly when
   * every locale was saved. The lang directory `lang` is only listed, for
   * the locale pool.
   */
  method Handle(dir: ImportDirectory, config: PoeditorConfig, configured: Assoc<LanguageConfig>, lang: Lang,
                all: bool, args: seq<string>, request: (string, string, string) -> ExportReply, fetch: string -> FileReply)
    returns (status: ExitCode)
    modifies dir
    ensures var locales := DownloadLocales(configured, Directories(lang), all, args);
      if !Configured(config) || |locales| == 0 then
        status == Failure && dir.files == old(dir.files)
      else
        var token, project := config.apiToken.value, config.projectId.value;
        && dir.files == DownloadAll(old(dir.files), locales[..Reached(locales, token, project, request, fetch)],
                                    token, project, request, fetch)
        && (status == Success <==> AllSaved(locales, token, project, request, fetch))
  {
    if !config.enabled {
      return Failure;
    }
    if !Present(config.apiToken) || !Present(config.projectId) {
      return Failure;
    }
    var token, project := config.apiToken.value, config.projectId.value;
    var locales := DownloadLocales(configured, Directories(lang), all, args);
    if |locales| == 0 {
      return Failure;
    }
    var success, complete := DownloadEach(dir, locales, token, project, request, fetch);
    AllSavedReached(locales, token, project, request, fetch);
    if complete {
      assert locales[..|locales|] == locales;
    }
    status := if success && complete then Success else Failure;
  }
}
