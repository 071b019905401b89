/** One episode's job, `download_and_mux(title, url, out_dir, pos)`: skip
    the episode when its file already exists, otherwise fetch the episode
    page, find the master playlist in it, pick the rendition and have ffmpeg
    copy it into the output file. Every failure on the way becomes an error
    result rather than an exception.

    The file system, the HTTP session, the playlist loader, `urljoin` and the
    ffmpeg run are the fields of an `Env`. */
module Jobs {
  import opened Wrappers
  import Names
  import Variants

  /** The HTTP response to a page request: its status code and its text. */
  datatype Response = Response(status: int, text: string)

  datatype Env = Env(
    isWindows: bool,
    fileExists: string -> bool,                      // os.path.exists
    get: string -> Option<Response>,                 // session.get; None when it raises
    load: string -> Option<Variants.Playlist>,       // m3u8.load; None when it raises
    urljoin: (string, string) -> string,
    transcode: (string, string, string) -> bool)     // ffmpeg.run(input URL, output, progress file)

  datatype JobError =
    | Transport                               // the request itself failed
    | HttpStatus(code: int)                   // raise_for_status() raised
    | M3u8NotFound                            // no master playlist URL on the page
    | Manifest(cause: Variants.ManifestError) // pick_best_variant raised
    | Transcode                               // ffmpeg.run raised

  /** The triple `download_and_mux` returns: the title, a status and the
      output path (or, for an error, the error). */
  datatype JobResult =
    | Downloaded(title: string, path: string)
    | AlreadyExists(title: string, path: string)
    | Failed(title: string, error: JobError)

  /** The status codes for which `raise_for_status()` raises. */
  predicate IsErrorStatus(status: int) { 400 <= status < 600 }

  /** The episode page's text, once the request succeeded with a good status. */
  function FetchPage(env: Env, pageUrl: string): (r: Result<string, JobError>)
    ensures r.Ok? <==> env.get(pageUrl).Some? && !IsErrorStatus(env.get(pageUrl).value.status)
    ensures r.Ok? ==> r.value == env.get(pageUrl).value.text
    ensures r.Err? ==> (r.error == Transport <==> env.get(pageUrl).None?)
    ensures r.Err? && r.error.HttpStatus? ==> IsErrorStatus(r.error.code)
    // A failed request is a transport error; a bad status is reported as it is.
    ensures env.get(pageUrl).None? ==> r == Err(Transport)
    ensures env.get(pageUrl).Some? && IsErrorStatus(env.get(pageUrl).value.status) ==>
              r == Err(HttpStatus(env.get(pageUrl).value.status))
  {
    match env.get(pageUrl)
    case None => Err(Transport)
    case Some(resp) =>
      if IsErrorStatus(resp.status) then Err(HttpStatus(resp.status)) else Ok(resp.text)
  }

  /** Everything before ffmpeg runs: the page, its master playlist URL and
      the rendition picked from it. */
  function Prepare(env: Env, pageUrl: string): (r: Result<Variants.Selection, JobError>)
    // A selection comes from the first master playlist URL of a good page.
    ensures r.Ok? ==> exists html :: FetchPage(env, pageUrl) == Ok(html) &&
                        var master := Names.ExtractMasterUrl(html);
                        master.Some? &&
                        Variants.PickBestVariant(master.value, env.load, env.urljoin) == Ok(r.value)
    // Request failures are reported as they are.
    ensures FetchPage(env, pageUrl).Err? ==> r == Err(FetchPage(env, pageUrl).error)
    // A good page without a master playlist URL.
    ensures (r == Err(M3u8NotFound)) <==>
              FetchPage(env, pageUrl).Ok? && Names.ExtractMasterUrl(FetchPage(env, pageUrl).value).None?
    // A good page with a master playlist URL gives what the rendition choice gives.
    ensures FetchPage(env, pageUrl).Ok? && Names.ExtractMasterUrl(FetchPage(env, pageUrl).value).Some? ==>
              var master := Names.ExtractMasterUrl(FetchPage(env, pageUrl).value).value;
              r == match Variants.PickBestVariant(master, env.load, env.urljoin)
                   case Ok(sel) => Ok(sel)
                   case Err(e) => Err(Manifest(e))
    // A playlist failure names its cause.
    ensures r.Err? && r.error.Manifest? ==>
              exists html :: FetchPage(env, pageUrl) == Ok(html) &&
                var master := Names.ExtractMasterUrl(html);
                master.Some? &&
                Variants.PickBestVariant(master.value, env.load, env.urljoin) == Err(r.error.cause)
  {
    match FetchPage(env, pageUrl)
    case Err(e) => Err(e)
    case Ok(html) =>
      match Names.ExtractMasterUrl(html)
      case None => Err(M3u8NotFound)
      case Some(masterUrl) =>
        match Variants.PickBestVariant(masterUrl, env.load, env.urljoin)
        case Err(e) => Err(Manifest(e))
        case Ok(sel) => Ok(sel)
  }

  /** `download_and_mux(title, url, out_dir, pos)`. */
  function DownloadAndMux(env: Env, title: string, pageUrl: string, outDir: string): (r: JobResult)
    ensures r.title == title
    // The job is skipped exactly when the episode's file is already there.
    ensures r.AlreadyExists? <==> env.fileExists(Names.OutputPath(env.isWindows, outDir, title))
    ensures !r.Failed? ==> r.path == Names.OutputPath(env.isWindows, outDir, title)
    // A download means every stage succeeded and ffmpeg copied the picked
    // rendition into the episode's file, reporting to its progress file.
    ensures r.Downloaded? <==>
              && !env.fileExists(Names.OutputPath(env.isWindows, outDir, title))
              && Prepare(env, pageUrl).Ok?
              && env.transcode(Prepare(env, pageUrl).value.playUrl,
                               Names.OutputPath(env.isWindows, outDir, title),
                               Names.ProgressPath(env.isWindows, outDir, title))
    // Any other outcome is the failure of the first stage that failed.
    ensures r.Failed? ==>
              && !env.fileExists(Names.OutputPath(env.isWindows, outDir, title))
              && (if Prepare(env, pageUrl).Err? then r.error == Prepare(env, pageUrl).error
                  else r.error == Transcode)
  {
    var outPath := Names.OutputPath(env.isWindows, outDir, title);
    if env.fileExists(outPath) then AlreadyExists(title, outPath)
    else
      match Prepare(env, pageUrl)
      case Err(e) => Failed(title, e)
      case Ok(sel) =>
        var progPath := Names.ProgressPath(env.isWindows, outDir, title);
        if env.transcode(sel.playUrl, outPath, progPath) then Downloaded(title, outPath)
        else Failed(title, Transcode)
  }

  /** An existing file is reported without any request: the outcome does not
      depend on the network, the playlists or ffmpeg. */
  lemma ExistingFileSkipsNetwork(env1: Env, env2: Env, title: string, pageUrl: string, outDir: string)
    requires env1.isWindows == env2.isWindows
    requires var outPath := Names.OutputPath(env1.isWindows, outDir, title);
             env1.fileExists(outPath) && env2.fileExists(outPath)
    ensures DownloadAndMux(env1, title, pageUrl, outDir) == DownloadAndMux(env2, title, pageUrl, outDir)
  {
  }

  /** Running a job again once its file exists reports it as already there,
      at the same path. */
  lemma RerunAfterDownload(env: Env, title: string, pageUrl: string, outDir: string)
    requires DownloadAndMux(env, title, pageUrl, outDir).Downloaded?
    ensures var path := DownloadAndMux(env, title, pageUrl, outDir).path;
            var after := env.(fileExists := (p: string) => p == path || env.fileExists(p));
            DownloadAndMux(after, title, pageUrl, outDir) == AlreadyExists(title, path)
  {
  }
}
