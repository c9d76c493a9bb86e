/**
 * `download_and_convert` as one state transition: from the configuration,
 * the server's response and the module-level `tar_file_name`, the request
 * it makes, the new `tar_file_name` and what, if anything, it writes.
 */
module App {
  import opened Wrappers
  import opened PyStr
  import opened PosixPath
  import opened TarRewrite
  import opened Fetch

  /** The directory the rewritten archive is written to. */
  const DownloadDir := "downloads"

  /** The four settings read from the configuration file. */
  datatype Config = Config(repoUrl: string, branch: string, accessToken: string, outputName: string)

  /**
   * What `requests.get` gives back, as far as the conversion looks at it:
   * either it raised (a URL without a scheme, a refused connection), or the
   * server answered. For an answer, `archive` is the member list of the
   * body once gunzipped and parsed as tar, or `None` when the body is not
   * a gzip-compressed tar archive.
   */
  datatype Response =
    | RequestError
    | Response(status: int, contentType: Option<string>, archive: Option<seq<Member>>)

  /** How a run ends. */
  datatype Outcome =
    | RequestFailed                                       // `requests.get` raised; nothing is written
    | Rejected(status: int, contentType: Option<string>)  // the response check failed; nothing is written
    | MalformedArchive                                    // gzip or tar decoding raised at app.py:47-55; nothing is written
    | Unwritable(path: string)                            // opening `path` for writing raised; nothing is written
    | Converted(path: string, members: seq<Member>)       // the rewritten archive written at `path`

  /**
   * A path at which no file can be created, whatever the file system
   * holds. Either its final component is empty (it ends in `/`), `.` or
   * `..`, so it names a directory and opening it for writing raises
   * `IsADirectoryError`, or it holds a NUL character, which `open` refuses
   * with `ValueError`.
   */
  predicate NamesNoFile(path: string) {
    || Basename(path) == "" || Basename(path) == "." || Basename(path) == ".."
    || '\0' in path
  }

  /**
   * Where the rewritten archive goes: `os.path.join("downloads", output_name)`.
   * The download directory adds no NUL and does not change the final
   * component, so the path names no file exactly when the name alone does.
   */
  function OutputPath(outputName: string): (path: string)
    ensures NamesNoFile(path) <==> NamesNoFile(outputName)
    ensures outputName != [] && outputName[0] == '/' ==> path == outputName
    ensures (outputName == [] || outputName[0] != '/') ==> path == DownloadDir + "/" + outputName
  {
    var path := PathJoin(DownloadDir, outputName);
    if outputName != [] && outputName[0] == '/' then path
    else
      BasenameOfJoined(DownloadDir, outputName);
      assert '\0' !in DownloadDir + "/";
      assert path == (DownloadDir + "/") + outputName;
      path
  }

  /** The module-level state: `tar_file_name`, `None` until the first run. */
  datatype AppState = AppState(tarFileName: Option<string>)

  /** One run: the URL it requests, the state it leaves and its outcome. */
  datatype Step = Step(archiveUrl: string, state: AppState, outcome: Outcome)

  /**
   * `os.path.splitext(output_name.strip())[0]`: the top-level directory
   * name of the rewritten archive. What is cut off is empty or one
   * extension: a `.` followed by no further `.` or `/`.
   */
  function NewRoot(outputName: string): (root: string)
    ensures root <= Strip(outputName)
    ensures var ext := Strip(outputName)[|root|..];
      ext == [] || (ext[0] == '.' && '.' !in ext[1..] && '/' !in ext)
    ensures root == Strip(outputName) <==> !HasExtension(Strip(outputName))
  {
    var (root, ext) := SplitExt(Strip(outputName));
    SplitExtFindsExtension(Strip(outputName));
    assert Strip(outputName)[|root|..] == ext;
    root
  }

  /**
   * An output name such as `project.tar`, once stripped, gives the root
   * `project`: the part before its one extension.
   */
  lemma NewRootDropsExtension(outputName: string, root: string, e: string)
    requires Strip(outputName) == root + "." + e
    requires TrimLeft(Basename(root), Only('.')) != []
    requires '.' !in e && '/' !in e
    ensures NewRoot(outputName) == root
  {
    SplitExtOf(root, e);
  }

  /** The server answered, and the answer passes the response check. */
  predicate Answered(response: Response) {
    response.Response? && Accepts(response.status, response.contentType)
  }

  /**
   * One run of `download_and_convert`. The stripped output name becomes
   * `tar_file_name` before the request is made, so a failed request, a
   * refused or undecodable download and an unwritable output path all
   * still replace the previous name.
   */
  function DownloadAndConvert(config: Config, response: Response, prev: AppState): (s: Step)
    ensures s.state.tarFileName == Some(Strip(config.outputName))
    ensures s.archiveUrl == ArchiveUrl(config.repoUrl, config.branch)
    ensures s.outcome.RequestFailed? <==> response.RequestError?
    ensures s.outcome.Rejected? <==> response.Response? && !Accepts(response.status, response.contentType)
    ensures s.outcome.Rejected? ==> s.outcome == Rejected(response.status, response.contentType)
    ensures s.outcome.MalformedArchive? <==> Answered(response) && response.archive.None?
    ensures s.outcome.Unwritable? <==>
      Answered(response) && response.archive.Some? && NamesNoFile(OutputPath(Strip(config.outputName)))
    ensures s.outcome.Converted? <==>
      Answered(response) && response.archive.Some? && !NamesNoFile(OutputPath(Strip(config.outputName)))
    ensures s.outcome.Unwritable? || s.outcome.Converted? ==> s.outcome.path == OutputPath(Strip(config.outputName))
    ensures s.outcome.Converted? ==> s.outcome.members == RewriteArchive(response.archive.value, NewRoot(config.outputName))
  {
    var outputName := Strip(config.outputName);
    var state := AppState(Some(outputName));
    var url := ArchiveUrl(config.repoUrl, config.branch);
    match response
    case RequestError => Step(url, state, RequestFailed)
    case Response(status, contentType, archive) =>
      if !Accepts(status, contentType) then
        Step(url, state, Rejected(status, contentType))
      else
        match archive
        case None => Step(url, state, MalformedArchive)
        case Some(ms) =>
          var path := OutputPath(outputName);
          if NamesNoFile(path) then Step(url, state, Unwritable(path))
          else Step(url, state, Converted(path, RewriteArchive(ms, NewRoot(config.outputName))))
  }

  /** The previous `tar_file_name` has no influence on a run. */
  lemma PreviousStateIgnored(config: Config, response: Response, p1: AppState, p2: AppState)
    ensures DownloadAndConvert(config, response, p1) == DownloadAndConvert(config, response, p2)
  {
  }

  /**
   * A failed request or a refused download writes nothing, yet
   * `tar_file_name` is already the new output name, whatever it was before.
   */
  lemma RejectedStillRenames(config: Config, response: Response, prev: AppState)
    requires response.RequestError? || !Accepts(response.status, response.contentType)
    ensures var s := DownloadAndConvert(config, response, prev);
      && !s.outcome.Converted?
      && s.state.tarFileName == Some(Strip(config.outputName))
      && (prev.tarFileName != Some(Strip(config.outputName)) ==> s.state != prev)
  {
  }

  /**
   * An output name that is empty, `.` or `..`, or that ends in `/`, `/.` or
   * `/..`, never gives an archive: the path names a directory.
   */
  lemma DirectoryNameUnwritable(config: Config, response: Response, prev: AppState, dir: string, last: string)
    requires Answered(response) && response.archive.Some?
    requires last == "" || last == "." || last == ".."
    requires Strip(config.outputName) == last || Strip(config.outputName) == dir + "/" + last
    ensures DownloadAndConvert(config, response, prev).outcome == Unwritable(OutputPath(Strip(config.outputName)))
  {
    BasenameIsLast(Strip(config.outputName), dir, last);
  }

  /**
   * The top-level entry of a repository archive, a name without `/`, is
   * not written: when the output path can name a file, the written members are
   * exactly the rewrites of the members after it. For an archive whose
   * other members all lie below that entry, `RewriteRepositoryArchive`
   * says what each of them becomes.
   */
  lemma ConvertRepositoryArchive(config: Config, root: Member, rest: seq<Member>, status: int,
                                 contentType: Option<string>, prev: AppState)
    requires Accepts(status, contentType) && '/' !in root.name
    ensures var s := DownloadAndConvert(config, Response(status, contentType, Some([root] + rest)), prev);
      && (s.outcome.Converted? <==> !NamesNoFile(OutputPath(Strip(config.outputName))))
      && (s.outcome.Converted? ==> s.outcome.members == RewriteArchive(rest, NewRoot(config.outputName)))
  {
    RootEntryDropped(root, rest, NewRoot(config.outputName));
  }
}
