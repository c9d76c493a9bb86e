# gitlab-tar-download in Dafny

A functional model of `download_and_convert`, the core of gitlab-tar-download.
That program fetches a GitLab repository archive for one branch and rewrites
the top-level directory of every member to a name derived from a configured
output file name. It also remembers that name in the module-level
`tar_file_name`.

The model has six modules:

- `PyStr` gives the Python string builtins the function uses, with CPython's
  semantics:
  - `str.strip()` with CPython's whitespace set;
  - `rstrip("/")`;
  - `split("/")` and `"/".join(...)`;
  - `str.rfind`;
  - the substring test `in`.
- `PosixPath` gives `os.path.splitext` and `os.path.join` as `posixpath`
  defines them. `splitext` skips the leading dots of the final component.
- `TarRewrite` is the member loop. A member is a record holding its name,
  its type, its other header fields and, for files, its data. An archive is
  the sequence of its members.
- `Fetch` derives the archive URL and decides whether to accept the
  response.
- `App` is the whole function as one state transition. It takes the
  configuration, what the request gave back and the previous
  `tar_file_name`. It returns the requested URL, the new `tar_file_name` and
  the outcome. The outcome is one of five:
  - the request raised;
  - the response was refused;
  - the archive could not be decoded;
  - the output path can name no file, so it could not be opened;
  - an archive was written at some path with some members.
- `Seqs` holds a generic "map, dropping some" pass over sequences. `Wrappers`
  holds `Option`.

Two facts about the code shape the model:

- `tar_file_name` is assigned at `app.py:28`. That is before the request at
  `app.py:39` and the response check at `app.py:40`. So a failed request or
  a refused download still replaces it. `App.DownloadAndConvert` and
  `App.RejectedStillRenames` model that order.
- The archive is requested as `.tar.gz` (`app.py:31`).

## Model

| member | source | states |
|---|---|---|
| `PyStr.Strip` | app.py:27 | The result is a contiguous slice of the input. Everything removed before it and after it is whitespace. The result neither starts nor ends with whitespace. |
| `PyStr.TrimRight` | app.py:24 | The result is a prefix of the input that does not end in a character being stripped. |
| `PyStr.StripIdempotent` | app.py:27 | Stripping an already stripped name changes nothing. |
| `PyStr.Split` | app.py:58-59 | There is always at least one piece. There is exactly one when the separator does not occur. |
| `PyStr.Join` | app.py:61 | With two or more pieces, the separator comes directly after the first piece. |
| `PyStr.JoinSplit` | app.py:58-61 | Joining the pieces of `s.split(sep)` with `sep` gives back `s`. |
| `PyStr.SplitJoin` | app.py:58-61 | Splitting the join of pieces that contain no separator gives back those pieces. |
| `PyStr.SplitPieces` | app.py:58-61 | No piece of a split contains the separator. |
| `PyStr.JoinSplitTail` | app.py:58-61 | `"/".join(name.split("/")[1:])` is exactly the text after the first `/` of the name. |
| `PyStr.LastPieceIsAfterLast` | app.py:30 | `s.split("/")[-1]` is the text after the last `/`, or all of `s` when it has none. |
| `PyStr.RFind` | app.py:53 | The result is -1 or a position holding the character, and the character occurs at no later position. |
| `PyStr.RFindAt` | app.py:53 | A position holding the character, with no later occurrence, is what `rfind` returns. |
| `PyStr.RFindFound` | app.py:53 | `rfind` returns -1 exactly when the character is absent. |
| `PyStr.Contains` | app.py:40 | The substring test holds exactly when the needle occurs at some position of the haystack. |
| `PyStr.TrimRightAppendDropped` | app.py:24 | Appending a stripped character does not change what `rstrip` returns. |
| `PosixPath.SplitExt` | app.py:53 | Root and extension concatenate to the path. The extension is empty, or it is a `.` followed by text with no `.` and no `/`. |
| `PosixPath.SplitExtFindsExtension` | app.py:53 | `splitext` cuts off a non-empty extension exactly when a `.` remains in the final component once its leading dots are set aside. |
| `PosixPath.SplitExtOf` | app.py:53 | For `root.e`, with `e` free of `.` and `/` and the last component of `root` not all dots, the root is `root` and the extension is `.e`. |
| `PosixPath.PathJoin` | app.py:52 | An absolute second argument is the result. Otherwise the result is the first argument followed by the second. A `/` goes between them exactly when the first is non-empty and does not already end in `/`. |
| `PosixPath.BasenameOfJoined` | app.py:52 | Joining a name under a directory does not change its final component. |
| `PosixPath.BasenameIsLast` | app.py:52 | A final component without `/`, alone or after a directory, is the final component of the path. |
| `TarRewrite.Relative` | app.py:61 | The result is the suffix of the name that follows its first `/`. No `/` occurs before that point. |
| `TarRewrite.Rerooted` | app.py:62 | The name starts with the new root. It is the new root alone exactly when the relative path is empty. Otherwise a `/` follows the root, and the relative path follows that `/`. |
| `TarRewrite.RewriteMember` | app.py:57-64 | A member is skipped exactly when its name has no `/`. A kept member is renamed to `newRoot`, or to `newRoot/rest` when text follows the first `/`. Type and header fields are kept. Files keep their data. Every other type is written without data. |
| `TarRewrite.RewriteArchive` | app.py:57-64 | The output is no longer than the input. Every output name is `newRoot` or begins with `newRoot/`. |
| `TarRewrite.RewriteArchiveOrder` | app.py:57-64 | The kept members are those whose name holds a `/`, taken at increasing positions. The `j`-th output member is the rewrite of the `j`-th kept member, and there are no other output members. |
| `TarRewrite.RewriteArchiveAppend` | app.py:57 | Rewriting distributes over concatenation of archives, because the loop handles each member on its own. |
| `TarRewrite.RelativePreserved` | app.py:61-62 | Take a new root without `/`. The rewritten name has a `/` exactly when the original has text after its first `/`. When it does, that text is the same in both names. |
| `TarRewrite.RewriteTwice` | app.py:58-62 | Take a member with text after the first `/` of its name, and a root `r1` without `/`. Re-rooting it under `r1` and then under `r2` gives the same result as re-rooting it under `r2` alone. |
| `TarRewrite.RewriteRootedArchive` | app.py:57-64 | Take an archive whose member names all start with `oldRoot/`, where `oldRoot` has no `/`. No member is lost. Each member keeps its position, type and header fields, and moves under the new root with the same path below it. |
| `TarRewrite.RootEntryDropped` | app.py:58-60 | A first member whose name has no `/` leaves no trace in the rewritten archive. |
| `TarRewrite.RewriteRepositoryArchive` | app.py:57-64 | Take a repository archive as `tarfile` lists it: the top-level entry `oldRoot`, then members whose names start with `oldRoot/`. The top-level entry is dropped. Every other member is kept, in order, with its type and header fields, under the new root with the same path below it. |
| `Fetch.StripTrailingSlashes` | app.py:24 | The result is a prefix of the URL and does not end in `/`. |
| `Fetch.StrippedOnlySlashes` | app.py:24 | Every character the stripping removed is a `/`. |
| `Fetch.RepoName` | app.py:30 | The repository name has no `/`. It is a suffix of the stripped URL, preceded there by a `/` or by nothing. |
| `Fetch.ArchiveUrl` | app.py:31 | The URL starts with `stripped/-/archive/branch/` and ends with `.tar.gz`. |
| `Fetch.ArchiveUrlIgnoresTrailingSlash` | app.py:24-31 | A trailing `/` on the repository URL does not change the archive URL. |
| `Fetch.ArchiveUrlOf` | app.py:24-31 | For `host/name`, with `name` non-empty and free of `/`, the archive URL is `host/name/-/archive/branch/name-branch.tar.gz`. |
| `Fetch.Accepts` | app.py:40 | A response is accepted exactly when its status is 200 and `html` occurs at no position of its Content-Type. A missing header counts as empty. |
| `Fetch.MissingContentType` | app.py:40 | A missing Content-Type is read as empty, so only the status decides. |
| `Fetch.NonOkRejected` | app.py:40 | Any status other than 200 is refused, whatever the content type. |
| `Fetch.HtmlPageRejected` | app.py:40 | A status-200 response whose Content-Type contains `html` is refused. |
| `App.NewRoot` | app.py:53 | The new root is a prefix of the stripped output name. The rest is empty or one extension. The root equals the whole stripped name exactly when that name has no extension. |
| `App.NewRootDropsExtension` | app.py:53 | A stripped output name such as `project.tar` gives the root `project`. |
| `App.DownloadAndConvert` | app.py:21-64 | `tar_file_name` becomes the stripped output name whatever happens next. The requested URL is the derived archive URL. A request that raised gives `RequestFailed`. A refused response gives `Rejected`. An accepted response that does not decode gives `MalformedArchive`. Otherwise, when the output path names no file, the result is `Unwritable` at that path. A path names no file when its final component is empty, `.` or `..`, or when it holds a NUL. In every other case the result is `Converted`: the rewritten member list is written at the output path. |
| `App.PreviousStateIgnored` | app.py:22-28 | The previous `tar_file_name` has no influence on a run. |
| `App.RejectedStillRenames` | app.py:27-44 | A failed request or a refused download writes nothing, yet it has already replaced `tar_file_name`. |
| `App.OutputPath` | app.py:52 | A relative output name is written as `downloads/<name>`. An absolute one is used as it stands. The path names no file exactly when the output name alone does: its final component is empty, `.` or `..`, or it holds a NUL. |
| `App.DirectoryNameUnwritable` | app.py:52-56 | For an accepted, decodable archive, an output name that is empty, `.` or `..`, or that ends in `/`, `/.` or `/..`, gives `Unwritable` and writes nothing. |
| `App.ConvertRepositoryArchive` | app.py:55-64 | For an accepted archive whose first member is a top-level entry without `/`, that entry is not written. When the output path can name a file, the written members are exactly the rewrites of the members after it. |

## Left out

- The Flask routes `index` and `download` (`app.py:69-75`) and the server start-up (`app.py:77-80`) are web plumbing.
- `load_config` (`app.py:17-19`) and `os.makedirs` (`app.py:13`) are file-system I/O. The configuration is a plain record given to `App.DownloadAndConvert`.
- The HTTP request and its headers (`app.py:34-39`) are network I/O. The response's status, Content-Type and decoded member list are inputs. Because of this, the access token has no effect in the model.
- Gzip decompression, the temporary file and `os.remove` (`app.py:46-50`, `app.py:66`) are library and file-system calls. A body that does not decode becomes the `MalformedArchive` outcome. In the code this is an exception escaping the function.
- The tar encoding that `tarfile` reads and writes, including the GNU long-name format (`app.py:55-56`), is outside the model. Member names are taken as `tarfile` reports them. `tarfile` removes the trailing `/` of a directory's name, so a repository archive's top-level entry arrives as `oldRoot` alone. The model does not itself remove trailing slashes; it takes the names as given.
- `App.DownloadAndConvert` does not model a failure part-way through the member loop. The code would leave a partially written output file.
- `App.DownloadAndConvert` takes a configuration record that holds all four keys. A missing key raises `KeyError` at `app.py:24-27`. A non-string `repo_url` or `output_name` raises `AttributeError` at `.rstrip` (`app.py:24`) or `.strip` (`app.py:27`). All of these happen before `app.py:28`, so `tar_file_name` would be left unchanged. The record type cannot express these cases. `branch` and `access_token` only go into f-strings (`app.py:31`, `app.py:36`), so any JSON value works there. The model takes, for each of them, the string that formatting produces.
- `App.DownloadAndConvert` does not model a request that never returns: `app.py:39` passes no timeout.
- `App.DownloadAndConvert` models the output-path failures that the name alone decides: a final component that is empty, `.` or `..`, or a NUL in the name. Failures that depend on the file system are not modelled. Examples are a missing subdirectory for a name such as `a/b`, a directory without write permission, or a final component longer than the file system allows.
- `App.DownloadAndConvert` takes every decoding failure to happen at `app.py:47-55`, before the output file is opened, and reports it as `MalformedArchive` with nothing written. Some tar errors only surface in `getmembers()` at `app.py:57`, after `app.py:56` has opened the output path with mode `"w"`. Examples are member data cut short at the end of the archive, or a bad header after a GNU long-name header. In those cases the code leaves an empty output file, which replaces any earlier archive of that name. If the name also names no file, the code raises at `app.py:56` instead.
- The diagnostic `print` calls (`app.py:32`, `app.py:41-43`, `app.py:67`) are logging only.
- Member types: the model treats every type that `tarfile` reports as a file (regular, contiguous, sparse) as one `File` kind. `Kind` cannot express a member type that `tarfile` does not know. Such a member is not `isfile()`, so `app.py:63-64` would write its header, with its original size, and no data, which corrupts the output.
