/**
 * The fetch half of `download_and_convert`: the archive URL derived from
 * the repository URL and branch, and the test that decides whether the
 * server's response is an archive worth unpacking.
 */
module Fetch {
  import opened Wrappers
  import opened PyStr
  import opened Seqs

  /** The only status accepted as a successful download. */
  const StatusOk := 200
  /** A Content-Type containing this text marks an HTML page served instead of the archive. */
  const HtmlMarker := "html"
  /** The path segment between the repository URL and the branch. */
  const ArchivePath := "/-/archive/"
  /** The archive is requested gzip-compressed. */
  const ArchiveSuffix := ".tar.gz"

  /** `repo_url.rstrip("/")`: the URL with every trailing `/` removed. */
  function StripTrailingSlashes(url: string): (r: string)
    ensures |r| <= |url| && r == url[..|r|]
    ensures r == [] || r[|r| - 1] != '/'
  {
    TrimRight(url, Only('/'))
  }

  /** What `StripTrailingSlashes` removes is slashes only. */
  lemma StrippedOnlySlashes(url: string, k: nat)
    requires |StripTrailingSlashes(url)| <= k < |url|
    ensures url[k] == '/'
  {
    TrimRightDropped(url, Only('/'), k);
  }

  /**
   * `repo_url.split("/")[-1]` on the stripped URL: the repository's short
   * name, the text after the last `/`.
   */
  function RepoName(strippedUrl: string): (name: string)
    ensures '/' !in name
    ensures |name| <= |strippedUrl| && name == strippedUrl[|strippedUrl| - |name|..]
    ensures |name| == |strippedUrl| || strippedUrl[|strippedUrl| - |name| - 1] == '/'
  {
    LastPieceIsAfterLast(strippedUrl, '/');
    Last(Split(strippedUrl, '/'))
  }

  /** `{repo_url}/-/archive/{branch}/{repo_name}-{branch}.tar.gz`. */
  function ArchiveUrl(repoUrl: string, branch: string): (url: string)
    ensures StripTrailingSlashes(repoUrl) + ArchivePath + branch + "/" <= url
    ensures |url| >= |ArchiveSuffix| && url[|url| - |ArchiveSuffix|..] == ArchiveSuffix
  {
    var stripped := StripTrailingSlashes(repoUrl);
    var url := stripped + ArchivePath + branch + "/" + RepoName(stripped) + "-" + branch + ArchiveSuffix;
    assert url == (stripped + ArchivePath + branch + "/") + (RepoName(stripped) + "-" + branch + ArchiveSuffix);
    url
  }

  /** Trailing slashes on the repository URL make no difference to the archive URL. */
  lemma ArchiveUrlIgnoresTrailingSlash(repoUrl: string, branch: string)
    ensures ArchiveUrl(repoUrl + "/", branch) == ArchiveUrl(repoUrl, branch)
  {
    TrimRightAppendDropped(repoUrl, Only('/'), '/');
  }

  /** The last `/` of `host/name`, for a `name` without `/`, is the one before `name`. */
  lemma LastSlashBeforeName(host: string, name: string)
    requires '/' !in name
    ensures AfterLast(host + "/" + name, '/') == name
  {
    var u := host + "/" + name;
    forall k | |host| < k < |u| ensures u[k] != '/' {
      assert u[k] == name[k - |host| - 1];
    }
    assert u[|host|] == '/';
    RFindBeforeSkip(u, '/', |host| + 1, |u|);
    assert u[|host| + 1..] == name;
  }

  /**
   * For a repository URL `host/name` with no trailing `/`, the archive is
   * requested at `host/name/-/archive/branch/name-branch.tar.gz`.
   */
  lemma ArchiveUrlOf(host: string, name: string, branch: string)
    requires name != [] && '/' !in name
    ensures ArchiveUrl(host + "/" + name, branch)
      == host + "/" + name + "/-/archive/" + branch + "/" + name + "-" + branch + ".tar.gz"
  {
    var u := host + "/" + name;
    assert u[|u| - 1] == name[|name| - 1];
    TrimRightNoop(u, Only('/'));
    LastPieceIsAfterLast(u, '/');
    LastSlashBeforeName(host, name);
  }

  /**
   * The response check: accepted exactly when the status is 200 and the
   * Content-Type header, read as `""` when absent, has `html` at no
   * position (case-sensitively).
   */
  predicate Accepts(status: int, contentType: Option<string>): (ok: bool)
    ensures ok <==> status == 200 && forall i: nat :: !OccursAt(contentType.GetOr(""), "html", i)
  {
    status == StatusOk && !Contains(contentType.GetOr(""), HtmlMarker)
  }

  /** A response without a Content-Type header is judged by its status alone. */
  lemma MissingContentType(status: int)
    ensures Accepts(status, None) <==> status == 200
  {
  }

  /** Any status other than 200 is refused, whatever the content type. */
  lemma NonOkRejected(status: int, contentType: Option<string>)
    requires status != 200
    ensures !Accepts(status, contentType)
  {
  }

  /** A login or error page served with status 200 is refused. */
  lemma HtmlPageRejected(prefix: string, suffix: string)
    ensures !Accepts(200, Some(prefix + "html" + suffix))
  {
    var ct := prefix + "html" + suffix;
    assert OccursAt(ct, "html", |prefix|) by {
      assert ct[|prefix|..|prefix| + 4] == "html";
    }
  }
}
