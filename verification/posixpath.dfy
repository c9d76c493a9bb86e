/**
 * The two `os.path` functions the rewriter calls, with the semantics of
 * Python's POSIX flavour (`posixpath`): `splitext` and `join`.
 */
module PosixPath {
  import opened PyStr
  import opened Seqs

  /** `posixpath.basename`: the final path component, everything after the last `/`. */
  function Basename(p: string): string {
    AfterLast(p, '/')
  }

  /** The final component of `a/n` is that of `n`: joining under a directory does not change it. */
  lemma BasenameOfJoined(a: string, n: string)
    ensures Basename(a + "/" + n) == Basename(n)
  {
    var u := a + "/" + n;
    var off := |a| + 1;
    var i := RFind(n, '/');
    forall k | off + i < k < |u| ensures u[k] != '/' {
      assert u[k] == n[k - off];
    }
    if i >= 0 {
      assert u[off + i] == n[i];
      RFindAt(u, '/', off + i);
    } else {
      RFindAt(u, '/', |a|);
    }
    assert u[RFind(u, '/') + 1..] == n[i + 1..];
  }

  /** A final component without `/`, alone or after a directory, is the basename. */
  lemma BasenameIsLast(p: string, dir: string, last: string)
    requires '/' !in last
    requires p == last || p == dir + "/" + last
    ensures Basename(p) == last
  {
    RFindFound(last, '/');
    BasenameOfJoined(dir, last);
  }

  /**
   * The path has an extension: once the leading dots of its final component
   * are set aside, a `.` remains in that component.
   */
  predicate HasExtension(p: string) {
    '.' in TrimLeft(Basename(p), Only('.'))
  }

  /**
   * The loop of `splitext` that walks over the leading dots of the final
   * component: some character in `p[from..dot]` is not a dot.
   */
  predicate NonDotBefore(p: string, from: nat, dot: nat)
    requires dot <= |p|
    decreases dot - from
  {
    if from >= dot then false
    else if p[from] != '.' then true
    else NonDotBefore(p, from + 1, dot)
  }

  /** A non-dot at `k`, between `from` and `dot`, is what the leading-dot loop looks for. */
  lemma {:induction false} NonDotAt(p: string, from: nat, dot: nat, k: nat)
    requires from <= k < dot <= |p| && p[k] != '.'
    ensures NonDotBefore(p, from, dot)
    decreases k - from
  {
    if p[from] == '.' {
      NonDotAt(p, from + 1, dot, k);
    }
  }

  /** When the leading-dot loop succeeds, it has seen a non-dot between `from` and `dot`. */
  lemma {:induction false} NonDotWitness(p: string, from: nat, dot: nat) returns (k: nat)
    requires dot <= |p| && NonDotBefore(p, from, dot)
    ensures from <= k < dot && p[k] != '.'
    decreases dot - from
  {
    if p[from] != '.' {
      k := from;
    } else {
      k := NonDotWitness(p, from + 1, dot);
    }
  }

  /**
   * `posixpath.splitext(p)`: `(root, ext)` where `ext` runs from the last
   * `.` of the final component to the end, unless every character of the
   * component before that `.` is itself a dot, in which case `ext` is empty.
   */
  function SplitExt(p: string): (r: (string, string))
    ensures r.0 + r.1 == p
    ensures r.1 == [] || (r.1[0] == '.' && '.' !in r.1[1..] && '/' !in r.1)
  {
    var sepIndex := RFind(p, '/');
    var dotIndex := RFind(p, '.');
    if dotIndex > sepIndex && NonDotBefore(p, sepIndex + 1, dotIndex) then
      ExtensionShape(p);
      (p[..dotIndex], p[dotIndex..])
    else
      (p, "")
  }

  /** Cut at the last `.`, when that follows the last `/`, `p` ends in a `.` followed by neither `.` nor `/`. */
  lemma ExtensionShape(p: string)
    requires RFind(p, '.') > RFind(p, '/')
    ensures var d := RFind(p, '.');
      p[..d] + p[d..] == p && p[d..][0] == '.' && '.' !in p[d..][1..] && '/' !in p[d..]
  {
    var d := RFind(p, '.');
    AfterRFindFree(p, '.');
    AfterRFindFree(p, '/');
    SuffixFree(p, '/', RFind(p, '/') + 1, d + 1);
    assert p[d..][1..] == p[d + 1..];
    assert p == p[..d] + p[d..];
  }

  /** `splitext` finds an extension exactly when the path has one in the sense of `HasExtension`. */
  lemma SplitExtFindsExtension(p: string)
    ensures SplitExt(p).1 != [] <==> HasExtension(p)
  {
    if HasExtension(p) {
      ExtensionFound(p);
    }
    if SplitExt(p).1 != [] {
      ExtensionExists(p);
    }
  }

  /** A `.` left after trimming leading dots lies after a non-dot. */
  lemma TrimmedDot(b: string) returns (j: nat, d: nat)
    requires '.' in TrimLeft(b, Only('.'))
    ensures j < d < |b| && b[j] != '.' && b[d] == '.'
  {
    var t := TrimLeft(b, Only('.'));
    j := |b| - |t|;
    IndexOfFound(t, '.');
    var m := IndexOf(t, '.');
    d := j + m;
    assert b[j] == t[0] && b[d] == t[m];
  }

  /** Position `i` of the final component is position `k = RFind(p, '/') + 1 + i` of the path. */
  lemma InBasename(p: string, i: nat, k: int)
    requires i < |Basename(p)| && k == RFind(p, '/') + 1 + i
    ensures 0 <= k < |p| && p[k] == Basename(p)[i]
  {
  }

  /** A path with an extension has, after its last `/`, a non-dot followed later by a dot. */
  lemma NonDotThenDot(p: string) returns (k: nat, d: nat)
    requires HasExtension(p)
    ensures RFind(p, '/') < k < d < |p| && p[k] != '.' && p[d] == '.'
  {
    var j, e := TrimmedDot(Basename(p));
    k, d := RFind(p, '/') + 1 + j, RFind(p, '/') + 1 + e;
    InBasename(p, j, k);
    InBasename(p, e, d);
  }

  lemma ExtensionFound(p: string)
    requires HasExtension(p)
    ensures SplitExt(p).1 != []
  {
    var k, d := NonDotThenDot(p);
    RFindBeforeAtLeast(p, '.', |p|, d);
    NonDotAt(p, RFind(p, '/') + 1, RFind(p, '.'), k);
    SplitExtAt(p, RFind(p, '.'));
  }

  /** A non-empty extension comes from a `.` after the last `/` with a non-dot before it in the final component. */
  lemma SplitExtCut(p: string)
    requires SplitExt(p).1 != []
    ensures RFind(p, '.') > RFind(p, '/') && NonDotBefore(p, RFind(p, '/') + 1, RFind(p, '.'))
  {
  }

  lemma ExtensionExists(p: string)
    requires SplitExt(p).1 != []
    ensures HasExtension(p)
  {
    var s := RFind(p, '/');
    var d := RFind(p, '.');
    SplitExtCut(p);
    var k := NonDotWitness(p, s + 1, d);
    assert |Basename(p)| == |p| - s - 1;
    InBasename(p, k - s - 1, k);
    InBasename(p, d - s - 1, d);
    DotSurvivesTrim(Basename(p), k - s - 1, d - s - 1);
  }

  /** A dot that follows some non-dot character is not removed by trimming leading dots. */
  lemma DotSurvivesTrim(b: string, k: nat, d: nat)
    requires k < d < |b|
    requires b[k] != '.' && b[d] == '.'
    ensures '.' in TrimLeft(b, Only('.'))
  {
    var t := TrimLeft(b, Only('.'));
    var j := |b| - |t|;
    if k < j {
      TrimLeftDropped(b, Only('.'), k);
    }
    assert t[d - j] == b[d];
  }

  /**
   * In `root.e`, with neither `.` nor `/` in `e`, the last `/` is that of
   * `root` and the last `.` the one before `e`, so cutting there gives back
   * `root` and `.e`.
   */
  lemma LastSlashAndDot(root: string, e: string)
    requires '.' !in e && '/' !in e
    ensures RFind(root + "." + e, '/') == RFind(root, '/')
    ensures RFind(root + "." + e, '.') == |root|
    ensures (root + "." + e)[..|root|] == root && (root + "." + e)[|root|..] == "." + e
  {
    var p := root + "." + e;
    assert p == root + ("." + e);
    forall k | |root| < k < |p| ensures p[k] != '.' && p[k] != '/' {
      assert p[k] == e[k - |root| - 1];
    }
    assert p[|root|] == '.';
    RFindBeforeSkip(p, '.', |root| + 1, |p|);
    RFindBeforeSkip(p, '/', |root|, |p|);
    RFindBeforeSamePrefix(p, root, '/', |root|);
  }

  /** When the final component of `root` is not all dots, it has a non-dot at the position trimming stops at. */
  lemma FirstNonDot(root: string)
    requires TrimLeft(Basename(root), Only('.')) != []
    ensures var k := RFind(root, '/') + 1 + |Basename(root)| - |TrimLeft(Basename(root), Only('.'))|;
      RFind(root, '/') + 1 <= k < |root| && root[k] != '.'
  {
    var s := RFind(root, '/');
    var b := Basename(root);
    var t := TrimLeft(b, Only('.'));
    var j := |b| - |t|;
    assert b == root[s + 1..] && t == b[j..];
    assert root[s + 1 + j] == b[j] == t[0];
  }

  /** When the last `.` follows the last `/` and a non-dot precedes it in the final component, `splitext` cuts at that `.`. */
  lemma SplitExtAt(p: string, d: int)
    requires d == RFind(p, '.') && d > RFind(p, '/')
    requires NonDotBefore(p, RFind(p, '/') + 1, d)
    ensures SplitExt(p) == (p[..d], p[d..])
  {
  }

  /**
   * `splitext` on `root.e`: when the final component of `root` is not all
   * dots and `e` holds neither `.` nor `/`, the root is `root` and the
   * extension `.e` (so `archive.tar` splits as `archive` and `.tar`).
   */
  lemma SplitExtOf(root: string, e: string)
    requires TrimLeft(Basename(root), Only('.')) != []
    requires '.' !in e && '/' !in e
    ensures SplitExt(root + "." + e) == (root, "." + e)
  {
    var p := root + "." + e;
    LastSlashAndDot(root, e);
    FirstNonDot(root);
    var k := RFind(root, '/') + 1 + |Basename(root)| - |TrimLeft(Basename(root), Only('.'))|;
    assert p[k] == root[k];
    NonDotAt(p, RFind(root, '/') + 1, |root|, k);
    SplitExtAt(p, |root|);
  }

  /**
   * `posixpath.join(a, b)` for two components: an absolute `b` replaces
   * `a`; otherwise `b` is appended to `a`, with a `/` between them unless
   * `a` is empty or already ends in one.
   */
  function PathJoin(a: string, b: string): (r: string)
    ensures |b| <= |r| && r[|r| - |b|..] == b
    ensures b != [] && b[0] == '/' ==> r == b
    ensures (b == [] || b[0] != '/') && a != [] && a[|a| - 1] != '/' ==> r == a + "/" + b
    ensures (b == [] || b[0] != '/') && (a == [] || a[|a| - 1] == '/') ==> r == a + b
  {
    if |b| > 0 && b[0] == '/' then b
    else if a == [] || a[|a| - 1] == '/' then a + b
    else a + "/" + b
  }
}
