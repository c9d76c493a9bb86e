/**
 * The member loop of `download_and_convert`: every member of the fetched
 * archive whose name holds a `/` is re-rooted under a new top-level name
 * and copied to the output archive; the others are dropped.
 */
module TarRewrite {
  import opened Wrappers
  import opened PyStr
  import opened Seqs

  newtype byte = x: int | 0 <= x < 256

  /**
   * Tar member types. `File` stands for every type Python's `tarfile`
   * reports through `isfile()`: regular, contiguous and sparse files.
   */
  datatype Kind = File | Directory | Symlink | HardLink | CharDevice | BlockDevice | Fifo

  /** Header fields other than the name; the rewrite carries them across untouched. */
  datatype Meta = Meta(
    mode: nat, uid: nat, gid: nat, size: nat, mtime: int,
    linkName: string, userName: string, groupName: string)

  /** One archive member: its path, type, header fields and, for files, its data. */
  datatype Member = Member(name: string, kind: Kind, meta: Meta, content: Option<seq<byte>>)

  /** The path below the first segment of `name`: everything after its first `/`. */
  function Relative(name: string): (rel: string)
    requires '/' in name
    ensures |rel| < |name| && rel == name[|name| - |rel|..]
    ensures '/' !in name[..|name| - |rel| - 1] && name[|name| - |rel| - 1] == '/'
  {
    IndexOfFound(name, '/');
    name[IndexOf(name, '/') + 1..]
  }

  /**
   * The name under `newRoot` of a member whose path below its first segment
   * is `rel`: `newRoot` alone when `rel` is empty, otherwise `newRoot`, a
   * `/` and `rel`.
   */
  function Rerooted(newRoot: string, rel: string): (name: string)
    ensures newRoot <= name
    ensures name == newRoot <==> rel == []
    ensures rel != [] ==> |name| == |newRoot| + 1 + |rel| && name[|newRoot|] == '/' && name[|newRoot| + 1..] == rel
  {
    if rel == [] then newRoot else newRoot + "/" + rel
  }

  /**
   * One iteration of the loop: split the name on `/`, skip it when there
   * is a single segment, otherwise put `newRoot` in place of the first
   * segment (the name is `newRoot` alone when nothing follows the first
   * `/`), keep the data of files and write every other type without data.
   */
  function RewriteMember(m: Member, newRoot: string): (r: Option<Member>)
    ensures r.None? <==> '/' !in m.name
    ensures r.Some? ==> r.value.name == Rerooted(newRoot, Relative(m.name))
    ensures r.Some? ==> r.value.kind == m.kind && r.value.meta == m.meta
    ensures r.Some? && m.kind == File ==> r.value.content == m.content
    ensures r.Some? && m.kind != File ==> r.value.content == None
  {
    var parts := Split(m.name, '/');
    if |parts| < 2 then None
    else
      var rest := Join(parts[1..], '/');
      IndexOfFound(m.name, '/');
      JoinSplitTail(m.name, '/');
      var name := if rest != "" then newRoot + "/" + rest else newRoot;
      var data := if m.kind == File then m.content else None;
      Some(m.(name := name, content := data))
  }

  /** The loop body as a function value, for the generic pass in `Seqs`. */
  function Rewriter(newRoot: string): Member -> Option<Member> {
    m => RewriteMember(m, newRoot)
  }

  /**
   * The whole loop: the members visited in archive order, the rewritten
   * ones appended to the output archive, the single-segment ones skipped.
   * Every output name is `newRoot` itself or starts with `newRoot + "/"`.
   */
  function RewriteArchive(ms: seq<Member>, newRoot: string): (out: seq<Member>)
    ensures |out| <= |ms|
    ensures forall j :: 0 <= j < |out| ==>
      newRoot <= out[j].name && (|out[j].name| == |newRoot| || out[j].name[|newRoot|] == '/')
  {
    var out := FilterMap(ms, Rewriter(newRoot));
    FilterMapAlignment(ms, Rewriter(newRoot));
    out
  }

  /**
   * The output archive in full: with `ks` the positions of the members
   * whose name holds a `/`, in increasing order, the `j`-th output member
   * is the rewrite of the member at `ks[j]`, and there are no others.
   */
  lemma RewriteArchiveOrder(ms: seq<Member>, newRoot: string)
    ensures var ks := KeptIndices(ms, Rewriter(newRoot));
      && |RewriteArchive(ms, newRoot)| == |ks|
      && (forall j, k :: 0 <= j < k < |ks| ==> ks[j] < ks[k])
      && (forall i :: 0 <= i < |ms| ==> (i in ks <==> '/' in ms[i].name))
      && (forall j :: 0 <= j < |ks| ==> ks[j] < |ms| && RewriteMember(ms[ks[j]], newRoot) == Some(RewriteArchive(ms, newRoot)[j]))
  {
    FilterMapAlignment(ms, Rewriter(newRoot));
  }

  /** Rewriting is done member by member: it distributes over concatenation of archives. */
  lemma RewriteArchiveAppend(a: seq<Member>, b: seq<Member>, newRoot: string)
    ensures RewriteArchive(a + b, newRoot) == RewriteArchive(a, newRoot) + RewriteArchive(b, newRoot)
  {
    FilterMapAppend(a, b, Rewriter(newRoot));
  }

  /** The path below the first segment of `root/rel`, for a single-segment `root`, is `rel`. */
  lemma RelativeOfJoined(root: string, rel: string)
    requires '/' !in root
    ensures '/' in root + "/" + rel
    ensures Relative(root + "/" + rel) == rel
  {
    var n := root + "/" + rel;
    forall k | 0 <= k < |root| ensures n[k] != '/' {
      assert n[k] == root[k];
    }
    IndexFromFirst(n, '/', 0, |root|);
    assert n[|root| + 1..] == rel;
  }

  /**
   * When the new root holds no `/`, the path below the root survives the
   * rewrite: the rewritten name holds a `/` exactly when the original had a
   * non-empty path below its first segment, and then that path is the same.
   */
  lemma RelativePreserved(m: Member, newRoot: string)
    requires '/' !in newRoot && '/' in m.name
    ensures var n := RewriteMember(m, newRoot).value.name;
      && ('/' in n <==> Relative(m.name) != [])
      && ('/' in n ==> Relative(n) == Relative(m.name))
  {
    var rel := Relative(m.name);
    var n := RewriteMember(m, newRoot).value.name;
    if rel != [] {
      RelativeOfJoined(newRoot, rel);
    }
  }

  /**
   * Re-rooting twice is re-rooting once under the second root, for members
   * with something below their first segment and a first root free of `/`.
   */
  lemma RewriteTwice(m: Member, root1: string, root2: string)
    requires '/' !in root1 && '/' in m.name && Relative(m.name) != []
    ensures RewriteMember(m, root1).Some?
    ensures RewriteMember(RewriteMember(m, root1).value, root2) == RewriteMember(m, root2)
  {
    RelativePreserved(m, root1);
  }

  /**
   * An archive whose every member's name starts with `oldRoot/` loses no
   * member: each one keeps its place and the path below the old root, now
   * under `newRoot`. A repository archive also holds the entry `oldRoot`
   * itself; `RewriteRepositoryArchive` covers that shape.
   */
  lemma RewriteRootedArchive(ms: seq<Member>, oldRoot: string, newRoot: string)
    requires '/' !in oldRoot
    requires forall i :: 0 <= i < |ms| ==> oldRoot + "/" <= ms[i].name
    ensures |RewriteArchive(ms, newRoot)| == |ms|
    ensures forall i :: 0 <= i < |ms| ==>
      && RewriteArchive(ms, newRoot)[i].name == Rerooted(newRoot, ms[i].name[|oldRoot| + 1..])
      && RewriteArchive(ms, newRoot)[i].kind == ms[i].kind
      && RewriteArchive(ms, newRoot)[i].meta == ms[i].meta
  {
    var out := RewriteArchive(ms, newRoot);
    forall i | 0 <= i < |ms| ensures Rewriter(newRoot)(ms[i]).Some? {
      RewriteRootedMember(ms[i], oldRoot, newRoot);
    }
    KeptAll(ms, Rewriter(newRoot));
    FilterMapAlignment(ms, Rewriter(newRoot));
    forall i | 0 <= i < |ms|
      ensures && out[i].name == Rerooted(newRoot, ms[i].name[|oldRoot| + 1..])
        && out[i].kind == ms[i].kind
        && out[i].meta == ms[i].meta
    {
      assert KeptIndices(ms, Rewriter(newRoot))[i] == i;
      RewriteRootedMember(ms[i], oldRoot, newRoot);
    }
  }

  /** A member named `oldRoot/rel`, for a single-segment `oldRoot`, is kept and renamed to `newRoot` with `rel` below it. */
  lemma RewriteRootedMember(m: Member, oldRoot: string, newRoot: string)
    requires '/' !in oldRoot && oldRoot + "/" <= m.name
    ensures Rewriter(newRoot)(m) == RewriteMember(m, newRoot)
    ensures RewriteMember(m, newRoot).Some?
    ensures RewriteMember(m, newRoot).value.name == Rerooted(newRoot, m.name[|oldRoot| + 1..])
  {
    var rel := m.name[|oldRoot| + 1..];
    assert m.name == oldRoot + "/" + rel;
    RelativeOfJoined(oldRoot, rel);
  }

  /**
   * A repository archive as `tarfile` lists it: first the top-level
   * directory entry, named `oldRoot` with no `/`, then members whose names
   * all start with `oldRoot/`. The top-level entry is dropped; every other
   * member is kept, in order, with its type and header fields, under
   * `newRoot` with the same path below the root.
   */
  lemma RewriteRepositoryArchive(root: Member, rooted: seq<Member>, oldRoot: string, newRoot: string)
    requires root.name == oldRoot && '/' !in oldRoot
    requires forall i :: 0 <= i < |rooted| ==> oldRoot + "/" <= rooted[i].name
    ensures RewriteArchive([root] + rooted, newRoot) == RewriteArchive(rooted, newRoot)
    ensures |RewriteArchive([root] + rooted, newRoot)| == |rooted|
    ensures forall i :: 0 <= i < |rooted| ==>
      && RewriteArchive([root] + rooted, newRoot)[i].name == Rerooted(newRoot, rooted[i].name[|oldRoot| + 1..])
      && RewriteArchive([root] + rooted, newRoot)[i].kind == rooted[i].kind
      && RewriteArchive([root] + rooted, newRoot)[i].meta == rooted[i].meta
  {
    RootEntryDropped(root, rooted, newRoot);
    RewriteRootedArchive(rooted, oldRoot, newRoot);
  }

  /** A leading member whose name has no `/` leaves no trace in the output. */
  lemma RootEntryDropped(root: Member, rest: seq<Member>, newRoot: string)
    requires '/' !in root.name
    ensures RewriteArchive([root] + rest, newRoot) == RewriteArchive(rest, newRoot)
  {
    RewriteArchiveAppend([root], rest, newRoot);
    assert RewriteMember(root, newRoot).None?;
    assert [root][..0] == [];
  }
}
