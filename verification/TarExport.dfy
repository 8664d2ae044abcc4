/** Exporting a filesystem as a tar stream. The walk calls back once per entry, a directory
    before its contents, and leaves out the contents of a directory for which the callback
    answered to break. A file with several links is written once; the other links refer to it
    by path. */
module TarExport {
  import opened Common

  type Path = seq<string>

  datatype Meta = Meta(mode: nat, uid: nat, gid: nat)

  /** Device and inode number. */
  type Key = (nat, nat)

  datatype Node =
    | DirNode
    | FileNode(key: Key, nlink: nat, content: string)
    | LinkNode(target: string)
    | SpecialNode

  /** One call of the walk. The root of the walk has the empty path. */
  datatype Visit = Visit(path: Path, meta: Meta, node: Node)

  datatype TarEntry =
    | TarDir(path: Path, meta: Meta)
    | TarRegular(path: Path, meta: Meta, content: string)
    | TarHardLink(path: Path, meta: Meta, first: Path)
    | TarSymlink(path: Path, meta: Meta, target: string)

  const SKIP_PATHS: seq<Path> := [["sysroot", "ostree"], ["tmp"], ["var", "tmp"]]

  predicate Skipped(p: Path) {
    SKIP_PATHS[0] <= p || SKIP_PATHS[1] <= p || SKIP_PATHS[2] <= p
  }

  /** What is skipped: /tmp, /var/tmp and /sysroot/ostree, each with all that lies in it. */
  lemma SkippedIff(p: Path)
    ensures Skipped(p) <==>
            || (|p| >= 1 && p[0] == "tmp")
            || (|p| >= 2 && p[0] == "var" && p[1] == "tmp")
            || (|p| >= 2 && p[0] == "sysroot" && p[1] == "ostree")
  {
    PrefixOfTwo("sysroot", "ostree", p);
    PrefixOfTwo("var", "tmp", p);
    assert ["tmp"] <= p <==> |p| >= 1 && p[0] == "tmp";
  }

  lemma PrefixOfTwo(a: string, b: string, p: Path)
    ensures [a, b] <= p <==> |p| >= 2 && p[0] == a && p[1] == b
  {
    if |p| >= 2 {
      assert p[..2] == [p[0], p[1]];
    }
  }

  predicate Exported(v: Visit) {
    v.path != [] && !Skipped(v.path)
  }

  function Kept(walk: seq<Visit>): seq<Visit> {
    if walk == [] then []
    else Kept(walk[..|walk| - 1]) + if Exported(walk[|walk| - 1]) then [walk[|walk| - 1]] else []
  }

  predicate IsLinked(v: Visit, key: Key) {
    v.node.FileNode? && v.node.nlink > 1 && v.node.key == key
  }

  /** Index of the first of the first `n` visits to a multiply linked file with this key. */
  function FirstSeen(vs: seq<Visit>, key: Key, n: nat): (r: Option<nat>)
    requires n <= |vs|
    ensures r.Some? ==> r.value < n && IsLinked(vs[r.value], key)
    ensures r.Some? ==> forall i :: 0 <= i < r.value ==> !IsLinked(vs[i], key)
    ensures r.None? <==> forall i :: 0 <= i < n ==> !IsLinked(vs[i], key)
  {
    if n == 0 then None
    else
      var r := FirstSeen(vs, key, n - 1);
      if r.Some? then r else if IsLinked(vs[n - 1], key) then Some(n - 1) else None
  }

  /** The entry written for the visit at `i`. */
  function EntryAt(vs: seq<Visit>, i: nat): TarEntry
    requires i < |vs| && !vs[i].node.SpecialNode?
  {
    var v := vs[i];
    match v.node
    case DirNode => TarDir(v.path, v.meta)
    case LinkNode(t) => TarSymlink(v.path, v.meta, t)
    case FileNode(key, nlink, content) =>
      var first := if nlink > 1 then FirstSeen(vs, key, i) else None;
      if first.Some? then TarHardLink(v.path, v.meta, vs[first.value].path) else TarRegular(v.path, v.meta, content)
  }

  predicate NoSpecial(vs: seq<Visit>) {
    forall i :: 0 <= i < |vs| ==> !vs[i].node.SpecialNode?
  }

  function Entries(vs: seq<Visit>, n: nat): (r: seq<TarEntry>)
    requires n <= |vs| && NoSpecial(vs)
    ensures |r| == n
    ensures forall i :: 0 <= i < n ==> r[i] == EntryAt(vs, i)
  {
    if n == 0 then [] else Entries(vs, n - 1) + [EntryAt(vs, n - 1)]
  }

  // -- The export.

  datatype Flow = Continue | Break | Fail

  class Exporter {
    var hardlinks: map<Key, Path>
    var out: seq<TarEntry>

    constructor ()
      ensures hardlinks == map[] && out == []
    {
      hardlinks, out := map[], [];
    }

    ghost predicate Follows(done: seq<Visit>)
      reads this
    {
      NoSpecial(done) && out == Entries(done, |done|) && IsTable(hardlinks, done)
    }

    method AddFile(v: Visit, ghost done: seq<Visit>)
      requires v.node.FileNode? && Follows(done)
      modifies this
      ensures Follows(done + [v])
    {
      EntriesSnoc(done, v);
      TableSnoc(hardlinks, done, v);
      if v.node.nlink > 1 {
        var key := v.node.key;
        if key in hardlinks {
          out := out + [TarHardLink(v.path, v.meta, hardlinks[key])];
          return;
        }
        hardlinks := hardlinks[key := v.path];
      }
      out := out + [TarRegular(v.path, v.meta, v.node.content)];
    }

    method AddOther(v: Visit, ghost done: seq<Visit>)
      requires (v.node.DirNode? || v.node.LinkNode?) && Follows(done)
      modifies this
      ensures Follows(done + [v])
    {
      EntriesSnoc(done, v);
      TableSnoc(hardlinks, done, v);
      match v.node {
        case DirNode => out := out + [TarDir(v.path, v.meta)];
        case LinkNode(t) => out := out + [TarSymlink(v.path, v.meta, t)];
      }
    }

    /** The callback of the walk. */
    method OnVisit(v: Visit, ghost done: seq<Visit>) returns (flow: Flow)
      requires Follows(done)
      modifies this
      ensures flow.Fail? <==> Exported(v) && v.node.SpecialNode?
      ensures !flow.Fail? ==> Follows(if Exported(v) then done + [v] else done)
      ensures flow.Break? ==> Skipped(v.path)
    {
      if v.path == [] { return Continue; }
      if Skipped(v.path) {
        return if v.node.DirNode? then Break else Continue;
      }
      flow := Continue;
      match v.node {
        case FileNode(_, _, _) => AddFile(v, done);
        case SpecialNode => flow := Fail;
        case _ => AddOther(v, done);
      }
    }

    /** The whole walk. It fails exactly if an entry that is not skipped is of another kind, and
        otherwise writes one entry for each visit that is not skipped, in order. */
    method ExportWalk(walk: seq<Visit>) returns (ok: bool)
      requires Follows([])
      modifies this
      ensures ok <==> NoSpecial(Kept(walk))
      ensures ok ==> out == Entries(Kept(walk), |Kept(walk)|)
    {
      var broken: seq<Path> := [];
      for i := 0 to |walk|
        invariant Follows(Kept(walk[..i]))
        invariant forall b :: b in broken ==> Skipped(b)
      {
        KeptStep(walk, i);
        if exists b :: b in broken && b <= walk[i].path {
          BelowSkipped(broken, walk[i].path);
          continue;
        }
        var flow := OnVisit(walk[i], Kept(walk[..i]));
        if flow.Fail? {
          KeptGrows(walk, i);
          return false;
        }
        if flow.Break? { broken := broken + [walk[i].path]; }
      }
      assert walk[..|walk|] == walk;
      ok := true;
    }
  }

  lemma KeptStep(walk: seq<Visit>, i: nat)
    requires i < |walk|
    ensures Kept(walk[..i + 1]) == if Exported(walk[i]) then Kept(walk[..i]) + [walk[i]] else Kept(walk[..i])
  {
    var w := walk[..i + 1];
    assert w[..|w| - 1] == walk[..i] && w[|w| - 1] == walk[i];
  }

  lemma FirstSeenPrefix(a: seq<Visit>, b: seq<Visit>, key: Key, n: nat)
    requires n <= |a|
    ensures FirstSeen(a + b, key, n) == FirstSeen(a, key, n)
    decreases n
  {
    if n > 0 {
      FirstSeenPrefix(a, b, key, n - 1);
      assert (a + b)[n - 1] == a[n - 1];
    }
  }

  lemma {:induction false} EntriesPrefix(a: seq<Visit>, b: seq<Visit>, n: nat)
    requires n <= |a| && NoSpecial(a + b)
    ensures NoSpecial(a) && Entries(a + b, n) == Entries(a, n)
    decreases n
  {
    assert forall i :: 0 <= i < |a| ==> (a + b)[i] == a[i];
    if n > 0 {
      EntriesPrefix(a, b, n - 1);
      var v := a[n - 1];
      if v.node.FileNode? {
        FirstSeenPrefix(a, b, v.node.key, n - 1);
      }
    }
  }

  lemma EntriesSnoc(done: seq<Visit>, v: Visit)
    requires NoSpecial(done) && !v.node.SpecialNode?
    ensures NoSpecial(done + [v])
    ensures Entries(done + [v], |done| + 1) == Entries(done, |done|) + [EntryAt(done + [v], |done|)]
    ensures v.node.FileNode? ==> FirstSeen(done + [v], v.node.key, |done|) == FirstSeen(done, v.node.key, |done|)
  {
    EntriesPrefix(done, [v], |done|);
    if v.node.FileNode? {
      FirstSeenPrefix(done, [v], v.node.key, |done|);
    }
  }

  /** The table names, for every key seen with several links, the path seen first. */
  ghost predicate IsTable(m: map<Key, Path>, done: seq<Visit>) {
    forall key :: TableAt(m, done, key)
  }

  ghost predicate TableAt(m: map<Key, Path>, done: seq<Visit>, key: Key) {
    var first := FirstSeen(done, key, |done|);
    (key in m <==> first.Some?) && (key in m ==> m[key] == done[first.value].path)
  }

  lemma TableSnoc(m: map<Key, Path>, done: seq<Visit>, v: Visit)
    requires IsTable(m, done)
    ensures var m2 := if v.node.FileNode? && v.node.nlink > 1 && v.node.key !in m then m[v.node.key := v.path] else m;
            IsTable(m2, done + [v])
    ensures v.node.FileNode? ==> TableAt(m, done, v.node.key)
  {
    var m2 := if v.node.FileNode? && v.node.nlink > 1 && v.node.key !in m then m[v.node.key := v.path] else m;
    forall key ensures TableAt(m2, done + [v], key) {
      assert TableAt(m, done, key);
      FirstSeenPrefix(done, [v], key, |done|);
    }
  }

  lemma BelowSkipped(broken: seq<Path>, p: Path)
    requires forall b :: b in broken ==> Skipped(b)
    requires exists b :: b in broken && b <= p
    ensures Skipped(p)
  {
    var b :| b in broken && b <= p;
    assert Skipped(b);
  }

  lemma {:induction false} KeptGrows(walk: seq<Visit>, i: nat)
    requires i < |walk| && Exported(walk[i])
    ensures walk[i] in Kept(walk)
    decreases |walk|
  {
    if i < |walk| - 1 {
      KeptGrows(walk[..|walk| - 1], i);
    }
  }
}
