/** The live new /etc that a merge writes to: a map from paths to what the filesystem holds
    there, and the filesystem calls that the merge makes on it. The root directory is always
    there and is not a key. Modification times are not kept; a symbolic link has no mode of
    its own. Calls fail for a missing or non-directory parent and for a name that is taken;
    other failures of the system are not part of this model. Only a removal ever meets a
    symbolic link above its path; where the system then leads it is left open. */
module LiveTree {
  import opened Common
  import opened EtcTree

  type Xattrs = map<string, string>

  datatype Obj =
    | DirObj(mode: nat, uid: nat, gid: nat, xattrs: Xattrs)
    | FileObj(mode: nat, uid: nat, gid: nat, xattrs: Xattrs, data: string, verity: Option<string>)
    | LinkObj(uid: nat, gid: nat, xattrs: Xattrs, target: string)

  type Tree = map<Path, Obj>

  datatype IoError = NoEntry | NotADir | AlreadyExists | LinkRefused

  /** Where a path leads: to a path without links above it, nowhere, or to an error. */
  datatype Located = Reaches(path: Path) | Missing | Refused(error: IoError)

  /** Mode and owner that the process gives to what it creates, and where the system leads a
      path that has a symbolic link above it. */
  datatype Host = Host(mode: nat, uid: nat, gid: nat, follow: (Tree, Path) -> Located)

  datatype Io = Done(tree: Tree) | Failed(error: IoError)

  datatype StatResult = Present(obj: Obj) | Absent | Blocked

  predicate FileAbove(m: Tree, p: Path) {
    exists k :: 0 < k < |p| && p[..k] in m && m[p[..k]].FileObj?
  }

  predicate LinkAbove(m: Tree, p: Path) {
    exists k :: 0 < k < |p| && p[..k] in m && m[p[..k]].LinkObj?
  }

  /** A symlink or file stands where a proper ancestor of `p` should be. */
  predicate BlockedAt(m: Tree, p: Path) {
    FileAbove(m, p) || LinkAbove(m, p)
  }

  function Locate(m: Tree, host: Host, p: Path): Located {
    if LinkAbove(m, p) then host.follow(m, p)
    else if FileAbove(m, p) then Refused(NotADir)
    else Reaches(p)
  }

  predicate ParentIsDir(m: Tree, p: Path)
    requires p != []
  {
    |p| == 1 || (Parent(p) in m && m[Parent(p)].DirObj?)
  }

  function SymlinkMetadata(m: Tree, p: Path): StatResult {
    if BlockedAt(m, p) then Blocked
    else if p in m then Present(m[p])
    else Absent
  }

  function CreateDirAll(m: Tree, host: Host, p: Path): Io {
    if BlockedAt(m, p) then Failed(NotADir)
    else if p in m && !m[p].DirObj? then Failed(AlreadyExists)
    else
      var missing := set k | 0 < k <= |p| && p[..k] !in m :: p[..k];
      Done(m + map q | q in missing :: DirObj(host.mode, host.uid, host.gid, map[]))
  }

  function WithOwner(o: Obj, uid: nat, gid: nat): Obj {
    match o
    case DirObj(m, _, _, x) => DirObj(m, uid, gid, x)
    case FileObj(m, _, _, x, d, v) => FileObj(m, uid, gid, x, d, v)
    case LinkObj(_, _, x, t) => LinkObj(uid, gid, x, t)
  }

  function WithXattrs(o: Obj, xattrs: Xattrs): Obj {
    match o
    case DirObj(m, u, g, _) => DirObj(m, u, g, xattrs)
    case FileObj(m, u, g, _, d, v) => FileObj(m, u, g, xattrs, d, v)
    case LinkObj(u, g, _, t) => LinkObj(u, g, xattrs, t)
  }

  function SetPermissions(m: Tree, p: Path, mode: nat): Io {
    if p !in m || m[p].LinkObj? then Failed(NoEntry)
    else Done(m[p := m[p].(mode := mode)])
  }

  function Chown(m: Tree, p: Path, uid: nat, gid: nat): Io {
    if p !in m then Failed(NoEntry)
    else Done(m[p := WithOwner(m[p], uid, gid)])
  }

  function SetXattr(m: Tree, p: Path, attr: string, value: string): Io {
    if p !in m then Failed(NoEntry)
    else Done(m[p := WithXattrs(m[p], m[p].xattrs[attr := value])])
  }

  /** The attributes `xattrs` set on what is at `p`, over those it had. */
  function AddXattrs(m: Tree, p: Path, xattrs: Xattrs): Tree
    requires p in m
  {
    m[p := WithXattrs(m[p], m[p].xattrs + xattrs)]
  }

  lemma AddXattrsStep(m: Tree, p: Path, xattrs: Xattrs, attr: string, value: string)
    requires p in m
    ensures AddXattrs(m, p, map[]) == m
    ensures SetXattr(AddXattrs(m, p, xattrs), p, attr, value) == Done(AddXattrs(m, p, xattrs[attr := value]))
  {
    assert m[p].xattrs + map[] == m[p].xattrs;
    assert (m[p].xattrs + xattrs)[attr := value] == m[p].xattrs + xattrs[attr := value];
    assert m[p := WithXattrs(m[p], m[p].xattrs)] == m;
  }

  /** The file or the whole directory at `p` is gone. */
  function RemoveTree(m: Tree, p: Path): Tree {
    map q | q in m && !(p <= q) :: m[q]
  }

  /** What is at `p`, if anything, is gone. */
  function RemoveAt(m: Tree, p: Path): Tree {
    if p !in m then m else if m[p].DirObj? then RemoveTree(m, p) else m - {p}
  }

  function RemoveAllOptional(m: Tree, p: Path): Io {
    match SymlinkMetadata(m, p)
    case Blocked => Failed(NotADir)
    case Absent => Done(m)
    case Present(_) => Done(RemoveAt(m, p))
  }

  function CreateSymlink(m: Tree, host: Host, p: Path, target: string): Io
    requires p != []
  {
    if p in m then Failed(AlreadyExists)
    else if !ParentIsDir(m, p) then Failed(NoEntry)
    else Done(m[p := LinkObj(host.uid, host.gid, map[], target)])
  }

  /** Copying a file carries its bytes and its permission bits. The copy is not sealed. */
  function CopyFile(m: Tree, host: Host, p: Path, mode: nat, data: string): Io
    requires p != []
  {
    if p in m then Failed(AlreadyExists)
    else if !ParentIsDir(m, p) then Failed(NoEntry)
    else Done(m[p := FileObj(mode, host.uid, host.gid, map[], data, None)])
  }

  /** What the live filesystem shows for an inode of a traversed tree. */
  function ObjOf(i: Inode): Obj {
    match i
    case Directory(st, _) => DirObj(st.mode, st.uid, st.gid, st.xattrs)
    case Leaf(st, Regular(_, v, d)) => FileObj(st.mode, st.uid, st.gid, st.xattrs, d, v)
    case Leaf(st, Symlink(t)) => LinkObj(st.uid, st.gid, st.xattrs, t)
  }

  /** What a leaf is after it was copied: the same, but for the seal of a file. */
  function Copied(i: Inode): Obj
    requires i.Leaf?
  {
    match i.content
    case Regular(_, _, d) => FileObj(i.stat.mode, i.stat.uid, i.stat.gid, i.stat.xattrs, d, None)
    case Symlink(_) => ObjOf(i)
  }

  ghost predicate Mirrors(m: Tree, es: Entries) {
    forall p :: (p in m <==> At(es, p).Some?) && (p in m ==> m[p] == ObjOf(At(es, p).value))
  }

  /** The filesystem from which a tree was traversed. */
  ghost function Snapshot(es: Entries, cursor: Path): Tree
    decreases es
  {
    match es
    case Nil => map[]
    case Cons(n, i, rest) => Snapshot(rest, cursor) + SnapshotEntry(i, cursor + [n])
  }

  ghost function SnapshotEntry(i: Inode, here: Path): Tree
    decreases i
  {
    (if i.Directory? then Snapshot(i.entries, here) else map[])[here := ObjOf(i)]
  }

  lemma {:induction false} SnapshotShape(es: Entries, cursor: Path)
    ensures forall p :: p in Snapshot(es, cursor) ==> cursor < p && p[|cursor|] in Names(es)
    decreases es
  {
    if es.Cons? {
      SnapshotShape(es.rest, cursor);
      SnapshotEntryShape(es.inode, cursor + [es.name]);
    }
  }

  lemma SnapshotEntryShape(i: Inode, here: Path)
    ensures forall p :: p in SnapshotEntry(i, here) ==> here <= p
    decreases i
  {
    if i.Directory? {
      SnapshotShape(i.entries, here);
    }
  }

  /** The snapshot shows, at `cursor + r`, what the tree has at `r`. */
  ghost predicate ShownAt(m: Tree, q: Path, i: Option<Inode>) {
    (q in m <==> i.Some?) && (q in m ==> m[q] == ObjOf(i.value))
  }

  lemma {:induction false} SnapshotAt(es: Entries, cursor: Path, r: Path)
    requires WellFormed(es) && r != []
    ensures ShownAt(Snapshot(es, cursor), cursor + r, At(es, r))
    decreases es
  {
    if es.Cons? {
      var here, t := cursor + [es.name], r[1..];
      assert r == [r[0]] + t;
      AtStep(es, r[0], t);
      AtStep(es.rest, r[0], t);
      assert (cursor + r)[|cursor|] == r[0] && here[|cursor|] == es.name;
      SnapshotShape(es.rest, cursor);
      if r[0] != es.name {
        SnapshotAt(es.rest, cursor, r);
        SnapshotEntryShape(es.inode, here);
      } else {
        assert cursor + r == here + t;
        SnapshotEntryAt(es.inode, here, t);
      }
    }
  }

  lemma SnapshotEntryAt(i: Inode, here: Path, t: Path)
    requires i.Directory? ==> WellFormed(i.entries)
    ensures ShownAt(SnapshotEntry(i, here), here + t,
                    if t == [] then Some(i) else if i.Directory? then At(i.entries, t) else None)
    decreases i
  {
    if t == [] {
      assert here + t == here;
    } else {
      assert |here + t| > |here|;
      if i.Directory? {
        SnapshotAt(i.entries, here, t);
      }
    }
  }

  /** Every traversed tree has a live tree that it mirrors. */
  lemma SnapshotMirrors(es: Entries)
    requires WellFormed(es)
    ensures Mirrors(Snapshot(es, []), es)
  {
    SnapshotShape(es, []);
    forall p ensures ShownAt(Snapshot(es, []), p, At(es, p)) {
      if p != [] {
        SnapshotAt(es, [], p);
        assert [] + p == p;
      }
    }
  }
}
