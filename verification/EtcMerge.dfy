/** Replaying a diff on the live new /etc: the methods change the live tree call by call and
    stop at the first error; the functions say what tree and what error that leaves. */
module EtcMerge {
  import opened Common
  import opened EtcTree
  import opened LiveTree
  import EtcDiff

  datatype MergeError =
    | NotInCurrent
    | DirectoryNewlyFile
    | FileNewlyDirectory
    | BlockedInNew
    | IoFailure(io: IoError)

  /** The live tree after a call, and the error it stopped with, if any. */
  datatype Outcome = Outcome(tree: Tree, error: Option<MergeError>)

  class LiveEtc {
    var tree: Tree
    const host: Host

    constructor (tree: Tree, host: Host)
      ensures this.tree == tree && this.host == host
    {
      this.tree, this.host := tree, host;
    }
  }

  function FromIo(m: Tree, io: Io): Outcome {
    match io
    case Done(t) => Outcome(t, None)
    case Failed(e) => Outcome(m, Some(IoFailure(e)))
  }

  /** Owner and xattrs, the last two things set on everything that is written. */
  function Dress(m: Tree, p: Path, stat: Stat): Outcome {
    match Chown(m, p, stat.uid, stat.gid)
    case Failed(e) => Outcome(m, Some(IoFailure(e)))
    case Done(t) => Outcome(AddXattrs(t, p, stat.xattrs), None)
  }

  function CreateDir(m: Tree, host: Host, p: Path, stat: Stat, newInode: Option<Inode>): Outcome {
    if newInode.Some? && newInode.value.Leaf? then Outcome(m, Some(DirectoryNewlyFile))
    else
      var made := if newInode.Some? then Outcome(m, None) else FromIo(m, CreateDirAll(m, host, p));
      if made.error.Some? then made
      else
        var set_ := FromIo(made.tree, SetPermissions(made.tree, p, stat.mode));
        if set_.error.Some? then set_ else Dress(set_.tree, p, stat)
  }

  function PutLeaf(m: Tree, host: Host, p: Path, leaf: Inode, newInode: Option<Inode>): Outcome
    requires leaf.Leaf? && p != []
  {
    if newInode.Some? && newInode.value.Directory? then Outcome(m, Some(FileNewlyDirectory))
    else
      var gone := FromIo(m, RemoveAllOptional(m, p));
      if gone.error.Some? then gone
      else
        var io := match leaf.content
                  case Symlink(t) => CreateSymlink(gone.tree, host, p, t)
                  case Regular(_, _, d) => CopyFile(gone.tree, host, p, leaf.stat.mode, d);
        var put := FromIo(gone.tree, io);
        if put.error.Some? then put else Dress(put.tree, p, leaf.stat)
  }

  /** One listed path. */
  function MergeOne(m: Tree, host: Host, current: Entries, new_: Entries, p: Path): Outcome {
    match SplitPath(current, p)
    case Split(dir, name) =>
      (match Lookup(dir, name)
       case None => Outcome(m, Some(NotInCurrent))
       case Some(i) => Place(m, host, i, new_, p))
    case _ => Outcome(m, Some(NotInCurrent))
  }

  function Place(m: Tree, host: Host, i: Inode, new_: Entries, p: Path): Outcome
    requires p != []
  {
    match SplitPath(new_, p)
    case Split(dir, name) => PlaceOver(m, host, i, Lookup(dir, name), p)
    case SplitError(NotFound) => PlaceOver(m, host, i, None, p)
    case _ => Outcome(m, Some(BlockedInNew))
  }

  function PlaceOver(m: Tree, host: Host, i: Inode, newInode: Option<Inode>, p: Path): Outcome
    requires p != []
  {
    if i.Directory? then CreateDir(m, host, p, i.stat, newInode) else PutLeaf(m, host, p, i, newInode)
  }

  function MergeList(m: Tree, host: Host, current: Entries, new_: Entries, files: seq<Path>): Outcome
    decreases |files|
  {
    if files == [] then Outcome(m, None)
    else
      var one := MergeOne(m, host, current, new_, files[0]);
      if one.error.Some? then one else MergeList(one.tree, host, current, new_, files[1..])
  }

  /** One deletion: what the path leads to is removed. */
  function RemoveOne(m: Tree, host: Host, p: Path): Outcome {
    match Locate(m, host, p)
    case Refused(e) => Outcome(m, Some(IoFailure(e)))
    case Missing => Outcome(m, None)
    case Reaches(q) => Outcome(RemoveAt(m, q), None)
  }

  function RemoveList(m: Tree, host: Host, removed: seq<Path>): Outcome
    decreases |removed|
  {
    if removed == [] then Outcome(m, None)
    else
      var one := RemoveOne(m, host, removed[0]);
      if one.error.Some? then one else RemoveList(one.tree, host, removed[1..])
  }

  function MergeAll(m: Tree, host: Host, current: Entries, new_: Entries,
                    added: seq<Path>, modified: seq<Path>, removed: seq<Path>): Outcome
  {
    var a := MergeList(m, host, current, new_, added);
    if a.error.Some? then a
    else
      var b := MergeList(a.tree, host, current, new_, modified);
      if b.error.Some? then b else RemoveList(b.tree, host, removed)
  }

  // -- The calls, made on the live tree.

  /** Apply the result of a filesystem call. */
  method Apply(live: LiveEtc, io: Io) returns (error: Option<MergeError>)
    modifies live
    ensures Outcome(live.tree, error) == FromIo(old(live.tree), io)
  {
    match io {
      case Done(t) => live.tree := t; error := None;
      case Failed(e) => error := Some(IoFailure(e));
    }
  }

  method CopyXattrs(live: LiveEtc, p: Path, xattrs: Xattrs) returns (error: Option<MergeError>)
    modifies live
    ensures p in old(live.tree) ==> error.None? && live.tree == AddXattrs(old(live.tree), p, xattrs)
    ensures p !in old(live.tree) ==> live.tree == old(live.tree)
    ensures p !in old(live.tree) ==> error == if xattrs == map[] then None else Some(IoFailure(NoEntry))
  {
    error := None;
    var todo := xattrs.Keys;
    if p !in live.tree {
      if todo != {} {
        var attr :| attr in todo;
        error := Apply(live, SetXattr(live.tree, p, attr, xattrs[attr]));
      }
      return;
    }
    AddXattrsStep(live.tree, p, map[], "", "");
    assert xattrs - todo == map[];
    while todo != {}
      invariant todo <= xattrs.Keys && error.None?
      invariant live.tree == AddXattrs(old(live.tree), p, xattrs - todo)
      decreases todo
    {
      var attr :| attr in todo;
      AddXattrsStep(old(live.tree), p, xattrs - todo, attr, xattrs[attr]);
      error := Apply(live, SetXattr(live.tree, p, attr, xattrs[attr]));
      assert (xattrs - todo)[attr := xattrs[attr]] == xattrs - (todo - {attr});
      todo := todo - {attr};
    }
    assert xattrs - {} == xattrs;
  }

  method DressPath(live: LiveEtc, p: Path, stat: Stat) returns (error: Option<MergeError>)
    modifies live
    ensures Outcome(live.tree, error) == Dress(old(live.tree), p, stat)
  {
    error := Apply(live, Chown(live.tree, p, stat.uid, stat.gid));
    if error.Some? { return; }
    error := CopyXattrs(live, p, stat.xattrs);
  }

  method CreateDirWithPerms(live: LiveEtc, p: Path, stat: Stat, newInode: Option<Inode>) returns (error: Option<MergeError>)
    modifies live
    ensures Outcome(live.tree, error) == CreateDir(old(live.tree), live.host, p, stat, newInode)
  {
    match newInode {
      case Some(Directory(_, _)) =>
      case Some(Leaf(_, _)) => return Some(DirectoryNewlyFile);
      case None =>
        error := Apply(live, CreateDirAll(live.tree, live.host, p));
        if error.Some? { return; }
    }
    error := Apply(live, SetPermissions(live.tree, p, stat.mode));
    if error.Some? { return; }
    error := DressPath(live, p, stat);
  }

  method MergeLeaf(live: LiveEtc, leaf: Inode, newInode: Option<Inode>, p: Path) returns (error: Option<MergeError>)
    requires leaf.Leaf? && p != []
    modifies live
    ensures Outcome(live.tree, error) == PutLeaf(old(live.tree), live.host, p, leaf, newInode)
  {
    if newInode.Some? && newInode.value.Directory? {
      return Some(FileNewlyDirectory);
    }
    error := Apply(live, RemoveAllOptional(live.tree, p));
    if error.Some? { return; }
    match leaf.content {
      case Symlink(target) => error := Apply(live, CreateSymlink(live.tree, live.host, p, target));
      case Regular(_, _, d) => error := Apply(live, CopyFile(live.tree, live.host, p, leaf.stat.mode, d));
    }
    if error.Some? { return; }
    error := DressPath(live, p, leaf.stat);
  }

  method MergeModifiedFiles(files: seq<Path>, current: Entries, live: LiveEtc, new_: Entries) returns (error: Option<MergeError>)
    modifies live
    ensures Outcome(live.tree, error) == MergeList(old(live.tree), live.host, current, new_, files)
  {
    error := None;
    for k := 0 to |files|
      invariant error.None?
      invariant MergeList(live.tree, live.host, current, new_, files[k..]) ==
                MergeList(old(live.tree), live.host, current, new_, files)
    {
      assert files[k..][0] == files[k] && files[k..][1..] == files[k + 1..];
      error := MergeFile(files[k], current, live, new_);
      if error.Some? { return; }
    }
  }

  /** The body of the loop: find the path in current and in new, and write it. */
  method MergeFile(p: Path, current: Entries, live: LiveEtc, new_: Entries) returns (error: Option<MergeError>)
    modifies live
    ensures Outcome(live.tree, error) == MergeOne(old(live.tree), live.host, current, new_, p)
  {
    var here := SplitPath(current, p);
    if !here.Split? { return Some(NotInCurrent); }
    var inode := Lookup(here.dir, here.name);
    if inode.None? { return Some(NotInCurrent); }
    var newInode := None;
    match SplitPath(new_, p) {
      case Split(dir, name) => newInode := Lookup(dir, name);
      case SplitError(NotFound) =>
      case _ => return Some(BlockedInNew);
    }
    match inode.value {
      case Directory(stat, _) => error := CreateDirWithPerms(live, p, stat, newInode);
      case Leaf(_, _) => error := MergeLeaf(live, inode.value, newInode, p);
    }
  }

  method Merge(current: Entries, live: LiveEtc, new_: Entries, diff: EtcDiff.Diff) returns (error: Option<MergeError>)
    modifies live
    ensures Outcome(live.tree, error) ==
            old(MergeAll(live.tree, live.host, current, new_, diff.added, diff.modified, diff.removed))
  {
    error := MergeModifiedFiles(diff.added, current, live, new_);
    if error.Some? { return; }
    error := MergeModifiedFiles(diff.modified, current, live, new_);
    if error.Some? { return; }
    ghost var written := live.tree;
    for k := 0 to |diff.removed|
      invariant error.None?
      invariant RemoveList(live.tree, live.host, diff.removed[k..]) == RemoveList(written, live.host, diff.removed)
    {
      var removed := diff.removed[k];
      assert diff.removed[k..][0] == removed && diff.removed[k..][1..] == diff.removed[k + 1..];
      match Locate(live.tree, live.host, removed) {
        case Refused(e) => return Some(IoFailure(e));
        case Missing =>
        case Reaches(q) =>
          if q in live.tree {
            if live.tree[q].DirObj? {
              live.tree := RemoveTree(live.tree, q);
            } else {
              live.tree := live.tree - {q};
            }
          }
      }
    }
  }
}
