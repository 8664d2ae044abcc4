/** Computing the difference between the pristine, current and new /etc.

    `Mods` and `Dels` say which paths each list gains, subtree by subtree. The methods fill
    the lists of a shared `Diff` in place, with a path cursor that is pushed and popped and
    with insertions into the middle of a list, and are proved to append exactly that. */
module EtcDiff {
  import opened Common
  import opened EtcTree

  datatype Reason = DirectoryNowFile | FileNowDirectory

  datatype Unmergable = Unmergable(path: Path, reason: Reason)

  class Diff {
    var added: seq<Path>
    var modified: seq<Path>
    var removed: seq<Path>
    var unmergable: seq<Unmergable>

    constructor ()
      ensures added == [] && modified == [] && removed == [] && unmergable == []
    {
      added, modified, removed, unmergable := [], [], [], [];
    }

    /** The lists that the modification walk fills. */
    ghost function Seen(): Changes
      reads this
    {
      Changes(added, modified, unmergable)
    }
  }

  /** What walking one part of the tree appends to the lists. */
  datatype Changes = Changes(added: seq<Path>, modified: seq<Path>, unmergable: seq<Unmergable>)

  function Plus(a: Changes, b: Changes): Changes {
    Changes(a.added + b.added, a.modified + b.modified, a.unmergable + b.unmergable)
  }

  /** Every path below `cursor`, each directory before its contents. */
  function Collect(es: Entries, cursor: Path): seq<Path>
    decreases es
  {
    match es
    case Nil => []
    case Cons(n, i, rest) => CollectEntry(i, cursor + [n]) + Collect(rest, cursor)
  }

  function CollectEntry(i: Inode, here: Path): seq<Path>
    decreases i
  {
    [here] + if i.Directory? then Collect(i.entries, here) else []
  }

  /** The kind conflict of `current` with what `new_` holds at the same path, if any. */
  function Check(new_: Entries, current: Inode, here: Path): seq<Unmergable> {
    match (current, GetDirectory(new_, here))
    case (Directory(_, _), NotADirectory) => [Unmergable(here, DirectoryNowFile)]
    case (Leaf(_, _), Found(_)) => [Unmergable(here, FileNowDirectory)]
    case _ => []
  }

  predicate LeafChanged(old_: Inode, current: Inode)
    requires old_.Leaf? && current.Leaf?
  {
    !StatEqIgnoreMtime(old_.stat, current.stat) || !SameContent(old_.content, current.content)
  }

  /** The changes found below a directory, headed by the directory itself if new lacks it. */
  function Enclose(below: Changes, inode: Inode, new_: Entries, here: Path): Changes {
    var again := if GetDirectory(new_, here).Found? then [] else [here];
    if below.added != [] then
      Changes(again + below.added, below.modified, below.unmergable + Check(new_, inode, here))
    else if below.modified != [] then
      Changes([], again + below.modified, below.unmergable + Check(new_, inode, here))
    else
      below
  }

  /** A directory of both trees: its own change, then what was found below it. */
  function DirMods(oldStat: Stat, inode: Inode, below: Changes, new_: Entries, here: Path): Changes {
    var own := if StatEqIgnoreMtime(inode.stat, oldStat) then [] else [here];
    Plus(Changes([], own, []), Enclose(below, inode, new_, here))
  }

  function Mods(pristine: Entries, current: Entries, new_: Entries, cursor: Path): Changes
    decreases current
  {
    match current
    case Nil => Changes([], [], [])
    case Cons(n, i, rest) =>
      Plus(EntryMods(Lookup(pristine, n), i, new_, cursor + [n]), Mods(pristine, rest, new_, cursor))
  }

  /** What one entry of current, found at `here`, contributes. */
  function EntryMods(old_: Option<Inode>, current: Inode, new_: Entries, here: Path): Changes
    decreases current
  {
    match (current, old_)
    case (Directory(st, sub), Some(Directory(pst, psub))) =>
      DirMods(pst, current, Mods(psub, sub, new_, here), new_, here)
    case (Directory(_, sub), None) =>
      Changes([here] + Collect(sub, here), [], Check(new_, current, here))
    case (Leaf(_, _), None) => Changes([here], [], Check(new_, current, here))
    case (Leaf(_, _), Some(Leaf(_, _))) =>
      if LeafChanged(old_.value, current) then Changes([], [here], Check(new_, current, here))
      else Changes([], [], [])
    case _ => Changes([], [here], Check(new_, current, here))
  }

  function Dels(pristine: Entries, current: Entries, cursor: Path): seq<Path>
    decreases pristine
  {
    match pristine
    case Nil => []
    case Cons(n, i, rest) => EntryDels(i, Lookup(current, n), cursor + [n]) + Dels(rest, current, cursor)
  }

  function EntryDels(old_: Inode, current: Option<Inode>, here: Path): seq<Path>
    decreases old_
  {
    match current
    case None => [here]
    case Some(i) =>
      if old_.Directory? && i.Directory? then Dels(old_.entries, i.entries, here) else []
  }

  lemma PlusAssoc(a: Changes, b: Changes, c: Changes)
    ensures Plus(Plus(a, b), c) == Plus(a, Plus(b, c))
  {
    assert (a.added + b.added) + c.added == a.added + (b.added + c.added);
    assert (a.modified + b.modified) + c.modified == a.modified + (b.modified + c.modified);
    assert (a.unmergable + b.unmergable) + c.unmergable == a.unmergable + (b.unmergable + c.unmergable);
  }

  method CollectAllFiles(root: Entries, currentPath: Path, files: seq<Path>) returns (out: seq<Path>)
    ensures out == files + Collect(root, currentPath)
    decreases root
  {
    out := files;
    var path, rest := currentPath, root;
    while rest.Cons?
      invariant path == currentPath
      invariant rest == root || rest < root
      invariant out + Collect(rest, currentPath) == files + Collect(root, currentPath)
      decreases rest
    {
      path := path + [rest.name];
      ghost var before, gain := out, CollectEntry(rest.inode, path);
      ghost var later := Collect(rest.rest, currentPath);
      assert Collect(rest, currentPath) == gain + later;
      out := out + [path];
      if rest.inode.Directory? {
        out := CollectAllFiles(rest.inode.entries, path, out);
      }
      assert out == before + gain;
      assert (before + gain) + later == before + (gain + later);
      path := path[..|path| - 1];
      rest := rest.rest;
    }
  }

  method CheckIfMergable(new_: Entries, currentInode: Inode, currentPath: Path, diff: Diff)
    modifies diff`unmergable
    ensures diff.unmergable == old(diff.unmergable) + Check(new_, currentInode, currentPath)
  {
    var newDir := GetDirectory(new_, currentPath);
    match currentInode {
      case Directory(_, _) =>
        match newDir {
          case Found(_) =>
          case NotADirectory =>
            diff.unmergable := diff.unmergable + [Unmergable(currentPath, DirectoryNowFile)];
          case NotFound =>
        }
      case Leaf(_, _) =>
        match newDir {
          case Found(_) =>
            diff.unmergable := diff.unmergable + [Unmergable(currentPath, FileNowDirectory)];
          case NotFound =>
          case NotADirectory =>
        }
    }
  }

  /** Push a path on `modified` and check it: what the walk does wherever an entry changed. */
  method RecordModified(new_: Entries, inode: Inode, path: Path, diff: Diff)
    modifies diff`modified, diff`unmergable
    ensures diff.Seen() == Plus(old(diff.Seen()), Changes([], [path], Check(new_, inode, path)))
  {
    diff.modified := diff.modified + [path];
    CheckIfMergable(new_, inode, path, diff);
  }

  method GetModifications(pristine: Entries, current: Entries, new_: Entries, currentPath: Path, diff: Diff)
    modifies diff`added, diff`modified, diff`unmergable
    ensures diff.Seen() == Plus(old(diff.Seen()), Mods(pristine, current, new_, currentPath))
    decreases current, 1
  {
    var path, rest := currentPath, current;
    while rest.Cons?
      invariant path == currentPath
      invariant rest == current || rest < current
      invariant Plus(diff.Seen(), Mods(pristine, rest, new_, currentPath)) ==
                Plus(old(diff.Seen()), Mods(pristine, current, new_, currentPath))
      decreases rest
    {
      path := path + [rest.name];
      ghost var before := diff.Seen();
      ghost var gain := EntryMods(Lookup(pristine, rest.name), rest.inode, new_, path);
      ghost var later := Mods(pristine, rest.rest, new_, currentPath);
      assert Mods(pristine, rest, new_, currentPath) == Plus(gain, later);
      match Lookup(pristine, rest.name) {
        case Some(Leaf(oldStat, oldContent)) =>
          if rest.inode.Leaf? {
            if !StatEqIgnoreMtime(oldStat, rest.inode.stat) {
              RecordModified(new_, rest.inode, path, diff);
              assert diff.Seen() == Plus(before, gain);
              PlusAssoc(before, gain, later);
              path := path[..|path| - 1];
              rest := rest.rest;
              continue;
            }
            ModifyContent(oldContent, rest.inode, oldStat, new_, path, diff);
          } else {
            RecordModified(new_, rest.inode, path, diff);
          }
        case Some(Directory(oldStat, oldSub)) =>
          if rest.inode.Directory? {
            WalkDirectory(oldStat, oldSub, rest.inode, new_, path, diff);
          } else {
            RecordModified(new_, rest.inode, path, diff);
          }
        case None =>
          AddEntry(rest.inode, new_, path, diff);
      }
      assert diff.Seen() == Plus(before, gain);
      PlusAssoc(before, gain, later);
      path := path[..|path| - 1];
      rest := rest.rest;
    }
  }

  /** The arm for two leaves with equal stat. */
  method ModifyContent(oldContent: LeafContent, inode: Inode, ghost oldStat: Stat, new_: Entries, path: Path, diff: Diff)
    requires inode.Leaf? && StatEqIgnoreMtime(oldStat, inode.stat)
    modifies diff`modified, diff`unmergable
    ensures diff.Seen() == Plus(old(diff.Seen()), EntryMods(Some(Leaf(oldStat, oldContent)), inode, new_, path))
  {
    match (oldContent, inode.content) {
      case (Regular(oldHash, _, _), Regular(currentHash, _, _)) =>
        if oldHash != currentHash {
          RecordModified(new_, inode, path, diff);
        }
      case (Symlink(oldLink), Symlink(currentLink)) =>
        if oldLink != currentLink {
          RecordModified(new_, inode, path, diff);
        }
      case _ =>
        RecordModified(new_, inode, path, diff);
    }
  }

  /** The arms for an entry that pristine does not have: a leaf, or a directory with all it holds. */
  method AddEntry(inode: Inode, new_: Entries, path: Path, diff: Diff)
    modifies diff`added, diff`unmergable
    ensures diff.Seen() == Plus(old(diff.Seen()), EntryMods(None, inode, new_, path))
  {
    diff.added := diff.added + [path];
    CheckIfMergable(new_, inode, path, diff);
    if inode.Directory? {
      diff.added := CollectAllFiles(inode.entries, path, diff.added);
    }
  }

  /** The arm for a directory that is one in pristine too: it records its own change, is walked,
      and is then put back in front of what the walk found if new does not have it. */
  method WalkDirectory(oldStat: Stat, oldSub: Entries, inode: Inode, new_: Entries, path: Path, diff: Diff)
    requires inode.Directory?
    modifies diff`added, diff`modified, diff`unmergable
    ensures diff.Seen() == Plus(old(diff.Seen()), EntryMods(Some(Directory(oldStat, oldSub)), inode, new_, path))
    decreases inode
  {
    ghost var own := if StatEqIgnoreMtime(inode.stat, oldStat) then [] else [path];
    if !StatEqIgnoreMtime(inode.stat, oldStat) {
      diff.modified := diff.modified + [path];
    }
    var totalAdded, totalModified := |diff.added|, |diff.modified|;
    ghost var base, below := diff.Seen(), Mods(oldSub, inode.entries, new_, path);
    assert base == Plus(old(diff.Seen()), Changes([], own, []));
    GetModifications(oldSub, inode.entries, new_, path, diff);
    ReinstateDirectory(inode, totalAdded, totalModified, new_, path, diff, base, below);
    PlusAssoc(old(diff.Seen()), Changes([], own, []), Enclose(below, inode, new_, path));
  }

  lemma InsertAt<T>(a: seq<T>, x: T, b: seq<T>)
    ensures (a + b)[..|a|] + [x] + (a + b)[|a|..] == a + ([x] + b)
  {
  }

  /** After a directory was walked: if the lists grew past the recorded lengths and new lacks
      the directory, insert it at the first recorded length that was passed; check it if they
      grew at all. */
  method ReinstateDirectory(inode: Inode, totalAdded: nat, totalModified: nat, new_: Entries, path: Path, diff: Diff,
                            ghost base: Changes, ghost below: Changes)
    requires totalAdded == |base.added| && totalModified == |base.modified|
    requires diff.Seen() == Plus(base, below)
    modifies diff`added, diff`modified, diff`unmergable
    ensures diff.Seen() == Plus(base, Enclose(below, inode, new_, path))
  {
    match GetDirectory(new_, path) {
      case Found(_) =>
      case _ =>
        if |diff.added| != totalAdded {
          InsertAt(base.added, path, below.added);
          diff.added := diff.added[..totalAdded] + [path] + diff.added[totalAdded..];
        } else if |diff.modified| != totalModified {
          InsertAt(base.modified, path, below.modified);
          diff.modified := diff.modified[..totalModified] + [path] + diff.modified[totalModified..];
        }
    }
    if |diff.modified| != totalModified || |diff.added| != totalAdded {
      CheckIfMergable(new_, inode, path, diff);
    }
  }

  method GetDeletions(pristine: Entries, current: Entries, currentPath: Path, diff: Diff)
    modifies diff`removed
    ensures diff.removed == old(diff.removed) + Dels(pristine, current, currentPath)
    decreases pristine
  {
    var path, rest := currentPath, pristine;
    while rest.Cons?
      invariant path == currentPath
      invariant rest == pristine || rest < pristine
      invariant diff.removed + Dels(rest, current, currentPath) == old(diff.removed) + Dels(pristine, current, currentPath)
      decreases rest
    {
      path := path + [rest.name];
      ghost var before, gain := diff.removed, EntryDels(rest.inode, Lookup(current, rest.name), path);
      ghost var later := Dels(rest.rest, current, currentPath);
      assert Dels(rest, current, currentPath) == gain + later;
      match rest.inode {
        case Directory(_, sub) =>
          match Lookup(current, rest.name) {
            case Some(Directory(_, currSub)) => GetDeletions(sub, currSub, path, diff);
            case None => diff.removed := diff.removed + [path];
            case Some(Leaf(_, _)) =>
          }
        case Leaf(_, _) =>
          match Lookup(current, rest.name) {
            case Some(Leaf(_, _)) =>
            case None => diff.removed := diff.removed + [path];
            case Some(Directory(_, _)) =>
          }
      }
      assert diff.removed == before + gain;
      assert (before + gain) + later == before + (gain + later);
      path := path[..|path| - 1];
      rest := rest.rest;
    }
  }

  method ComputeDiff(pristine: Entries, current: Entries, new_: Entries) returns (diff: Diff)
    ensures fresh(diff)
    ensures diff.Seen() == Mods(pristine, current, new_, [])
    ensures diff.removed == Dels(pristine, current, [])
  {
    diff := new Diff();
    GetModifications(pristine, current, new_, [], diff);
    GetDeletions(pristine, current, [], diff);
  }
}
