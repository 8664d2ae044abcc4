/** The directory trees that the /etc merge works on, and the lookups it makes in them.

    A tree is kept as the entry table of its root. Entry tables list their entries in the
    order in which the traversal yields them; names in one table are distinct. Leaves are
    stored in place of the index into the leaf table. */
module EtcTree {
  import opened Common

  type Name = string
  type Path = seq<Name>

  datatype Stat = Stat(mode: nat, uid: nat, gid: nat, mtimeSec: int, mtimeNsec: nat,
                       xattrs: map<string, string>)

  /** `data` are the bytes of a file. The walk records their hash, but for a file that carries an
      fs-verity digest it records the digest and an empty hash. */
  datatype LeafContent =
    | Regular(contentHash: string, verity: Option<string>, data: string)
    | Symlink(target: string)

  datatype Inode =
    | Directory(stat: Stat, entries: Entries)
    | Leaf(stat: Stat, content: LeafContent)

  datatype Entries = Nil | Cons(name: Name, inode: Inode, rest: Entries)

  /** Outcome of resolving a path that should name a directory. */
  datatype DirLookup = Found(entries: Entries) | NotFound | NotADirectory

  /** The two halves of a path: the table holding its last component, and that component. */
  datatype SplitResult = Split(dir: Entries, name: Name) | SplitError(error: DirLookup) | InvalidFilename

  predicate StatEqIgnoreMtime(a: Stat, b: Stat) {
    a.uid == b.uid && a.gid == b.gid && a.mode == b.mode && a.xattrs == b.xattrs
  }

  predicate SameContent(a: LeafContent, b: LeafContent) {
    match (a, b)
    case (Regular(h, _, _), Regular(k, _, _)) => h == k
    case (Symlink(s), Symlink(t)) => s == t
    case _ => false
  }

  ghost function Names(es: Entries): set<Name> {
    match es
    case Nil => {}
    case Cons(n, _, rest) => {n} + Names(rest)
  }

  /** Names are distinct in every table of the tree. */
  ghost predicate WellFormed(es: Entries) {
    match es
    case Nil => true
    case Cons(n, i, rest) =>
      && n !in Names(rest)
      && (i.Directory? ==> WellFormed(i.entries))
      && WellFormed(rest)
  }

  function Lookup(es: Entries, name: Name): (r: Option<Inode>)
    ensures r.Some? <==> name in Names(es)
    ensures r.Some? && WellFormed(es) && r.value.Directory? ==> WellFormed(r.value.entries)
    ensures r.Some? ==> r.value < es
  {
    match es
    case Nil => None
    case Cons(n, i, rest) => if n == name then Some(i) else Lookup(rest, name)
  }

  /** The inode at a path; the root itself is not an entry. */
  function At(es: Entries, p: Path): Option<Inode>
    decreases |p|
  {
    if p == [] then None
    else
      match Lookup(es, p[0])
      case None => None
      case Some(i) =>
        if |p| == 1 then Some(i)
        else if i.Directory? then At(i.entries, p[1..])
        else None
  }

  function GetDirectory(es: Entries, p: Path): DirLookup
    decreases |p|
  {
    if p == [] then Found(es)
    else
      match Lookup(es, p[0])
      case None => NotFound
      case Some(Leaf(_, _)) => NotADirectory
      case Some(Directory(_, sub)) => GetDirectory(sub, p[1..])
  }

  function SplitPath(es: Entries, p: Path): SplitResult {
    if p == [] then InvalidFilename
    else
      match GetDirectory(es, Parent(p))
      case Found(d) => Split(d, p[|p| - 1])
      case e => SplitError(e)
  }

  ghost predicate IsDirAt(es: Entries, p: Path) {
    p == [] || (At(es, p).Some? && At(es, p).value.Directory?)
  }

  ghost predicate IsLeafAt(es: Entries, p: Path) {
    At(es, p).Some? && At(es, p).value.Leaf?
  }

  /** Some proper ancestor of `p` is a leaf. */
  ghost predicate LeafAbove(es: Entries, p: Path) {
    exists k :: 0 < k < |p| && IsLeafAt(es, p[..k])
  }

  ghost predicate IsLinkAt(es: Entries, p: Path) {
    IsLeafAt(es, p) && At(es, p).value.content.Symlink?
  }

  ghost predicate IsFileAt(es: Entries, p: Path) {
    IsLeafAt(es, p) && At(es, p).value.content.Regular?
  }

  /** Some proper ancestor of `p` is a symbolic link. */
  ghost predicate LinkOver(es: Entries, p: Path) {
    exists k :: 0 < k < |p| && IsLinkAt(es, p[..k])
  }

  /** Some proper ancestor of `p` is a regular file. */
  ghost predicate FileOver(es: Entries, p: Path) {
    exists k :: 0 < k < |p| && IsFileAt(es, p[..k])
  }

  /** One step down: everything about `[n] + r` is said by the entry `n` and by `r` below it. */
  lemma AtStep(es: Entries, n: Name, r: Path)
    ensures At(es, [n] + r) ==
            match Lookup(es, n)
            case None => None
            case Some(i) => if r == [] then Some(i) else if i.Directory? then At(i.entries, r) else None
  {
    assert ([n] + r)[1..] == r;
  }

  lemma {:induction false} AtAppend(es: Entries, p: Path, s: Path)
    requires p != [] && s != []
    ensures At(es, p + s) == if IsDirAt(es, p) then At(At(es, p).value.entries, s) else None
    decreases |p|
  {
    AtStep(es, p[0], p[1..] + s);
    assert [p[0]] + (p[1..] + s) == p + s;
    var i := Lookup(es, p[0]);
    if |p| == 1 {
      assert p[1..] + s == s;
    } else if i.Some? && i.value.Directory? {
      AtAppend(i.value.entries, p[1..], s);
    }
  }

  /** What lies at a path lies in directories all the way up. */
  lemma AncestorsAreDirs(es: Entries, p: Path, k: nat)
    requires At(es, p).Some? && k < |p|
    ensures IsDirAt(es, p[..k])
  {
    if k > 0 {
      AtAppend(es, p[..k], p[k..]);
      assert p[..k] + p[k..] == p;
    }
  }

  lemma LeafAboveStep(es: Entries, n: Name, r: Path)
    ensures LeafAbove(es, [n] + r) <==>
            r != [] && Lookup(es, n).Some? &&
            (Lookup(es, n).value.Leaf? || LeafAbove(Lookup(es, n).value.entries, r))
  {
    var p := [n] + r;
    var i := Lookup(es, n);
    forall k | 0 < k < |p|
      ensures IsLeafAt(es, p[..k]) <==>
              i.Some? && if k == 1 then i.value.Leaf? else i.value.Directory? && IsLeafAt(i.value.entries, r[..k - 1])
    {
      AtStep(es, n, r[..k - 1]);
      assert [n] + r[..k - 1] == p[..k];
    }
    if LeafAbove(es, p) {
      var k :| 0 < k < |p| && IsLeafAt(es, p[..k]);
      if k > 1 {
        assert IsLeafAt(i.value.entries, r[..k - 1]);
      }
    }
    if r != [] && i.Some? {
      if i.value.Leaf? {
        assert IsLeafAt(es, p[..1]);
      } else if LeafAbove(i.value.entries, r) {
        var k :| 0 < k < |r| && IsLeafAt(i.value.entries, r[..k]);
        assert IsLeafAt(es, p[..k + 1]);
      }
    }
  }

  /** The three outcomes of a directory lookup, said of the whole tree. */
  lemma {:induction false} GetDirectoryMeaning(es: Entries, p: Path)
    ensures GetDirectory(es, p).Found? <==> IsDirAt(es, p)
    ensures GetDirectory(es, p).NotADirectory? <==> IsLeafAt(es, p) || LeafAbove(es, p)
    ensures p != [] && GetDirectory(es, p).Found? ==> GetDirectory(es, p).entries == At(es, p).value.entries
    ensures p == [] ==> GetDirectory(es, p) == Found(es)
    decreases |p|
  {
    if p != [] {
      var n, r := p[0], p[1..];
      assert p == [n] + r;
      AtStep(es, n, r);
      LeafAboveStep(es, n, r);
      var i := Lookup(es, n);
      if i.Some? && i.value.Directory? {
        GetDirectoryMeaning(i.value.entries, r);
      }
    }
  }

  /** Splitting a path and looking up its last component finds exactly the inode at that path. */
  lemma SplitMeaning(es: Entries, p: Path)
    requires p != []
    ensures SplitPath(es, p).Split? <==> IsDirAt(es, Parent(p))
    ensures SplitPath(es, p).Split? ==> Lookup(SplitPath(es, p).dir, SplitPath(es, p).name) == At(es, p)
    ensures SplitPath(es, p) == SplitError(NotADirectory) <==> LeafAbove(es, p)
    ensures !SplitPath(es, p).Split? ==> At(es, p).None? && (SplitPath(es, p) == SplitError(NotADirectory) || SplitPath(es, p) == SplitError(NotFound))
  {
    GetDirectoryMeaning(es, Parent(p));
    LastStep(es, p);
    LeafAboveParent(es, p);
  }

  lemma LastStep(es: Entries, p: Path)
    requires p != []
    ensures var d := GetDirectory(es, Parent(p));
            At(es, p) == if d.Found? then Lookup(d.entries, p[|p| - 1]) else None
  {
    var q, n := Parent(p), p[|p| - 1];
    assert p == q + [n];
    GetDirectoryMeaning(es, q);
    if q != [] {
      AtAppend(es, q, [n]);
    }
  }

  lemma LeafAboveParent(es: Entries, p: Path)
    requires p != []
    ensures LeafAbove(es, p) <==> IsLeafAt(es, Parent(p)) || LeafAbove(es, Parent(p))
  {
    var q := Parent(p);
    if LeafAbove(es, p) {
      var k :| 0 < k < |p| && IsLeafAt(es, p[..k]);
      assert p[..k] == if k == |q| then q else q[..k];
    }
    if IsLeafAt(es, q) {
      assert p[..|q|] == q && 0 < |q|;
    }
    if LeafAbove(es, q) {
      var k :| 0 < k < |q| && IsLeafAt(es, q[..k]);
      assert p[..k] == q[..k];
    }
  }
}
