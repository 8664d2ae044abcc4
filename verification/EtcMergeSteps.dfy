/** What one step and one whole phase of a merge do to the live tree, when the lists come in
    an order that has every needed directory ready. */
module EtcMergeSteps {
  import opened Common
  import opened EtcTree
  import opened LiveTree
  import opened EtcMerge
  import opened EtcDiffOrder

  /** Everything lies in directories. */
  ghost predicate Closed(m: Tree) {
    forall p, k :: p in m && 0 < k < |p| ==> p[..k] in m && m[p[..k]].DirObj?
  }

  ghost predicate DirsAbove(m: Tree, p: Path) {
    forall k :: 0 < k < |p| ==> p[..k] in m && m[p[..k]].DirObj?
  }

  /** `p` of current can be put where new has nothing, or something of the same kind. */
  ghost predicate Placeable(current: Entries, new_: Entries, p: Path) {
    && p != [] && At(current, p).Some?
    && !LeafAbove(new_, p)
    && (At(new_, p).Some? ==> (At(new_, p).value.Directory? <==> At(current, p).value.Directory?))
  }

  /** What a merge leaves at a listed path: current's leaf, or a directory with current's mode
      and owner that keeps new's attributes beside current's. */
  ghost function Written(current: Entries, new_: Entries, p: Path): Obj
    requires At(current, p).Some?
  {
    var i := At(current, p).value;
    if i.Leaf? then Copied(i)
    else
      var had := if p != [] && IsDirAt(new_, p) then At(new_, p).value.stat.xattrs else map[];
      DirObj(i.stat.mode, i.stat.uid, i.stat.gid, had + i.stat.xattrs)
  }

  ghost predicate OverlayAt(m: Tree, current: Entries, new_: Entries, done: seq<Path>, p: Path)
    requires p in done ==> At(current, p).Some?
  {
    && (p in m <==> At(new_, p).Some? || p in done)
    && (p in m ==> m[p] == if p in done then Written(current, new_, p) else ObjOf(At(new_, p).value))
  }

  /** The live tree is new with the paths of `done` written over it. */
  ghost predicate Overlay(m: Tree, current: Entries, new_: Entries, done: seq<Path>) {
    && (forall p :: p in done ==> Placeable(current, new_, p))
    && (forall p :: OverlayAt(m, current, new_, done, p))
  }

  lemma CreateDirEffect(m: Tree, host: Host, p: Path, stat: Stat, newInode: Option<Inode>)
    requires p != [] && DirsAbove(m, p)
    requires p in m ==> m[p].DirObj?
    requires newInode.Some? ==> newInode.value.Directory? && p in m
    ensures var had := if p in m then m[p].xattrs else map[];
            CreateDir(m, host, p, stat, newInode) ==
            Outcome(m[p := DirObj(stat.mode, stat.uid, stat.gid, had + stat.xattrs)], None)
  {
    if newInode.None? {
      MkdirEffect(m, host, p);
    }
    var o := if p in m then m[p] else DirObj(host.mode, host.uid, host.gid, map[]);
    DressEffect(m, p, DirObj(stat.mode, o.uid, o.gid, o.xattrs), stat);
  }

  lemma MkdirEffect(m: Tree, host: Host, p: Path)
    requires p != [] && DirsAbove(m, p)
    requires p in m ==> m[p].DirObj?
    ensures CreateDirAll(m, host, p) ==
            Done(if p in m then m else m[p := DirObj(host.mode, host.uid, host.gid, map[])])
  {
    var missing := set k | 0 < k <= |p| && p[..k] !in m :: p[..k];
    assert p[..|p|] == p;
    assert missing == if p in m then {} else {p};
  }

  lemma PutLeafEffect(m: Tree, host: Host, p: Path, leaf: Inode, newInode: Option<Inode>)
    requires p != [] && leaf.Leaf? && DirsAbove(m, p)
    requires p in m ==> !m[p].DirObj?
    requires newInode.Some? ==> newInode.value.Leaf?
    ensures PutLeaf(m, host, p, leaf, newInode) == Outcome(m[p := Copied(leaf)], None)
  {
    RemoveBeforePut(m, p);
    var gone := m - {p};
    assert ParentIsDir(gone, p);
    match leaf.content {
      case Symlink(t) =>
        DressEffect(gone, p, LinkObj(host.uid, host.gid, map[], t), leaf.stat);
      case Regular(_, _, d) =>
        DressEffect(gone, p, FileObj(leaf.stat.mode, host.uid, host.gid, map[], d, None), leaf.stat);
    }
    assert map[] + leaf.stat.xattrs == leaf.stat.xattrs;
    assert gone[p := Copied(leaf)] == m[p := Copied(leaf)];
  }

  lemma RemoveBeforePut(m: Tree, p: Path)
    requires DirsAbove(m, p)
    requires p in m ==> !m[p].DirObj?
    ensures RemoveAllOptional(m, p) == Done(m - {p})
  {
    assert p !in m ==> m - {p} == m;
  }

  lemma DressEffect(m: Tree, p: Path, o: Obj, stat: Stat)
    ensures Dress(m[p := o], p, stat) ==
            Outcome(m[p := WithXattrs(WithOwner(o, stat.uid, stat.gid), o.xattrs + stat.xattrs)], None)
  {
  }

  /** All ancestors of `p` are directories of new or already written. */
  ghost predicate Ready(new_: Entries, done: seq<Path>, p: Path) {
    forall k :: 0 < k < |p| ==> IsDirAt(new_, p[..k]) || p[..k] in done
  }

  lemma ReadyDirsAbove(m: Tree, current: Entries, new_: Entries, done: seq<Path>, p: Path)
    requires Overlay(m, current, new_, done) && At(current, p).Some? && Ready(new_, done, p)
    ensures DirsAbove(m, p)
  {
    forall k | 0 < k < |p|
      ensures p[..k] in m && m[p[..k]].DirObj?
    {
      AncestorsAreDirs(current, p, k);
      assert OverlayAt(m, current, new_, done, p[..k]);
    }
  }

  /** Where new has no leaf in the way, a listed path is written over what new has there. */
  lemma PlaceMeaning(m: Tree, host: Host, i: Inode, new_: Entries, p: Path)
    requires p != []
    ensures Place(m, host, i, new_, p) ==
            if LeafAbove(new_, p) then Outcome(m, Some(BlockedInNew)) else PlaceOver(m, host, i, At(new_, p), p)
  {
    SplitMeaning(new_, p);
  }

  lemma MergeOneMeaning(m: Tree, host: Host, current: Entries, new_: Entries, p: Path)
    requires At(current, p).Some?
    ensures MergeOne(m, host, current, new_, p) == Place(m, host, At(current, p).value, new_, p)
  {
    SplitMeaning(current, p);
  }

  lemma PlaceEffect(m: Tree, host: Host, current: Entries, new_: Entries, done: seq<Path>, p: Path)
    requires Overlay(m, current, new_, done) && Ready(new_, done, p)
    requires Placeable(current, new_, p)
    ensures PlaceOver(m, host, At(current, p).value, At(new_, p), p) ==
            Outcome(m[p := Written(current, new_, p)], None)
  {
    var i, j := At(current, p).value, At(new_, p);
    ReadyDirsAbove(m, current, new_, done, p);
    assert OverlayAt(m, current, new_, done, p);
    if i.Leaf? {
      PutLeafEffect(m, host, p, i, j);
    } else {
      CreateDirEffect(m, host, p, i.stat, j);
      if p in done {
        var had := if IsDirAt(new_, p) then j.value.stat.xattrs else map[];
        assert (had + i.stat.xattrs) + i.stat.xattrs == had + i.stat.xattrs;
      }
    }
  }

  lemma OverlayGrows(m: Tree, current: Entries, new_: Entries, done: seq<Path>, p: Path)
    requires Overlay(m, current, new_, done) && Placeable(current, new_, p)
    ensures Overlay(m[p := Written(current, new_, p)], current, new_, done + [p])
  {
    var m2, done2 := m[p := Written(current, new_, p)], done + [p];
    forall q ensures q in done2 ==> Placeable(current, new_, q) { }
    forall q ensures OverlayAt(m2, current, new_, done2, q) {
      assert OverlayAt(m, current, new_, done, q);
    }
  }

  lemma ClosedGrows(m: Tree, current: Entries, new_: Entries, done: seq<Path>, p: Path)
    requires Overlay(m, current, new_, done) && Closed(m)
    requires Placeable(current, new_, p) && Ready(new_, done, p)
    ensures Closed(m[p := Written(current, new_, p)])
  {
    ReadyDirsAbove(m, current, new_, done, p);
    assert OverlayAt(m, current, new_, done, p);
    var m2 := m[p := Written(current, new_, p)];
    forall q, k | q in m2 && 0 < k < |q|
      ensures q[..k] in m2 && m2[q[..k]].DirObj?
    {
      if q[..k] == p {
        assert p in m && m[p].DirObj?;
      }
    }
  }

  /** The merge refused a path because new has another kind of inode at or above it. */
  ghost predicate IsKindConflict(e: MergeError) {
    e == DirectoryNewlyFile || e == FileNewlyDirectory || e == BlockedInNew
  }

  /** One listed path: it is written exactly if it can be placed, and then nothing else changes. */
  lemma StepExact(m: Tree, host: Host, current: Entries, new_: Entries, done: seq<Path>, p: Path)
    requires Overlay(m, current, new_, done) && Closed(m)
    requires At(current, p).Some? && Ready(new_, done, p)
    ensures var o := MergeOne(m, host, current, new_, p);
            && (o.error.None? <==> Placeable(current, new_, p))
            && (o.error.None? ==> Overlay(o.tree, current, new_, done + [p]) && Closed(o.tree))
            && (o.error.Some? ==> IsKindConflict(o.error.value) && o.tree == m)
  {
    MergeOneMeaning(m, host, current, new_, p);
    PlaceMeaning(m, host, At(current, p).value, new_, p);
    if Placeable(current, new_, p) {
      PlaceEffect(m, host, current, new_, done, p);
      OverlayGrows(m, current, new_, done, p);
      ClosedGrows(m, current, new_, done, p);
    }
  }

  /** What a path that cannot be placed is refused for: a leaf of new above it, or else the kind
      that new has at the path itself. */
  lemma RefusedFor(m: Tree, host: Host, current: Entries, new_: Entries, p: Path)
    requires p != [] && At(current, p).Some? && !Placeable(current, new_, p)
    ensures MergeOne(m, host, current, new_, p) ==
            Outcome(m, Some(if LeafAbove(new_, p) then BlockedInNew
                            else if IsLeafAt(new_, p) then DirectoryNewlyFile else FileNewlyDirectory))
  {
    MergeOneMeaning(m, host, current, new_, p);
    PlaceMeaning(m, host, At(current, p).value, new_, p);
  }

  lemma InOrderHead(done: seq<Path>, files: seq<Path>, new_: Entries)
    requires files != [] && InOrder(done, files, new_, 0)
    ensures Ready(new_, done, files[0])
    ensures InOrder(done + [files[0]], files[1..], new_, 0)
  {
    forall k | 0 < k < |files[0]|
      ensures IsDirAt(new_, files[0][..k]) || files[0][..k] in done
    {
      assert AncestorReady(done, files, new_, 0, k);
    }
    forall i, k | 0 <= i < |files[1..]| && 0 < k < |files[1..][i]|
      ensures AncestorReady(done + [files[0]], files[1..], new_, i, k)
    {
      assert AncestorReady(done, files, new_, i + 1, k);
      assert files[..i + 1] == [files[0]] + files[1..][..i];
    }
  }

  ghost predicate AllPlaceable(current: Entries, new_: Entries, files: seq<Path>) {
    forall p :: p in files ==> Placeable(current, new_, p)
  }

  lemma AllPlaceableStep(current: Entries, new_: Entries, files: seq<Path>)
    requires files != []
    ensures AllPlaceable(current, new_, files) <==>
            Placeable(current, new_, files[0]) && AllPlaceable(current, new_, files[1..])
  {
    assert files == [files[0]] + files[1..];
  }

  ghost predicate InTree(current: Entries, files: seq<Path>) {
    forall p :: p in files ==> At(current, p).Some?
  }

  lemma ListStep(m: Tree, host: Host, current: Entries, new_: Entries, done: seq<Path>, files: seq<Path>)
    returns (one: Outcome)
    requires Overlay(m, current, new_, done) && Closed(m)
    requires files != [] && InTree(current, files) && InOrder(done, files, new_, 0)
    ensures one.error.None? <==> Placeable(current, new_, files[0])
    ensures one.error.Some? ==> IsKindConflict(one.error.value) && one.tree == m
    ensures one.error.None? ==> Overlay(one.tree, current, new_, done + [files[0]]) && Closed(one.tree)
    ensures MergeList(m, host, current, new_, files) ==
            if one.error.Some? then one else MergeList(one.tree, host, current, new_, files[1..])
    ensures InTree(current, files[1..]) && InOrder(done + [files[0]], files[1..], new_, 0)
  {
    one := MergeOne(m, host, current, new_, files[0]);
    assert files[0] in files;
    assert forall p :: p in files[1..] ==> p in files;
    InOrderHead(done, files, new_);
    StepExact(m, host, current, new_, done, files[0]);
  }

  /** The list stopped at its first path that cannot be placed, and what came before is written. */
  ghost predicate StoppedAt(m: Tree, current: Entries, new_: Entries, done: seq<Path>, files: seq<Path>, k: nat) {
    && k < |files| && AllPlaceable(current, new_, files[..k]) && !Placeable(current, new_, files[k])
    && Overlay(m, current, new_, done + files[..k])
  }

  /** What replaying `files` after `done` leaves. */
  ghost predicate ListOutcome(o: Outcome, current: Entries, new_: Entries, done: seq<Path>, files: seq<Path>) {
    && (o.error.None? <==> AllPlaceable(current, new_, files))
    && (o.error.None? ==> Overlay(o.tree, current, new_, done + files) && Closed(o.tree))
    && (o.error.Some? ==> IsKindConflict(o.error.value))
    && (o.error.Some? ==> exists k :: StoppedAt(o.tree, current, new_, done, files, k))
  }

  lemma ListOutcomeStep(o: Outcome, current: Entries, new_: Entries, done: seq<Path>, files: seq<Path>)
    requires files != [] && Placeable(current, new_, files[0])
    requires ListOutcome(o, current, new_, done + [files[0]], files[1..])
    ensures ListOutcome(o, current, new_, done, files)
  {
    AllPlaceableStep(current, new_, files);
    assert done + [files[0]] + files[1..] == done + files;
    if o.error.Some? {
      var k :| StoppedAt(o.tree, current, new_, done + [files[0]], files[1..], k);
      StoppedLater(o.tree, current, new_, done, files, k);
    }
  }

  lemma StoppedLater(m: Tree, current: Entries, new_: Entries, done: seq<Path>, files: seq<Path>, k: nat)
    requires files != [] && Placeable(current, new_, files[0])
    requires StoppedAt(m, current, new_, done + [files[0]], files[1..], k)
    ensures StoppedAt(m, current, new_, done, files, k + 1)
  {
    assert files[..k + 1] == [files[0]] + files[1..][..k];
    assert done + [files[0]] + files[1..][..k] == done + files[..k + 1];
  }

  /** A whole list: it is replayed to the end exactly if each of its paths can be placed, and
      what stops it is always a kind conflict, never a missing parent directory. Then the paths
      before the first that cannot be placed are written, and nothing else. */
  lemma {:induction false} ListExact(m: Tree, host: Host, current: Entries, new_: Entries, done: seq<Path>, files: seq<Path>)
    requires Overlay(m, current, new_, done) && Closed(m)
    requires InTree(current, files) && InOrder(done, files, new_, 0)
    ensures ListOutcome(MergeList(m, host, current, new_, files), current, new_, done, files)
    decreases |files|
  {
    if files == [] {
      assert done + files == done;
    } else {
      var one := ListStep(m, host, current, new_, done, files);
      if one.error.None? {
        ListExact(one.tree, host, current, new_, done + [files[0]], files[1..]);
        ListOutcomeStep(MergeList(one.tree, host, current, new_, files[1..]), current, new_, done, files);
      } else {
        AllPlaceableStep(current, new_, files);
        assert done + files[..0] == done;
        assert StoppedAt(one.tree, current, new_, done, files, 0);
      }
    }
  }

  // -- Removal.

  ghost predicate Gone(removed: seq<Path>, p: Path) {
    exists r :: r in removed && r <= p
  }

  ghost function Keep(m: Tree, removed: seq<Path>): Tree {
    map p | p in m && !Gone(removed, p) :: m[p]
  }

  lemma RemoveAtEffect(m: Tree, r: Path)
    requires Closed(m) && r != []
    ensures RemoveAt(m, r) == RemoveTree(m, r)
  {
    if r !in m || !m[r].DirObj? {
      forall q | q in m && r <= q
        ensures q == r
      {
        assert q[..|r|] == r;
        assert |q| == |r| ==> q[..|r|] == q;
      }
    }
  }

  lemma RemoveTreeClosed(m: Tree, r: Path)
    requires Closed(m)
    ensures Closed(RemoveTree(m, r))
  {
    var m2 := RemoveTree(m, r);
    forall q, k | q in m2 && 0 < k < |q|
      ensures q[..k] in m2 && m2[q[..k]].DirObj?
    {
      assert r <= q[..k] ==> r <= q;
    }
  }

  lemma KeepStep(m: Tree, removed: seq<Path>)
    requires removed != []
    ensures Keep(RemoveTree(m, removed[0]), removed[1..]) == Keep(m, removed)
  {
    assert removed == [removed[0]] + removed[1..];
    forall p
      ensures Gone(removed, p) <==> removed[0] <= p || Gone(removed[1..], p)
    {
      if removed[0] <= p {
        assert removed[0] in removed;
      }
      if Gone(removed[1..], p) {
        var r :| r in removed[1..] && r <= p;
        assert r in removed;
      }
    }
  }

  lemma AboveKept(m: Tree, r: Path, s: Path)
    requires !(r < s)
    ensures FileAbove(RemoveTree(m, r), s) <==> FileAbove(m, s)
    ensures LinkAbove(RemoveTree(m, r), s) <==> LinkAbove(m, s)
  {
    var m2 := RemoveTree(m, r);
    forall k | 0 < k < |s|
      ensures s[..k] in m2 <==> s[..k] in m
      ensures s[..k] in m2 ==> m2[s[..k]] == m[s[..k]]
    {
      assert r <= s[..k] ==> r < s;
    }
  }

  ghost predicate Antichain(ps: seq<Path>) {
    forall r, s :: r in ps && s in ps ==> !(r < s)
  }

  /** The removals before index `k` were made, and that one is the first below a regular file. */
  ghost predicate HeldUpAt(o: Outcome, m: Tree, removed: seq<Path>, k: nat) {
    && k < |removed| && FileAbove(m, removed[k]) && (forall j :: 0 <= j < k ==> !FileAbove(m, removed[j]))
    && o == Outcome(Keep(m, removed[..k]), Some(IoFailure(NotADir)))
  }

  lemma HeldUpLater(o: Outcome, m: Tree, removed: seq<Path>, k: nat)
    requires removed != [] && !FileAbove(m, removed[0])
    requires HeldUpAt(o, RemoveTree(m, removed[0]), removed[1..], k)
    requires forall s :: s in removed[1..] ==> (FileAbove(RemoveTree(m, removed[0]), s) <==> FileAbove(m, s))
    ensures HeldUpAt(o, m, removed, k + 1)
  {
    var rest := removed[1..];
    assert forall j :: 0 <= j < |rest| ==> rest[j] in rest && rest[j] == removed[j + 1];
    assert removed[..k + 1][0] == removed[0] && removed[..k + 1][1..] == rest[..k];
    KeepStep(m, removed[..k + 1]);
  }

  /** Removing an antichain, none of it below a symbolic link, takes away exactly what lies at or
      below its members. It is refused exactly if one lies below a regular file; then it stops at
      the first such, and only what comes before that is gone. */
  lemma {:induction false} RemoveListExact(m: Tree, host: Host, removed: seq<Path>)
    requires Closed(m) && Antichain(removed) && [] !in removed
    requires forall r :: r in removed ==> !LinkAbove(m, r)
    ensures var o := RemoveList(m, host, removed);
            && (o.error.None? <==> forall r :: r in removed ==> !FileAbove(m, r))
            && (o.error.None? ==> o.tree == Keep(m, removed))
            && (o.error.Some? ==> exists k :: HeldUpAt(o, m, removed, k))
    decreases |removed|
  {
    if removed != [] {
      var r, rest, m2 := removed[0], removed[1..], RemoveTree(m, removed[0]);
      assert removed == [r] + rest;
      assert r in removed && forall s :: s in rest ==> s in removed;
      if !FileAbove(m, r) {
        RemoveAtEffect(m, r);
        RemoveTreeClosed(m, r);
        forall s | s in rest
          ensures FileAbove(m2, s) <==> FileAbove(m, s)
          ensures !LinkAbove(m2, s)
        {
          AboveKept(m, r, s);
        }
        RemoveListExact(m2, host, rest);
        KeepStep(m, removed);
        if RemoveList(m2, host, rest).error.Some? {
          var k: nat :| HeldUpAt(RemoveList(m2, host, rest), m2, rest, k);
          HeldUpLater(RemoveList(m2, host, rest), m, removed, k);
        }
      } else {
        KeepNone(m);
        assert removed[..0] == [];
        assert HeldUpAt(RemoveList(m, host, removed), m, removed, 0);
      }
    } else {
      assert Keep(m, removed) == m;
    }
  }

  lemma KeepNone(m: Tree)
    ensures Keep(m, []) == m
  {
  }

  // -- Removal through symbolic links.

  /** What the removals take away, wherever they lead. */
  function Hits(m: Tree, host: Host, removed: seq<Path>): seq<Path>
    decreases |removed|
  {
    if removed == [] then []
    else
      var l := Locate(m, host, removed[0]);
      if l.Reaches? && l.path in m then [l.path] + Hits(RemoveAt(m, l.path), host, removed[1..])
      else Hits(m, host, removed[1..])
  }

  /** Whatever links are in the way, removals that are not refused take away exactly what lies at
      or below what they lead to. */
  lemma {:induction false} RemoveListHits(m: Tree, host: Host, removed: seq<Path>)
    requires Closed(m) && [] !in m
    requires RemoveList(m, host, removed).error.None?
    ensures RemoveList(m, host, removed).tree == Keep(m, Hits(m, host, removed))
    decreases |removed|
  {
    if removed == [] {
      assert Keep(m, []) == m;
    } else {
      var l, rest := Locate(m, host, removed[0]), removed[1..];
      if l.Reaches? && l.path in m {
        var m2, hits := RemoveTree(m, l.path), Hits(m, host, removed);
        RemoveAtEffect(m, l.path);
        RemoveTreeClosed(m, l.path);
        RemoveListHits(m2, host, rest);
        assert hits[0] == l.path && hits[1..] == Hits(m2, host, rest);
        KeepStep(m, hits);
      } else {
        RemoveListHits(m, host, rest);
      }
    }
  }

  /** The tree after the first `n` removals, wherever they lead. */
  ghost function After(m: Tree, host: Host, removed: seq<Path>, n: nat): Tree
    requires n <= |removed|
  {
    Keep(m, Hits(m, host, removed[..n]))
  }

  /** The tree after one removal that is not refused. */
  ghost function AfterOne(m: Tree, host: Host, r: Path): Tree {
    var l := Locate(m, host, r);
    if l.Reaches? && l.path in m then RemoveTree(m, l.path) else m
  }

  lemma AfterNone(m: Tree, host: Host, removed: seq<Path>)
    ensures After(m, host, removed, 0) == m
  {
    KeepNone(m);
    assert removed[..0] == [];
  }

  lemma AfterStep(m: Tree, host: Host, removed: seq<Path>, n: nat)
    requires Closed(m) && [] !in m && n < |removed|
    ensures After(m, host, removed, n + 1) == After(AfterOne(m, host, removed[0]), host, removed[1..], n)
  {
    var l, head := Locate(m, host, removed[0]), removed[..n + 1];
    assert head[0] == removed[0] && head[1..] == removed[1..][..n];
    if l.Reaches? && l.path in m {
      RemoveAtEffect(m, l.path);
      var hits := Hits(m, host, head);
      assert hits[0] == l.path && hits[1..] == Hits(RemoveTree(m, l.path), host, head[1..]);
      KeepStep(m, hits);
    }
  }

  lemma AfterOneClosed(m: Tree, host: Host, r: Path)
    requires Closed(m) && [] !in m
    ensures var m2 := AfterOne(m, host, r); Closed(m2) && [] !in m2
    ensures !Locate(m, host, r).Refused? ==> RemoveOne(m, host, r) == Outcome(AfterOne(m, host, r), None)
  {
    var l := Locate(m, host, r);
    if l.Reaches? && l.path in m {
      RemoveAtEffect(m, l.path);
      RemoveTreeClosed(m, l.path);
    }
  }

  /** The removals before index `k` were made, wherever they led, and that one is the first that
      the system refuses. */
  ghost predicate RefusedAt(o: Outcome, m: Tree, host: Host, removed: seq<Path>, k: nat) {
    && k < |removed|
    && o.tree == After(m, host, removed, k)
    && Locate(o.tree, host, removed[k]).Refused?
    && o.error == Some(IoFailure(Locate(o.tree, host, removed[k]).error))
    && forall j :: 0 <= j < k ==> !Locate(After(m, host, removed, j), host, removed[j]).Refused?
  }

  /** Whatever links are in the way, a refused removal is the last one tried. */
  lemma {:induction false} RemoveListStops(m: Tree, host: Host, removed: seq<Path>) returns (k: nat)
    requires Closed(m) && [] !in m
    requires RemoveList(m, host, removed).error.Some?
    ensures RefusedAt(RemoveList(m, host, removed), m, host, removed, k)
    decreases |removed|
  {
    AfterNone(m, host, removed);
    if Locate(m, host, removed[0]).Refused? {
      k := 0;
    } else {
      var m2 := AfterOne(m, host, removed[0]);
      AfterOneClosed(m, host, removed[0]);
      k := RemoveListStops(m2, host, removed[1..]);
      RefusedLater(RemoveList(m2, host, removed[1..]), m, host, removed, k);
      k := k + 1;
    }
  }

  lemma RefusedLater(o: Outcome, m: Tree, host: Host, removed: seq<Path>, k: nat)
    requires Closed(m) && [] !in m && removed != [] && !Locate(m, host, removed[0]).Refused?
    requires RefusedAt(o, AfterOne(m, host, removed[0]), host, removed[1..], k)
    ensures RefusedAt(o, m, host, removed, k + 1)
  {
    AfterStep(m, host, removed, k);
    forall j | 0 <= j < k + 1
      ensures !Locate(After(m, host, removed, j), host, removed[j]).Refused?
    {
      NotRefusedBefore(o, m, host, removed, k, j);
    }
  }

  lemma NotRefusedBefore(o: Outcome, m: Tree, host: Host, removed: seq<Path>, k: nat, j: nat)
    requires Closed(m) && [] !in m && removed != [] && !Locate(m, host, removed[0]).Refused?
    requires RefusedAt(o, AfterOne(m, host, removed[0]), host, removed[1..], k) && j <= k
    ensures !Locate(After(m, host, removed, j), host, removed[j]).Refused?
  {
    if j == 0 {
      AfterNone(m, host, removed);
    } else {
      AfterStep(m, host, removed, j - 1);
      assert removed[j] == removed[1..][j - 1];
    }
  }

  /** A listed removal that is there is always reached. */
  lemma {:induction false} HitsCover(m: Tree, host: Host, removed: seq<Path>, r: Path)
    requires Closed(m) && [] !in m && r in removed && r in m
    ensures Gone(Hits(m, host, removed), r)
    decreases |removed|
  {
    var l, rest, hits := Locate(m, host, removed[0]), removed[1..], Hits(m, host, removed);
    if l.Reaches? && l.path in m {
      var m2 := RemoveTree(m, l.path);
      RemoveAtEffect(m, l.path);
      RemoveTreeClosed(m, l.path);
      var later := Hits(m2, host, rest);
      assert hits == [l.path] + later;
      if l.path <= r {
        assert l.path in hits;
      } else {
        assert r in m2;
        assert r in rest;
        HitsCover(m2, host, rest, r);
        var q :| q in later && q <= r;
        assert q in hits;
      }
    } else {
      HitsCover(m, host, rest, r);
    }
  }
}
