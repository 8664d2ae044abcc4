/** Consequences of the three-way rule, and the method that computes a diff and merges it. */
module EtcMergeLaws {
  import opened Common
  import opened EtcTree
  import opened LiveTree
  import opened EtcMerge
  import opened EtcMergeSteps
  import opened EtcMergeSpec
  import opened EtcDiff
  import opened EtcDiffExact
  import opened EtcDiffReports
  import opened EtcDiffOrder

  /** Computing the diff and merging it at finalization. The live tree ends as the three-way
      rule says, or the merge reports why it cannot. Deletions below a symbolic link of new can
      take away more. */
  method FinalizeEtc(pristine: Entries, current: Entries, new_: Entries, live: LiveEtc) returns (error: Option<MergeError>)
    requires WellFormed(pristine) && WellFormed(current) && Mirrors(live.tree, new_)
    modifies live
    ensures NoneThroughLinks(pristine, current, new_) ==> (error.None? <==> Mergable(pristine, current, new_))
    ensures error.None? ==> forall p :: p in live.tree ==> Get(live.tree, p) == ThreeWay(pristine, current, new_, p)
    ensures error.None? && NoneThroughLinks(pristine, current, new_) ==>
              forall p :: Get(live.tree, p) == ThreeWay(pristine, current, new_, p)
    ensures error.None? ==>
              ((forall p :: Get(live.tree, p) == ThreeWay(pristine, current, new_, p)) <==>
               forall q :: q in TakenAway(pristine, current, new_, old(live.tree), live.host) ==>
                 ThreeWay(pristine, current, new_, q).None?)
  {
    if NoneThroughLinks(pristine, current, new_) {
      MergeRefinesThreeWay(pristine, current, new_, live.tree, live.host);
    }
    if DiffAndMerge(pristine, current, new_, live.tree, live.host).error.None? {
      ThroughLinksIff(pristine, current, new_, live.tree, live.host);
    }
    var diff := ComputeDiff(pristine, current, new_);
    error := Merge(current, live, new_, diff);
  }

  /** A leaf of current occurs in `added` and `modified` exactly once if it is new or differs in
      stat, kind, hash or link target, and not at all otherwise or below a leaf of pristine. */
  lemma LeafDiffExact(pristine: Entries, current: Entries, new_: Entries, p: Path)
    requires WellFormed(current) && IsLeafAt(current, p)
    ensures var c := Mods(pristine, current, new_, []);
            Count(c.added + c.modified, p) ==
            Bit(!LeafAbove(pristine, p) && !SameEntry(At(pristine, p), At(current, p).value))
    ensures p in Mods(pristine, current, new_, []).added <==>
            At(pristine, p).None? && !LeafAbove(pristine, p)
  {
    var c := Mods(pristine, current, new_, []);
    ModsExactAt(pristine, current, new_, [], p);
    assert [] + p == p;
    CountConcat(c.added, c.modified, p);
    CountIn(c.added, p);
  }

  /** The two rules for files: what was modified or added locally is retained, what was not
      modified is upgraded to the new default. Both hold of every file that is still there; only
      a deletion below a symbolic link of new can lead to another file and take it away. */
  lemma RetainedOrUpgraded(pristine: Entries, current: Entries, new_: Entries, m: Tree, host: Host, p: Path)
    requires WellFormed(pristine) && WellFormed(current) && Mirrors(m, new_)
    requires DiffAndMerge(pristine, current, new_, m, host).error.None?
    requires IsLeafAt(current, p) && !LeafAbove(pristine, p)
    ensures var o := DiffAndMerge(pristine, current, new_, m, host);
            NoneThroughLinks(pristine, current, new_) || p in o.tree ==>
            Get(o.tree, p) ==
            if SameEntry(At(pristine, p), At(current, p).value) then Get(m, p) else Some(Copied(At(current, p).value))
  {
    var o := DiffAndMerge(pristine, current, new_, m, host);
    if NoneThroughLinks(pristine, current, new_) {
      MergeRefinesThreeWay(pristine, current, new_, m, host);
    } else {
      ThroughLinksIff(pristine, current, new_, m, host);
    }
    assert NoneThroughLinks(pristine, current, new_) || p in o.tree ==>
        Get(o.tree, p) == ThreeWay(pristine, current, new_, p);
    if Deleted(pristine, current, p) {
      var k :| 0 < k <= |p| && Removed(pristine, current, p[..k]);
      PrefixInTree(current, p[..k], p);
    }
  }

  /** What was deleted locally, and everything new has below it, is absent from the result. */
  lemma DeletedStaysAway(pristine: Entries, current: Entries, new_: Entries, m: Tree, host: Host, r: Path, p: Path)
    requires WellFormed(pristine) && WellFormed(current) && Mirrors(m, new_)
    requires DiffAndMerge(pristine, current, new_, m, host).error.None?
    requires Removed(pristine, current, r) && r <= p
    ensures p !in DiffAndMerge(pristine, current, new_, m, host).tree
  {
    ThroughLinksIff(pristine, current, new_, m, host);
    assert r == p[..|r|];
    if At(current, p).Some? {
      PrefixInTree(current, r, p);
    }
  }

  // -- Conflicts.

  /** A conflict is reported exactly at the checked paths whose kind in new is another one. */
  lemma ReportedExactly(pristine: Entries, current: Entries, new_: Entries, p: Path, why: Reason)
    requires WellFormed(current) && p != []
    ensures Unmergable(p, why) in Mods(pristine, current, new_, []).unmergable <==>
            Checked(pristine, current, p) && Conflicts(At(current, p).value, new_, p, why)
  {
    Reports(pristine, current, new_, [], p, why);
    assert [] + p == p;
    CountIn(Mods(pristine, current, new_, []).unmergable, Unmergable(p, why));
  }

  /** A carried path whose kind differs from new's is reported unless it lies inside an added
      directory, or is a directory kept from pristine below which nothing changed. */
  lemma UnreportedOnlyThere(pristine: Entries, current: Entries, new_: Entries, p: Path)
    requires WellFormed(current) && Listed(pristine, current, new_, p)
    requires At(new_, p).Some? && At(new_, p).value.Directory? != At(current, p).value.Directory?
    ensures (exists why :: Unmergable(p, why) in Mods(pristine, current, new_, []).unmergable) <==>
            IsDirAt(pristine, Parent(p)) && (BothDirs(pristine, current, p) ==> TouchedBelow(pristine, current, p))
  {
    var why := if At(current, p).value.Directory? then DirectoryNowFile else FileNowDirectory;
    forall w ensures Unmergable(p, w) in Mods(pristine, current, new_, []).unmergable <==>
                     Checked(pristine, current, p) && Conflicts(At(current, p).value, new_, p, w) {
      ReportedExactly(pristine, current, new_, p, w);
    }
    assert Conflicts(At(current, p).value, new_, p, why);
    if Checked(pristine, current, p) {
      assert Unmergable(p, why) in Mods(pristine, current, new_, []).unmergable;
    }
  }

  ghost predicate KindsDiffer(current: Entries, new_: Entries, p: Path) {
    At(current, p).Some? && At(new_, p).Some? && At(current, p).value.Directory? != At(new_, p).value.Directory?
  }

  /** A carried path meets the other kind in new, at a place where the walk does not look. */
  ghost predicate SilentConflict(pristine: Entries, current: Entries, new_: Entries, p: Path) {
    && Listed(pristine, current, new_, p) && KindsDiffer(current, new_, p)
    && (!IsDirAt(pristine, Parent(p)) || (BothDirs(pristine, current, p) && !TouchedBelow(pristine, current, p)))
  }

  /** A deleted path that lies below a regular file of new; deletions are never checked. */
  ghost predicate SilentDeletion(pristine: Entries, current: Entries, new_: Entries, r: Path) {
    Removed(pristine, current, r) && FileOver(new_, r)
  }

  /** A listed path below a leaf of new has that ancestor listed too. */
  lemma BlockedAncestorListed(pristine: Entries, current: Entries, new_: Entries, p: Path, k: nat)
    requires WellFormed(current) && Listed(pristine, current, new_, p)
    requires 0 < k < |p| && IsLeafAt(new_, p[..k])
    ensures Listed(pristine, current, new_, p[..k]) && KindsDiffer(current, new_, p[..k])
  {
    var c := Mods(pristine, current, new_, []);
    var list := c.added + c.modified;
    ListedExact(pristine, current, new_, p);
    assert p in list;
    var i :| 0 <= i < |list| && list[i] == p;
    AncestorsComeFirst(pristine, current, new_, i, k);
    assert p[..k] in list;
    ListedExact(pristine, current, new_, p[..k]);
    AncestorsAreDirs(current, p, k);
  }

  /** Unplaceable means a kind conflict, at the path or above it, at a listed path. */
  lemma ConflictAtOrAbove(pristine: Entries, current: Entries, new_: Entries, p: Path) returns (q: Path)
    requires WellFormed(current) && Listed(pristine, current, new_, p) && !Placeable(current, new_, p)
    ensures Listed(pristine, current, new_, q) && KindsDiffer(current, new_, q)
  {
    if LeafAbove(new_, p) {
      var k :| 0 < k < |p| && IsLeafAt(new_, p[..k]);
      BlockedAncestorListed(pristine, current, new_, p, k);
      q := p[..k];
    } else {
      q := p;
    }
  }

  /** When a merge fails, exactly: something was reported, or a conflict lies where the walk
      does not look, or a deletion lies below a regular file of new. The first two fail it
      always; the third is exact where no deletion lies below a symbolic link of new. */
  lemma FailsExactly(pristine: Entries, current: Entries, new_: Entries, m: Tree, host: Host)
    requires WellFormed(pristine) && WellFormed(current) && Mirrors(m, new_)
    ensures var conflict := || Mods(pristine, current, new_, []).unmergable != []
                            || exists p :: SilentConflict(pristine, current, new_, p);
            var error := DiffAndMerge(pristine, current, new_, m, host).error;
            && (conflict ==> error.Some?)
            && (NoneThroughLinks(pristine, current, new_) ==>
                (error.Some? <==> conflict || exists r :: SilentDeletion(pristine, current, new_, r)))
  {
    if Mods(pristine, current, new_, []).unmergable != [] {
      ReportedConflictsAreReal(pristine, current, new_, m, host);
    } else {
      SilentIffUnmergable(pristine, current, new_);
      if p :| SilentConflict(pristine, current, new_, p) {
        UnplaceableFails(pristine, current, new_, m, host, p);
      }
      if NoneThroughLinks(pristine, current, new_) {
        MergeRefinesThreeWay(pristine, current, new_, m, host);
      }
    }
  }

  /** A listed path that cannot be placed fails the merge, whatever is removed. */
  lemma UnplaceableFails(pristine: Entries, current: Entries, new_: Entries, m: Tree, host: Host, p: Path)
    requires WellFormed(current) && Mirrors(m, new_)
    requires Listed(pristine, current, new_, p) && !Placeable(current, new_, p)
    ensures DiffAndMerge(pristine, current, new_, m, host).error.Some?
  {
    UnplaceableStops(pristine, current, new_, m, host, p);
  }

  ghost predicate ShowsPartly(m: Tree, current: Entries, new_: Entries, written: seq<Path>) {
    forall p :: Get(m, p) ==
                if p in written && At(current, p).Some? then Some(Written(current, new_, p))
                else if At(new_, p).Some? then Some(ObjOf(At(new_, p).value))
                else None
  }

  /** What a merge with a conflict leaves behind: new, with the listed paths before the first
      that cannot be placed, at index `k`, written over it. Nothing is removed. */
  lemma ConflictLeaves(pristine: Entries, current: Entries, new_: Entries, m: Tree, host: Host, p: Path) returns (k: nat)
    requires WellFormed(current) && Mirrors(m, new_)
    requires Listed(pristine, current, new_, p) && !Placeable(current, new_, p)
    ensures var list := ToWrite(pristine, current, new_);
            && k < |list| && !Placeable(current, new_, list[k]) && AllPlaceable(current, new_, list[..k])
            && ShowsPartly(DiffAndMerge(pristine, current, new_, m, host).tree, current, new_, list[..k])
  {
    var list, b := ToWrite(pristine, current, new_), Writes(pristine, current, new_, m, host);
    WritePhase(pristine, current, new_, m, host);
    UnplaceableStops(pristine, current, new_, m, host, p);
    k :| StoppedAt(b.tree, current, new_, [], list, k);
    assert [] + list[..k] == list[..k];
    OverlayShows(b.tree, current, new_, list[..k]);
  }

  lemma UnplaceableStops(pristine: Entries, current: Entries, new_: Entries, m: Tree, host: Host, p: Path)
    requires WellFormed(current) && Mirrors(m, new_)
    requires Listed(pristine, current, new_, p) && !Placeable(current, new_, p)
    ensures var b := Writes(pristine, current, new_, m, host);
            b.error.Some? && DiffAndMerge(pristine, current, new_, m, host) == b
  {
    WritePhase(pristine, current, new_, m, host);
    WritesThenRemoves(pristine, current, new_, m, host);
    ToWriteExact(pristine, current, new_);
    assert p in ToWrite(pristine, current, new_);
  }

  /** What a refused removal leaves behind, wherever links lead: all that was to be written is
      written, the deletions before the refused one, at index `k`, are made, and no other. */
  lemma RefusalLeaves(pristine: Entries, current: Entries, new_: Entries, m: Tree, host: Host) returns (k: nat)
    requires WellFormed(current) && Mirrors(m, new_)
    requires forall p :: Listed(pristine, current, new_, p) ==> Placeable(current, new_, p)
    requires DiffAndMerge(pristine, current, new_, m, host).error.Some?
    ensures var b := Writes(pristine, current, new_, m, host);
            && b.error.None? && ShowsPartly(b.tree, current, new_, ToWrite(pristine, current, new_))
            && RefusedAt(DiffAndMerge(pristine, current, new_, m, host), b.tree, host, Dels(pristine, current, []), k)
  {
    var done, b := ToWrite(pristine, current, new_), Writes(pristine, current, new_, m, host);
    WritePhase(pristine, current, new_, m, host);
    WritesThenRemoves(pristine, current, new_, m, host);
    ToWriteExact(pristine, current, new_);
    assert AllPlaceable(current, new_, done);
    assert [] + done == done;
    OverlayShows(b.tree, current, new_, done);
    WritesClosed(b.tree, current, new_, done);
    k := RemoveListStops(b.tree, host, Dels(pristine, current, []));
  }

  /** The same where no deletion lies below a link of new: the first deletion below a regular file
      of new stops the merge, and exactly what lies at or below an earlier one is gone. */
  lemma RefusalLeavesPlainly(pristine: Entries, current: Entries, new_: Entries, m: Tree, host: Host) returns (k: nat)
    requires WellFormed(pristine) && WellFormed(current) && Mirrors(m, new_)
    requires NoneThroughLinks(pristine, current, new_)
    requires forall p :: Listed(pristine, current, new_, p) ==> Placeable(current, new_, p)
    requires DiffAndMerge(pristine, current, new_, m, host).error.Some?
    ensures var b, d := Writes(pristine, current, new_, m, host), Dels(pristine, current, []);
            && k < |d| && FileOver(new_, d[k]) && (forall j :: 0 <= j < k ==> !FileOver(new_, d[j]))
            && DiffAndMerge(pristine, current, new_, m, host) == Outcome(Keep(b.tree, d[..k]), Some(IoFailure(NotADir)))
  {
    var b, d := Writes(pristine, current, new_, m, host), Dels(pristine, current, []);
    var done := ToWrite(pristine, current, new_);
    WritePhase(pristine, current, new_, m, host);
    WritesThenRemoves(pristine, current, new_, m, host);
    ToWriteExact(pristine, current, new_);
    assert AllPlaceable(current, new_, done);
    assert [] + done == done;
    RemovedAntichain(pristine, current);
    AboveAllDeleted(b.tree, pristine, current, new_, done);
    k := FirstHeldUp(b.tree, host, d, new_);
  }

  lemma FirstHeldUp(m: Tree, host: Host, d: seq<Path>, new_: Entries) returns (k: nat)
    requires Closed(m) && Antichain(d) && [] !in d && RemoveList(m, host, d).error.Some?
    requires forall r :: r in d ==> (FileAbove(m, r) <==> FileOver(new_, r)) && !LinkAbove(m, r)
    ensures k < |d| && FileOver(new_, d[k]) && (forall j :: 0 <= j < k ==> !FileOver(new_, d[j]))
    ensures RemoveList(m, host, d) == Outcome(Keep(m, d[..k]), Some(IoFailure(NotADir)))
  {
    RemoveListExact(m, host, d);
    k :| HeldUpAt(RemoveList(m, host, d), m, d, k);
    assert forall j :: 0 <= j < |d| ==> d[j] in d;
  }

  lemma OverlayShows(m: Tree, current: Entries, new_: Entries, written: seq<Path>)
    requires Overlay(m, current, new_, written)
    ensures ShowsPartly(m, current, new_, written)
  {
    forall p | true
      ensures Get(m, p) == if p in written && At(current, p).Some? then Some(Written(current, new_, p))
                           else if At(new_, p).Some? then Some(ObjOf(At(new_, p).value)) else None
    {
      assert OverlayAt(m, current, new_, written, p);
    }
  }

  lemma SilentIffUnmergable(pristine: Entries, current: Entries, new_: Entries)
    requires WellFormed(current) && Mods(pristine, current, new_, []).unmergable == []
    ensures !Mergable(pristine, current, new_) <==>
            || (exists p :: SilentConflict(pristine, current, new_, p))
            || (exists r :: SilentDeletion(pristine, current, new_, r))
  {
    if p :| SilentConflict(pristine, current, new_, p) {
      assert !Placeable(current, new_, p);
    } else if p :| Listed(pristine, current, new_, p) && !Placeable(current, new_, p) {
      var q := ConflictAtOrAbove(pristine, current, new_, p);
      UnreportedOnlyThere(pristine, current, new_, q);
      assert SilentConflict(pristine, current, new_, q);
    } else if r :| Removed(pristine, current, r) && FileOver(new_, r) {
      assert SilentDeletion(pristine, current, new_, r);
    }
  }

  lemma ConflictIsListed(pristine: Entries, current: Entries, new_: Entries, p: Path, why: Reason)
    requires Checked(pristine, current, p) && Conflicts(At(current, p).value, new_, p, why)
    ensures Listed(pristine, current, new_, p) && !Placeable(current, new_, p)
  {
    if IsDirAt(new_, p) && LeafAbove(new_, p) {
      var k :| 0 < k < |p| && IsLeafAt(new_, p[..k]);
      AncestorsAreDirs(new_, p, k);
    }
  }

  /** Every reported conflict is real: a diff with one cannot be merged. */
  lemma ReportedConflictsAreReal(pristine: Entries, current: Entries, new_: Entries, m: Tree, host: Host)
    requires WellFormed(pristine) && WellFormed(current) && Mirrors(m, new_)
    requires Mods(pristine, current, new_, []).unmergable != []
    ensures DiffAndMerge(pristine, current, new_, m, host).error.Some?
  {
    var us := Mods(pristine, current, new_, []).unmergable;
    var u := us[0];
    ModsShape(pristine, current, new_, []);
    assert u in us && u == Unmergable(u.path, u.reason);
    ReportedExactly(pristine, current, new_, u.path, u.reason);
    ConflictIsListed(pristine, current, new_, u.path, u.reason);
    UnplaceableFails(pristine, current, new_, m, host, u.path);
  }

  // -- Laws.

  /** Two trees that the diff cannot tell apart at any path: equal up to modification times
      and fs-verity digests. */
  ghost predicate SameTree(a: Entries, b: Entries) {
    forall p :: (At(a, p).Some? <==> At(b, p).Some?) && (At(b, p).Some? ==> SameEntry(At(a, p), At(b, p).value))
  }

  /** Nothing changed locally: the diff is empty and the merge leaves new as it is. */
  lemma UnchangedMergesToNew(pristine: Entries, current: Entries, new_: Entries, m: Tree, host: Host)
    requires WellFormed(pristine) && WellFormed(current)
    requires SameTree(pristine, current)
    ensures Mods(pristine, current, new_, []) == Changes([], [], []) && Dels(pristine, current, []) == []
    ensures DiffAndMerge(pristine, current, new_, m, host) == Outcome(m, None)
  {
    var c, d := Mods(pristine, current, new_, []), Dels(pristine, current, []);
    assert forall p :: !Touched(pristine, current, p);
    ModsExact(pristine, current, new_, []);
    NonEmptyIffTouched(c, pristine, current, new_, []);
    UntouchedIsSilent(pristine, current, new_);
    if d != [] {
      assert d[0] in d;
      RemovedExact(pristine, current, d[0]);
    }
  }

  lemma UntouchedIsSilent(pristine: Entries, current: Entries, new_: Entries)
    requires WellFormed(current) && forall p :: !Touched(pristine, current, p)
    ensures Mods(pristine, current, new_, []).unmergable == []
  {
    var us := Mods(pristine, current, new_, []).unmergable;
    if us != [] {
      var u := us[0];
      ModsShape(pristine, current, new_, []);
      assert u in us && u == Unmergable(u.path, u.reason);
      ReportedExactly(pristine, current, new_, u.path, u.reason);
    }
  }

  /** `o` is what current has, up to modification time, fs-verity seal and surplus attributes of
      a directory. The bytes of a file are current's, or those of new's file with the same hash. */
  ghost predicate LooksLike(o: Option<Obj>, i: Option<Inode>, n: Option<Inode>) {
    match (o, i)
    case (None, None) => true
    case (Some(DirObj(m, u, g, x)), Some(Directory(st, _))) =>
      m == st.mode && u == st.uid && g == st.gid && forall a :: a in st.xattrs ==> a in x && x[a] == st.xattrs[a]
    case (Some(FileObj(m, u, g, x, d, _)), Some(Leaf(st, Regular(k, _, data)))) =>
      && m == st.mode && u == st.uid && g == st.gid && x == st.xattrs
      && (d == data || (n.Some? && HasHash(n.value, k) && n.value.content.data == d))
    case (Some(LinkObj(u, g, x, t)), Some(Leaf(st, Symlink(s)))) =>
      u == st.uid && g == st.gid && x == st.xattrs && t == s
    case _ => false
  }

  ghost predicate HasHash(i: Inode, h: string) {
    i.Leaf? && i.content.Regular? && i.content.contentHash == h
  }

  /** Some path is a directory in one tree and a leaf in the other. */
  ghost predicate KindChanged(a: Entries, b: Entries) {
    exists p :: (IsDirAt(a, p) && IsLeafAt(b, p)) || (IsLeafAt(a, p) && IsDirAt(b, p))
  }

  /** The default did not change: the merge succeeds exactly if no path changed kind locally,
      and then the result is current. */
  lemma UnchangedDefaultMergesToCurrent(pristine: Entries, current: Entries, new_: Entries, m: Tree, host: Host)
    requires WellFormed(pristine) && WellFormed(current) && Mirrors(m, new_)
    requires SameTree(pristine, new_)
    ensures var o := DiffAndMerge(pristine, current, new_, m, host);
            && (o.error.None? <==> !KindChanged(pristine, current))
            && (o.error.None? ==> forall p :: LooksLike(Get(o.tree, p), At(current, p), At(new_, p)))
  {
    var o := DiffAndMerge(pristine, current, new_, m, host);
    SameTreeNoLinks(pristine, current, new_);
    MergeRefinesThreeWay(pristine, current, new_, m, host);
    if KindChanged(pristine, current) {
      var p :| (IsDirAt(pristine, p) && IsLeafAt(current, p)) || (IsLeafAt(pristine, p) && IsDirAt(current, p));
      KindChangeBlocks(pristine, current, new_, p);
    } else {
      SameKindMergable(pristine, current, new_);
      forall p ensures LooksLike(Get(o.tree, p), At(current, p), At(new_, p)) {
        assert Get(o.tree, p) == ThreeWay(pristine, current, new_, p);
        ThreeWayIsCurrent(pristine, current, new_, p);
      }
    }
  }

  /** What lies above a deletion is a directory of pristine, and so of an unchanged default. */
  lemma SameTreeNoLinks(pristine: Entries, current: Entries, new_: Entries)
    requires SameTree(pristine, new_)
    ensures NoneThroughLinks(pristine, current, new_)
  {
    forall r, k | Removed(pristine, current, r) && 0 < k < |r| ensures !IsLinkAt(new_, r[..k]) {
      AncestorsAreDirs(pristine, r, k);
      assert At(new_, r[..k]).Some? ==> SameEntry(At(pristine, r[..k]), At(new_, r[..k]).value);
    }
  }

  lemma KindChangeBlocks(pristine: Entries, current: Entries, new_: Entries, p: Path)
    requires SameTree(pristine, new_)
    requires (IsDirAt(pristine, p) && IsLeafAt(current, p)) || (IsLeafAt(pristine, p) && IsDirAt(current, p))
    ensures !Mergable(pristine, current, new_)
  {
    if LeafAbove(pristine, p) {
      var k :| 0 < k < |p| && IsLeafAt(pristine, p[..k]);
      AncestorsAreDirs(pristine, p, k);
    }
    assert Touched(pristine, current, p);
    assert !Placeable(current, new_, p);
  }

  lemma SameKindMergable(pristine: Entries, current: Entries, new_: Entries)
    requires SameTree(pristine, new_) && !KindChanged(pristine, current)
    ensures Mergable(pristine, current, new_)
  {
    forall p | Listed(pristine, current, new_, p)
      ensures Placeable(current, new_, p)
    {
      NoLeafAbove(pristine, current, new_, current, p);
      if At(new_, p).Some? {
        assert SameEntry(At(pristine, p), At(new_, p).value);
        assert !(IsDirAt(pristine, p) && IsLeafAt(current, p)) && !(IsLeafAt(pristine, p) && IsDirAt(current, p));
      }
    }
    forall p | Removed(pristine, current, p)
      ensures !FileOver(new_, p)
    {
      NoLeafAbove(pristine, current, new_, pristine, p);
    }
  }

  lemma NoLeafAbove(pristine: Entries, current: Entries, new_: Entries, es: Entries, p: Path)
    requires SameTree(pristine, new_) && !KindChanged(pristine, current)
    requires es == pristine || es == current
    requires At(es, p).Some?
    ensures !LeafAbove(new_, p)
  {
    forall k | 0 < k < |p|
      ensures !IsLeafAt(new_, p[..k])
    {
      AncestorsAreDirs(es, p, k);
      assert IsLeafAt(pristine, p[..k]) <==> IsLeafAt(new_, p[..k]);
    }
  }

  lemma ThreeWayIsCurrent(pristine: Entries, current: Entries, new_: Entries, p: Path)
    requires SameTree(pristine, new_) && !KindChanged(pristine, current)
    ensures LooksLike(ThreeWay(pristine, current, new_, p), At(current, p), At(new_, p))
  {
    if At(current, p).Some? {
      if Deleted(pristine, current, p) {
        var k :| 0 < k <= |p| && Removed(pristine, current, p[..k]);
        PrefixInTree(current, p[..k], p);
      }
      if LeafAbove(pristine, p) {
        var k :| 0 < k < |p| && IsLeafAt(pristine, p[..k]);
        AncestorsAreDirs(current, p, k);
      }
    } else if At(new_, p).Some? {
      MissingIsDeleted(pristine, current, p);
    }
  }

  /** Without kind changes, a path of pristine that current lacks lies at or below a deletion. */
  lemma {:induction false} MissingIsDeleted(pristine: Entries, current: Entries, p: Path)
    requires !KindChanged(pristine, current)
    requires At(pristine, p).Some? && At(current, p).None?
    ensures Deleted(pristine, current, p)
    decreases |p|
  {
    var q := Parent(p);
    assert p[..|p|] == p;
    if IsDirAt(current, q) {
      assert Removed(pristine, current, p[..|p|]);
    } else {
      AncestorsAreDirs(pristine, p, |q|);
      MissingIsDeleted(pristine, current, q);
      var k :| 0 < k <= |q| && Removed(pristine, current, q[..k]);
      assert q[..k] == p[..k];
    }
  }

  // -- Merging again.

  /** What the first merge left is what the second one starts from. */
  ghost predicate Left(t: Tree, pristine: Entries, current: Entries, new_: Entries, again: Entries) {
    && Mergable(pristine, current, new_) && NoneThroughLinks(pristine, current, new_)
    && Mirrors(t, again) && forall p :: Get(t, p) == ThreeWay(pristine, current, new_, p)
  }

  lemma LeftAt(t: Tree, pristine: Entries, current: Entries, new_: Entries, again: Entries, p: Path)
    requires Left(t, pristine, current, new_, again)
    ensures At(again, p).Some? <==> ThreeWay(pristine, current, new_, p).Some?
    ensures At(again, p).Some? ==> Some(ObjOf(At(again, p).value)) == ThreeWay(pristine, current, new_, p)
  {
    assert Get(t, p) == ThreeWay(pristine, current, new_, p);
  }

  /** The second time only what was touched is listed: every directory that it needs is there. */
  lemma ListedAgain(t: Tree, pristine: Entries, current: Entries, new_: Entries, again: Entries, p: Path)
    requires Left(t, pristine, current, new_, again)
    ensures Listed(pristine, current, again, p) <==> Touched(pristine, current, p)
  {
    if Restored(pristine, current, again, p, p) {
      LeftAt(t, pristine, current, new_, again, p);
      KeptIsNotDeleted(pristine, current, p);
      assert false;
    }
  }

  lemma KeptIsNotDeleted(pristine: Entries, current: Entries, p: Path)
    ensures At(current, p).Some? ==> !Deleted(pristine, current, p)
  {
    if At(current, p).Some? && Deleted(pristine, current, p) {
      var k :| 0 < k <= |p| && Removed(pristine, current, p[..k]);
      PrefixInTree(current, p[..k], p);
    }
  }

  lemma MergableAgain(t: Tree, pristine: Entries, current: Entries, new_: Entries, again: Entries)
    requires Left(t, pristine, current, new_, again)
    ensures Mergable(pristine, current, again) && NoneThroughLinks(pristine, current, again)
  {
    forall p | Listed(pristine, current, again, p) ensures Placeable(current, again, p) {
      ListedAgain(t, pristine, current, new_, again, p);
      LeftAt(t, pristine, current, new_, again, p);
      assert Listed(pristine, current, new_, p) && Placeable(current, new_, p);
      forall k | 0 < k < |p| ensures !IsLeafAt(again, p[..k]) {
        AncestorsAreDirs(again, p, k);
      }
    }
    forall r, k | Removed(pristine, current, r) && 0 < k < |r| ensures !IsLeafAt(again, r[..k]) {
      NothingAboveDeleted(t, pristine, current, new_, again, r, k);
    }
  }

  lemma NothingAboveDeleted(t: Tree, pristine: Entries, current: Entries, new_: Entries, again: Entries, r: Path, k: nat)
    requires Left(t, pristine, current, new_, again) && Removed(pristine, current, r) && 0 < k < |r|
    ensures !IsLeafAt(again, r[..k])
  {
    AboveDeletedIsDir(pristine, current, r, k);
    LeftAt(t, pristine, current, new_, again, r[..k]);
    assert !FileOver(new_, r) && !LinkOver(new_, r);
    assert !IsFileAt(new_, r[..k]) && !IsLinkAt(new_, r[..k]);
  }

  lemma ThreeWayAgain(t: Tree, pristine: Entries, current: Entries, new_: Entries, again: Entries, p: Path)
    requires Left(t, pristine, current, new_, again)
    ensures ThreeWay(pristine, current, again, p) == Get(t, p)
  {
    ListedAgain(t, pristine, current, new_, again, p);
    LeftAt(t, pristine, current, new_, again, p);
    KeptIsNotDeleted(pristine, current, p);
    if Touched(pristine, current, p) {
      WrittenAgain(pristine, current, new_, again, p);
    }
  }

  lemma WrittenAgain(pristine: Entries, current: Entries, new_: Entries, again: Entries, p: Path)
    requires p != [] && At(current, p).Some? && At(again, p).Some?
    requires ObjOf(At(again, p).value) == Written(current, new_, p)
    ensures Written(current, again, p) == Written(current, new_, p)
  {
    var x := At(current, p).value.stat.xattrs;
    var had := if IsDirAt(new_, p) then At(new_, p).value.stat.xattrs else map[];
    assert (had + x) + x == had + x;
  }

  /** Merging again is harmless: with the result of a successful merge as the new default, a
      second merge of the same changes succeeds and leaves it as it is. */
  lemma MergeAgainChangesNothing(pristine: Entries, current: Entries, new_: Entries, m: Tree, again: Entries, host: Host)
    requires WellFormed(pristine) && WellFormed(current) && Mirrors(m, new_)
    requires NoneThroughLinks(pristine, current, new_)
    requires DiffAndMerge(pristine, current, new_, m, host).error.None?
    requires Mirrors(DiffAndMerge(pristine, current, new_, m, host).tree, again)
    ensures var t := DiffAndMerge(pristine, current, new_, m, host).tree;
            DiffAndMerge(pristine, current, again, t, host) == Outcome(t, None)
  {
    var t := DiffAndMerge(pristine, current, new_, m, host).tree;
    MergeRefinesThreeWay(pristine, current, new_, m, host);
    MergableAgain(t, pristine, current, new_, again);
    MergeRefinesThreeWay(pristine, current, again, t, host);
    var t2 := DiffAndMerge(pristine, current, again, t, host).tree;
    forall p ensures Get(t2, p) == Get(t, p) {
      ThreeWayAgain(t, pristine, current, new_, again, p);
      assert Get(t2, p) == ThreeWay(pristine, current, again, p);
    }
    SameByGet(t2, t);
  }

  lemma SameByGet(a: Tree, b: Tree)
    requires forall p :: Get(a, p) == Get(b, p)
    ensures a == b
  {
    forall p ensures p in a <==> p in b {
      assert Get(a, p) == Get(b, p);
    }
    forall p | p in a ensures a[p] == b[p] {
      assert Get(a, p) == Get(b, p);
    }
  }

  // -- Where the reports and the comparison stop short.

  const FILE := Leaf(Stat(0x81A4, 0, 0, 0, 0, map[]), Regular("h", None, "bytes"))
  const LINK := Leaf(Stat(0xA1FF, 0, 0, 0, 0, map[]), Symlink("e"))
  const DIR := Directory(Stat(0x41ED, 0, 0, 0, 0, map[]), Nil)
  const OPEN_DIR := Directory(Stat(0x41FF, 0, 0, 0, 0, map[]), Nil)

  /** Not every conflict is reported: a directory whose only change is its own mode meets a file
      in new. The diff is silent and the merge fails. */
  lemma UnreportedConflict(host: Host)
    ensures var pristine, current, new_ := Cons("d", DIR, Nil), Cons("d", OPEN_DIR, Nil), Cons("d", FILE, Nil);
            var m := map[["d"] := ObjOf(FILE)];
            && Mods(pristine, current, new_, []).unmergable == []
            && DiffAndMerge(pristine, current, new_, m, host).error == Some(DirectoryNewlyFile)
  {
    var pristine, current, new_ := Cons("d", DIR, Nil), Cons("d", OPEN_DIR, Nil), Cons("d", FILE, Nil);
    assert [] + ["d"] == ["d"];
    assert Mods(DIR.entries, OPEN_DIR.entries, new_, ["d"]) == Changes([], [], []);
    var c := Mods(pristine, current, new_, []);
    assert c.added == [] && c.modified == [["d"]];
    assert SplitPath(current, ["d"]) == Split(current, "d");
    assert SplitPath(new_, ["d"]) == Split(new_, "d");
  }

  /** A deletion alone can fail without a report: the directory that lost a file is a file in
      new. Nothing is listed, and the removal meets the file. */
  lemma UnreportedDeletion(host: Host)
    ensures var old_ := Directory(DIR.stat, Cons("x", FILE, Nil));
            var pristine, current, new_ := Cons("d", old_, Nil), Cons("d", DIR, Nil), Cons("d", FILE, Nil);
            var m := map[["d"] := ObjOf(FILE)];
            && Mods(pristine, current, new_, []) == Changes([], [], [])
            && DiffAndMerge(pristine, current, new_, m, host).error == Some(IoFailure(NotADir))
  {
    var new_ := Cons("d", FILE, Nil);
    OneDeletion(new_);
    BelowFile(map[["d"] := ObjOf(FILE)], host);
  }

  lemma OneDeletion(new_: Entries)
    ensures var old_ := Directory(DIR.stat, Cons("x", FILE, Nil));
            var pristine, current := Cons("d", old_, Nil), Cons("d", DIR, Nil);
            Mods(pristine, current, new_, []) == Changes([], [], []) && Dels(pristine, current, []) == [["d", "x"]]
  {
    var old_ := Directory(DIR.stat, Cons("x", FILE, Nil));
    assert [] + ["d"] == ["d"] && ["d"] + ["x"] == ["d", "x"];
    assert Mods(old_.entries, DIR.entries, new_, ["d"]) == Changes([], [], []);
    assert Dels(old_.entries, DIR.entries, ["d"]) == [["d", "x"]];
  }

  lemma BelowFile(m: Tree, host: Host)
    requires m == map[["d"] := ObjOf(FILE)]
    ensures RemoveList(m, host, [["d", "x"]]) == Outcome(m, Some(IoFailure(NotADir)))
  {
    var r: Path := ["d", "x"];
    assert r[..1] == ["d"] && FileAbove(m, r) && !LinkAbove(m, r);
  }

  const E := Directory(DIR.stat, Cons("x", FILE, Nil))
  const THROUGH: Tree := map[["d"] := ObjOf(LINK), ["e"] := ObjOf(E), ["e", "x"] := ObjOf(FILE)]

  /** A deletion through a symbolic link takes away a file that nobody touched: `d/x` was deleted
      and new has `d` as a link to `e`. The merge succeeds, and `e/x` is gone. */
  lemma DeletedThroughLink(host: Host)
    requires host.follow(THROUGH, ["d", "x"]) == Reaches(["e", "x"])
    ensures var pristine, current := Cons("d", E, Cons("e", E, Nil)), Cons("d", DIR, Cons("e", E, Nil));
            var new_ := Cons("d", LINK, Cons("e", E, Nil));
            && Mods(pristine, current, new_, []) == Changes([], [], [])
            && DiffAndMerge(pristine, current, new_, THROUGH, host) == Outcome(THROUGH - {["e", "x"]}, None)
            && ThreeWay(pristine, current, new_, ["e", "x"]) == Some(ObjOf(FILE))
  {
    var pristine, current := Cons("d", E, Cons("e", E, Nil)), Cons("d", DIR, Cons("e", E, Nil));
    var new_ := Cons("d", LINK, Cons("e", E, Nil));
    ThroughDiff(pristine, current, new_);
    ThroughRemoval(host);
    ThroughRule(pristine, current, new_);
  }

  lemma ThroughDiff(pristine: Entries, current: Entries, new_: Entries)
    requires pristine == Cons("d", E, Cons("e", E, Nil)) && current == Cons("d", DIR, Cons("e", E, Nil))
    ensures Mods(pristine, current, new_, []) == Changes([], [], [])
    ensures Dels(pristine, current, []) == [["d", "x"]]
  {
    var nothing := Changes([], [], []);
    assert [] + ["d"] == ["d"] && [] + ["e"] == ["e"] && ["d"] + ["x"] == ["d", "x"];
    assert Mods(E.entries, DIR.entries, new_, ["d"]) == nothing;
    assert Mods(E.entries, E.entries, new_, ["e"]) == nothing;
    assert EntryMods(Some(E), DIR, new_, ["d"]) == nothing;
    assert EntryMods(Some(E), E, new_, ["e"]) == nothing;
    assert Dels(E.entries, DIR.entries, ["d"]) == [["d", "x"]];
    assert Dels(E.entries, E.entries, ["e"]) == [];
  }

  lemma ThroughRemoval(host: Host)
    requires host.follow(THROUGH, ["d", "x"]) == Reaches(["e", "x"])
    ensures RemoveList(THROUGH, host, [["d", "x"]]) == Outcome(THROUGH - {["e", "x"]}, None)
  {
    var r: Path := ["d", "x"];
    assert r[..1] == ["d"] && LinkAbove(THROUGH, r);
    assert [r][1..] == [];
  }

  lemma ThroughRule(pristine: Entries, current: Entries, new_: Entries)
    requires pristine == Cons("d", E, Cons("e", E, Nil)) && current == Cons("d", DIR, Cons("e", E, Nil))
    requires new_ == Cons("d", LINK, Cons("e", E, Nil))
    ensures ThreeWay(pristine, current, new_, ["e", "x"]) == Some(ObjOf(FILE))
  {
    var p: Path := ["e", "x"];
    assert p[1..] == ["x"];
    assert At(pristine, p) == At(current, p) == At(new_, p) == Some(FILE);
    if Deleted(pristine, current, p) {
      var k :| 0 < k <= |p| && Removed(pristine, current, p[..k]);
      PrefixInTree(current, p[..k], p);
    }
  }

  /** The trees have the same names, kinds, modes, owners, attributes, hashes and link targets. They
      may differ in times, in fs-verity digests, and in bytes that their hash does not show. */
  ghost predicate SeemAlike(a: Entries, b: Entries) {
    match a
    case Nil => b.Nil?
    case Cons(n, i, rest) => b.Cons? && b.name == n && AlikeInode(i, b.inode) && SeemAlike(rest, b.rest)
  }

  ghost predicate AlikeInode(i: Inode, j: Inode) {
    && SameMeta(i.stat, j.stat)
    && match i
       case Directory(_, es) => j.Directory? && SeemAlike(es, j.entries)
       case Leaf(_, c) => j.Leaf? && SameHashOrTarget(c, j.content)
  }

  ghost predicate AlikeLookup(o: Option<Inode>, q: Option<Inode>) {
    if o.Some? then q.Some? && AlikeInode(o.value, q.value) else q.None?
  }

  lemma {:induction false} LookupAlike(a: Entries, b: Entries, n: Name)
    requires SeemAlike(a, b)
    ensures AlikeLookup(Lookup(a, n), Lookup(b, n))
  {
    if a.Cons? && a.name != n {
      LookupAlike(a.rest, b.rest, n);
    }
  }

  lemma {:induction false} CollectAlike(a: Entries, b: Entries, cursor: Path)
    requires SeemAlike(a, b)
    ensures Collect(a, cursor) == Collect(b, cursor)
    decreases a
  {
    if a.Cons? {
      if a.inode.Directory? {
        CollectAlike(a.inode.entries, b.inode.entries, cursor + [a.name]);
      }
      CollectAlike(a.rest, b.rest, cursor);
    }
  }

  /** Neither times nor digests nor bytes are ever consulted: whatever they are in pristine and
      current, the walk finds the same changes. So touching a file is no change, and an edit
      that no hash shows is never carried over. */
  lemma {:induction false} TimesAndSealsNeverMatter(p: Entries, q: Entries, c: Entries, d: Entries, new_: Entries, cursor: Path)
    requires SeemAlike(p, q) && SeemAlike(c, d)
    ensures Mods(p, c, new_, cursor) == Mods(q, d, new_, cursor)
    decreases c
  {
    if c.Cons? {
      LookupAlike(p, q, c.name);
      AlikeEntryMods(Lookup(p, c.name), Lookup(q, c.name), c.inode, d.inode, new_, cursor + [c.name]);
      TimesAndSealsNeverMatter(p, q, c.rest, d.rest, new_, cursor);
    }
  }

  lemma {:induction false} AlikeEntryMods(o: Option<Inode>, q: Option<Inode>, i: Inode, j: Inode, new_: Entries, here: Path)
    requires AlikeLookup(o, q) && AlikeInode(i, j)
    ensures EntryMods(o, i, new_, here) == EntryMods(q, j, new_, here)
    decreases i
  {
    if i.Directory? {
      CollectAlike(i.entries, j.entries, here);
      if o.Some? && o.value.Directory? {
        TimesAndSealsNeverMatter(o.value.entries, q.value.entries, i.entries, j.entries, new_, here);
      }
    }
  }

  function Sealed(digest: string, data: string): Inode {
    Leaf(FILE.stat, Regular("", Some(digest), data))
  }

  /** A sealed file with other bytes and another digest than in pristine: no diff, and new's file
      is kept. */
  lemma SealedEditLost(a: string, x: string, b: string, y: string, host: Host)
    ensures var pristine, current, new_ := Cons("f", Sealed(a, x), Nil), Cons("f", Sealed(b, y), Nil), Cons("f", FILE, Nil);
            var m := map[["f"] := ObjOf(FILE)];
            && Mods(pristine, current, new_, []) == Changes([], [], [])
            && DiffAndMerge(pristine, current, new_, m, host) == Outcome(m, None)
  {
    var pristine, current, new_ := Cons("f", Sealed(a, x), Nil), Cons("f", Sealed(b, y), Nil), Cons("f", FILE, Nil);
    TimesAndSealsNeverMatter(pristine, pristine, current, pristine, new_, []);
    assert Dels(pristine, current, []) == [];
  }

  lemma {:induction false} AlikeDels(p: Entries, q: Entries, c: Entries, d: Entries, cursor: Path)
    requires SeemAlike(p, q) && SeemAlike(c, d)
    ensures Dels(p, c, cursor) == Dels(q, d, cursor)
    decreases p
  {
    if p.Cons? {
      LookupAlike(c, d, p.name);
      var here, o := cursor + [p.name], Lookup(c, p.name);
      if p.inode.Directory? && o.Some? && o.value.Directory? {
        AlikeDels(p.inode.entries, q.inode.entries, o.value.entries, Lookup(d, p.name).value.entries, here);
      }
      AlikeDels(p.rest, q.rest, c, d, cursor);
    }
  }

  /** Whatever seems alike makes no diff at all. */
  lemma NothingSeen(p: Entries, c: Entries, new_: Entries, m: Tree, host: Host)
    requires WellFormed(p) && SeemAlike(p, c)
    ensures Mods(p, c, new_, []) == Changes([], [], []) && Dels(p, c, []) == []
    ensures DiffAndMerge(p, c, new_, m, host) == Outcome(m, None)
  {
    SeemsLikeItself(p);
    TimesAndSealsNeverMatter(p, p, p, c, new_, []);
    AlikeDels(p, p, p, c, []);
    UnchangedMergesToNew(p, p, new_, m, host);
  }

  lemma {:induction false} SeemsLikeItself(es: Entries)
    ensures SeemAlike(es, es)
    decreases es
  {
    if es.Cons? {
      if es.inode.Directory? {
        SeemsLikeItself(es.inode.entries);
      }
      SeemsLikeItself(es.rest);
    }
  }

  function FileAt(seconds: int): Inode {
    Leaf(Stat(0x81A4, 0, 0, seconds, 0, map[]), Regular("h", None, "bytes"))
  }

  /** A file that was only touched: no diff, and the new default is kept. */
  lemma TouchIsNoChange(n: Name, before: int, after: int, new_: Entries, m: Tree, host: Host)
    ensures var pristine, current := Cons(n, FileAt(before), Nil), Cons(n, FileAt(after), Nil);
            && Mods(pristine, current, new_, []) == Changes([], [], [])
            && DiffAndMerge(pristine, current, new_, m, host) == Outcome(m, None)
  {
    NothingSeen(Cons(n, FileAt(before), Nil), Cons(n, FileAt(after), Nil), new_, m, host);
  }
}
