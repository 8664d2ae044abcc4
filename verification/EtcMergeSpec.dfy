/** The merge as a whole: when it succeeds, what every path of the result is, and the laws
    that follow. */
module EtcMergeSpec {
  import opened Common
  import opened EtcTree
  import opened LiveTree
  import opened EtcMerge
  import opened EtcMergeSteps
  import opened EtcDiff
  import opened EtcDiffExact
  import opened EtcDiffReports
  import opened EtcDiffOrder

  /** The paths that the diff carries over to new. */
  ghost predicate Listed(pristine: Entries, current: Entries, new_: Entries, p: Path) {
    Touched(pristine, current, p) || Restored(pristine, current, new_, p, p)
  }

  /** `p` or an ancestor of it was deleted locally. */
  ghost predicate Deleted(pristine: Entries, current: Entries, p: Path) {
    exists k :: 0 < k <= |p| && Removed(pristine, current, p[..k])
  }

  /** The three-way rule for one path: what was changed locally is kept, what was deleted
      locally stays away, everything else is the new default. */
  ghost function ThreeWay(pristine: Entries, current: Entries, new_: Entries, p: Path): Option<Obj> {
    if Listed(pristine, current, new_, p) then Some(Written(current, new_, p))
    else if Deleted(pristine, current, p) then None
    else if At(new_, p).Some? then Some(ObjOf(At(new_, p).value))
    else None
  }

  /** No carried path meets the other kind in new, and no deleted path lies below a regular file
      of new. */
  ghost predicate Mergable(pristine: Entries, current: Entries, new_: Entries) {
    && (forall p :: Listed(pristine, current, new_, p) ==> Placeable(current, new_, p))
    && (forall p :: Removed(pristine, current, p) ==> !FileOver(new_, p))
  }

  /** No deleted path lies below a symbolic link of new. */
  ghost predicate NoneThroughLinks(pristine: Entries, current: Entries, new_: Entries) {
    forall p :: Removed(pristine, current, p) ==> !LinkOver(new_, p)
  }

  ghost function Get(m: Tree, p: Path): Option<Obj> {
    if p in m then Some(m[p]) else None
  }

  /** Diff and merge, on a live tree `m`. */
  function DiffAndMerge(pristine: Entries, current: Entries, new_: Entries, m: Tree, host: Host): Outcome {
    var c := Mods(pristine, current, new_, []);
    MergeAll(m, host, current, new_, c.added, c.modified, Dels(pristine, current, []))
  }

  lemma ListedExact(pristine: Entries, current: Entries, new_: Entries, p: Path)
    requires WellFormed(current)
    ensures var c := Mods(pristine, current, new_, []);
            (p in c.added || p in c.modified) <==> Listed(pristine, current, new_, p)
  {
    var c := Mods(pristine, current, new_, []);
    ModsShape(pristine, current, new_, []);
    if p != [] {
      ModsExactAt(pristine, current, new_, [], p);
      assert [] + p == p;
      CountIn(c.added, p);
      CountIn(c.modified, p);
    }
  }

  lemma RemovedExact(pristine: Entries, current: Entries, p: Path)
    requires WellFormed(pristine)
    ensures p in Dels(pristine, current, []) <==> Removed(pristine, current, p)
  {
    DelsShape(pristine, current, []);
    if p != [] {
      DelsExact(pristine, current, [], p);
      assert [] + p == p;
      CountIn(Dels(pristine, current, []), p);
    }
  }

  /** What lies in a tree has every ancestor in it. */
  lemma PrefixInTree(es: Entries, r: Path, p: Path)
    requires r != [] && r <= p && At(es, p).Some?
    ensures At(es, r).Some?
  {
    assert r == p[..|r|];
    if |r| < |p| {
      AncestorsAreDirs(es, p, |r|);
    }
  }

  /** Deletions are topmost: none lies inside another. */
  lemma RemovedAntichain(pristine: Entries, current: Entries)
    requires WellFormed(pristine)
    ensures Antichain(Dels(pristine, current, []))
    ensures [] !in Dels(pristine, current, [])
  {
    var d := Dels(pristine, current, []);
    RemovedExact(pristine, current, []);
    forall r, s | r in d && s in d
      ensures !(r < s)
    {
      RemovedExact(pristine, current, r);
      RemovedExact(pristine, current, s);
      if r < s {
        assert r <= Parent(s);
        PrefixInTree(current, r, Parent(s));
      }
    }
  }

  /** The removal phase never undoes the write phase: no deleted path is a prefix of a listed one. */
  lemma RemovedNeverAboveListed(pristine: Entries, current: Entries, new_: Entries, r: Path, p: Path)
    requires WellFormed(pristine) && WellFormed(current)
    requires r in Dels(pristine, current, [])
    requires var c := Mods(pristine, current, new_, []); p in c.added || p in c.modified
    ensures !(r <= p)
  {
    RemovedExact(pristine, current, r);
    ListedExact(pristine, current, new_, p);
    if r <= p {
      PrefixInTree(current, r, p);
    }
  }

  lemma MirrorsIsOverlay(m: Tree, current: Entries, new_: Entries)
    requires Mirrors(m, new_)
    ensures Overlay(m, current, new_, []) && Closed(m)
  {
    forall p ensures OverlayAt(m, current, new_, [], p) { }
    forall p, k | p in m && 0 < k < |p|
      ensures p[..k] in m && m[p[..k]].DirObj?
    {
      AncestorsAreDirs(new_, p, k);
    }
  }

  /** The paths that the diff writes, in order. */
  function ToWrite(pristine: Entries, current: Entries, new_: Entries): seq<Path> {
    var c := Mods(pristine, current, new_, []);
    c.added + c.modified
  }

  /** Both lists together, before anything is removed. */
  function Writes(pristine: Entries, current: Entries, new_: Entries, m: Tree, host: Host): Outcome {
    var c := Mods(pristine, current, new_, []);
    MergeAll(m, host, current, new_, c.added, c.modified, [])
  }

  lemma WritesThenRemoves(pristine: Entries, current: Entries, new_: Entries, m: Tree, host: Host)
    ensures var b := Writes(pristine, current, new_, m, host);
            DiffAndMerge(pristine, current, new_, m, host) ==
            if b.error.Some? then b else RemoveList(b.tree, host, Dels(pristine, current, []))
  {
  }

  lemma ToWriteExact(pristine: Entries, current: Entries, new_: Entries)
    requires WellFormed(current)
    ensures forall p :: p in ToWrite(pristine, current, new_) <==> Listed(pristine, current, new_, p)
  {
    forall p ensures p in ToWrite(pristine, current, new_) <==> Listed(pristine, current, new_, p) {
      ListedExact(pristine, current, new_, p);
    }
  }

  lemma ListsInTree(pristine: Entries, current: Entries, new_: Entries)
    requires WellFormed(current)
    ensures var c := Mods(pristine, current, new_, []); InTree(current, c.added) && InTree(current, c.modified)
  {
    var c := Mods(pristine, current, new_, []);
    forall p | p in c.added || p in c.modified ensures At(current, p).Some? {
      ListedExact(pristine, current, new_, p);
    }
  }

  /** The write phase ends exactly if every listed path can be placed. If not, it has written the
      paths before the first that cannot be placed, and nothing else. */
  lemma WritePhase(pristine: Entries, current: Entries, new_: Entries, m: Tree, host: Host)
    requires WellFormed(current) && Mirrors(m, new_)
    ensures ListOutcome(Writes(pristine, current, new_, m, host), current, new_, [], ToWrite(pristine, current, new_))
  {
    var c := Mods(pristine, current, new_, []);
    ListsInTree(pristine, current, new_);
    MirrorsIsOverlay(m, current, new_);
    ModsInOrder(pristine, current, new_, []);
    assert [] + c.added == c.added;
    BothLists(m, host, current, new_, c.added, c.modified);
  }

  lemma BothLists(m: Tree, host: Host, current: Entries, new_: Entries, first: seq<Path>, second: seq<Path>)
    requires Overlay(m, current, new_, []) && Closed(m)
    requires InTree(current, first) && InTree(current, second)
    requires InOrder([], first, new_, 0) && InOrder(first, second, new_, 0)
    ensures ListOutcome(MergeAll(m, host, current, new_, first, second, []), current, new_, [], first + second)
  {
    ListExact(m, host, current, new_, [], first);
    assert [] + first == first;
    var a := MergeList(m, host, current, new_, first);
    if a.error.None? {
      ListExact(a.tree, host, current, new_, first, second);
    }
    TwoLists(a, MergeAll(m, host, current, new_, first, second, []), current, new_, first, second);
  }

  lemma TwoLists(a: Outcome, b: Outcome, current: Entries, new_: Entries, first: seq<Path>, second: seq<Path>)
    requires ListOutcome(a, current, new_, [], first)
    requires if a.error.Some? then b == a else ListOutcome(b, current, new_, first, second)
    ensures ListOutcome(b, current, new_, [], first + second)
  {
    var list := first + second;
    assert forall p :: p in list <==> p in first || p in second;
    assert [] + list == list;
    assert [] + first == first;
    if a.error.Some? {
      var k: nat :| StoppedAt(a.tree, current, new_, [], first, k);
      StoppedInFirst(a.tree, current, new_, first, second, k);
    } else if b.error.Some? {
      var k: nat :| StoppedAt(b.tree, current, new_, first, second, k);
      StoppedInSecond(b.tree, current, new_, first, second, k);
    }
  }

  lemma StoppedInFirst(m: Tree, current: Entries, new_: Entries, first: seq<Path>, second: seq<Path>, k: nat)
    requires StoppedAt(m, current, new_, [], first, k)
    ensures StoppedAt(m, current, new_, [], first + second, k)
  {
    assert (first + second)[..k] == first[..k];
  }

  lemma StoppedInSecond(m: Tree, current: Entries, new_: Entries, first: seq<Path>, second: seq<Path>, k: nat)
    requires StoppedAt(m, current, new_, first, second, k) && AllPlaceable(current, new_, first)
    ensures StoppedAt(m, current, new_, [], first + second, |first| + k)
  {
    var list, n := first + second, |first| + k;
    assert list[..n] == first + second[..k];
    assert [] + list[..n] == list[..n];
  }

  /** After the writes, what stands above a deleted path is what new has there. */
  lemma AboveDeleted(m: Tree, pristine: Entries, current: Entries, new_: Entries, done: seq<Path>, r: Path)
    requires Overlay(m, current, new_, done) && Removed(pristine, current, r)
    ensures FileAbove(m, r) <==> FileOver(new_, r)
    ensures LinkAbove(m, r) <==> LinkOver(new_, r)
  {
    forall k | 0 < k < |r|
      ensures r[..k] in m && m[r[..k]].FileObj? <==> IsFileAt(new_, r[..k])
      ensures r[..k] in m && m[r[..k]].LinkObj? <==> IsLinkAt(new_, r[..k])
    {
      assert OverlayAt(m, current, new_, done, r[..k]);
      AboveDeletedIsDir(pristine, current, r, k);
    }
  }

  lemma AboveAllDeleted(m: Tree, pristine: Entries, current: Entries, new_: Entries, done: seq<Path>)
    requires WellFormed(pristine) && NoneThroughLinks(pristine, current, new_) && Overlay(m, current, new_, done)
    ensures forall r :: r in Dels(pristine, current, []) ==>
              (FileAbove(m, r) <==> FileOver(new_, r)) && !LinkAbove(m, r)
  {
    forall r | r in Dels(pristine, current, [])
      ensures (FileAbove(m, r) <==> FileOver(new_, r)) && !LinkAbove(m, r)
    {
      RemovedExact(pristine, current, r);
      AboveDeleted(m, pristine, current, new_, done, r);
    }
  }

  lemma AboveDeletedIsDir(pristine: Entries, current: Entries, r: Path, k: nat)
    requires Removed(pristine, current, r) && 0 < k < |r|
    ensures IsDirAt(current, r[..k]) && At(current, r[..k]).Some?
  {
    assert r[..k] == Parent(r)[..k];
    if k < |r| - 1 {
      AncestorsAreDirs(current, Parent(r), k);
    } else {
      assert r[..k] == Parent(r);
    }
  }

  lemma WritesClosed(m: Tree, current: Entries, new_: Entries, done: seq<Path>)
    requires Overlay(m, current, new_, done)
    ensures [] !in m
  {
    assert OverlayAt(m, current, new_, done, []);
  }

  /** The merge refines the three-way rule. Where no deleted path lies below a symbolic link of
      new, it succeeds exactly on mergable trees, and then every path of the result is what the
      rule says. */
  lemma MergeRefinesThreeWay(pristine: Entries, current: Entries, new_: Entries, m: Tree, host: Host)
    requires WellFormed(pristine) && WellFormed(current) && Mirrors(m, new_)
    requires NoneThroughLinks(pristine, current, new_)
    ensures var o := DiffAndMerge(pristine, current, new_, m, host);
            && (o.error.None? <==> Mergable(pristine, current, new_))
            && (o.error.None? ==> forall p :: Get(o.tree, p) == ThreeWay(pristine, current, new_, p))
  {
    var b, d := Writes(pristine, current, new_, m, host), Dels(pristine, current, []);
    var done := ToWrite(pristine, current, new_);
    WritePhase(pristine, current, new_, m, host);
    WritesThenRemoves(pristine, current, new_, m, host);
    ToWriteExact(pristine, current, new_);
    if b.error.None? {
      assert [] + done == done;
      RemovedAntichain(pristine, current);
      AboveAllDeleted(b.tree, pristine, current, new_, done);
      forall r ensures r in d <==> Removed(pristine, current, r) {
        RemovedExact(pristine, current, r);
      }
      RemoveListExact(b.tree, host, d);
      var o := DiffAndMerge(pristine, current, new_, m, host);
      if o.error.None? {
        forall p ensures Get(o.tree, p) == ThreeWay(pristine, current, new_, p) {
          ResultAt(b.tree, pristine, current, new_, p);
        }
      }
    }
  }

  // -- Deletions below a symbolic link of new.

  /** What the removals of this merge take away, wherever the links of new lead them. */
  function TakenAway(pristine: Entries, current: Entries, new_: Entries, m: Tree, host: Host): seq<Path> {
    Hits(Writes(pristine, current, new_, m, host).tree, host, Dels(pristine, current, []))
  }

  /** Whatever links are in the way: a merge that succeeds has every path as the rule says, or
      lost it. It has all of them as the rule says exactly if the removals led to nothing that
      the rule keeps. */
  lemma ThroughLinksIff(pristine: Entries, current: Entries, new_: Entries, m: Tree, host: Host)
    requires WellFormed(pristine) && WellFormed(current) && Mirrors(m, new_)
    requires DiffAndMerge(pristine, current, new_, m, host).error.None?
    ensures var o := DiffAndMerge(pristine, current, new_, m, host);
            && (forall p :: p in o.tree ==> Get(o.tree, p) == ThreeWay(pristine, current, new_, p))
            && ((forall p :: Get(o.tree, p) == ThreeWay(pristine, current, new_, p)) <==>
                forall q :: q in TakenAway(pristine, current, new_, m, host) ==> ThreeWay(pristine, current, new_, q).None?)
  {
    var o := DiffAndMerge(pristine, current, new_, m, host);
    var b, d := Writes(pristine, current, new_, m, host), Dels(pristine, current, []);
    var done, hits := ToWrite(pristine, current, new_), TakenAway(pristine, current, new_, m, host);
    WritePhase(pristine, current, new_, m, host);
    WritesThenRemoves(pristine, current, new_, m, host);
    assert [] + done == done;
    WritesClosed(b.tree, current, new_, done);
    RemoveListHits(b.tree, host, d);
    forall p ensures Accounted(o.tree, hits, pristine, current, new_, p) {
      LostOnly(b.tree, host, pristine, current, new_, p);
    }
    NothingLostIff(o.tree, hits, pristine, current, new_);
  }

  /** What is left is as the rule says, what was hit is gone, and whatever else is missing lies
      below something that was hit and that the rule keeps. */
  ghost predicate Accounted(left: Tree, hits: seq<Path>, pristine: Entries, current: Entries, new_: Entries, p: Path) {
    && (p in left ==> Get(left, p) == ThreeWay(pristine, current, new_, p))
    && (p in hits ==> p !in left)
    && (p !in left && ThreeWay(pristine, current, new_, p).Some? ==>
        exists q :: q in hits && q <= p && ThreeWay(pristine, current, new_, q).Some?)
  }

  lemma NothingLostIff(left: Tree, hits: seq<Path>, pristine: Entries, current: Entries, new_: Entries)
    requires forall p :: Accounted(left, hits, pristine, current, new_, p)
    ensures forall p :: p in left ==> Get(left, p) == ThreeWay(pristine, current, new_, p)
    ensures (forall p :: Get(left, p) == ThreeWay(pristine, current, new_, p)) <==>
            forall q :: q in hits ==> ThreeWay(pristine, current, new_, q).None?
  {
    forall p | p in left ensures Get(left, p) == ThreeWay(pristine, current, new_, p) {
      assert Accounted(left, hits, pristine, current, new_, p);
    }
    if forall q :: q in hits ==> ThreeWay(pristine, current, new_, q).None? {
      forall p ensures Get(left, p) == ThreeWay(pristine, current, new_, p) {
        assert Accounted(left, hits, pristine, current, new_, p);
      }
    } else {
      var q :| q in hits && ThreeWay(pristine, current, new_, q).Some?;
      assert Accounted(left, hits, pristine, current, new_, q);
      assert Get(left, q) != ThreeWay(pristine, current, new_, q);
    }
  }

  lemma LostOnly(m: Tree, host: Host, pristine: Entries, current: Entries, new_: Entries, p: Path)
    requires WellFormed(pristine) && WellFormed(current) && Closed(m) && [] !in m
    requires Overlay(m, current, new_, ToWrite(pristine, current, new_))
    ensures var hits := Hits(m, host, Dels(pristine, current, []));
            Accounted(Keep(m, hits), hits, pristine, current, new_, p)
  {
    var d := Dels(pristine, current, []);
    var hits := Hits(m, host, d);
    RemovedAntichain(pristine, current);
    ResultAt(m, pristine, current, new_, p);
    if p in m && Gone(d, p) {
      var r :| r in d && r <= p;
      AtOrAbove(m, r, p);
      HitsCover(m, host, d, r);
      var q :| q in hits && q <= r;
      assert q <= p;
    }
    if p in hits {
      assert p <= p;
    }
    if p in m && !Gone(d, p) && Gone(hits, p) {
      var q :| q in hits && q <= p;
      HitsNonEmpty(m, host, d, q);
      AtOrAbove(m, q, p);
      ResultAt(m, pristine, current, new_, q);
      GoneBelow(d, q, p);
    }
  }

  lemma GoneBelow(removed: seq<Path>, q: Path, p: Path)
    requires q <= p
    ensures Gone(removed, q) ==> Gone(removed, p)
  {
    if r :| r in removed && r <= q {
      assert r <= p;
    }
  }

  lemma {:induction false} HitsNonEmpty(m: Tree, host: Host, removed: seq<Path>, q: Path)
    requires [] !in m && q in Hits(m, host, removed)
    ensures q != []
    decreases |removed|
  {
    var l, rest := Locate(m, host, removed[0]), removed[1..];
    if l.Reaches? && l.path in m {
      if q != l.path {
        HitsNonEmpty(RemoveAt(m, l.path), host, rest, q);
      }
    } else {
      HitsNonEmpty(m, host, rest, q);
    }
  }

  lemma AtOrAbove(m: Tree, r: Path, p: Path)
    requires Closed(m) && p in m && r <= p && r != []
    ensures r in m
  {
    assert p[..|r|] == r;
    assert |r| == |p| ==> r == p;
  }

  /** One deletion, below a symbolic link of new: the merge succeeds exactly if the system does
      not refuse the path, and then the result is that of the rule exactly if the link leads to
      nothing that the rule keeps. */
  lemma OneDeletionThroughLink(pristine: Entries, current: Entries, new_: Entries, m: Tree, host: Host, r: Path)
    requires WellFormed(pristine) && WellFormed(current) && Mirrors(m, new_)
    requires forall p :: Listed(pristine, current, new_, p) ==> Placeable(current, new_, p)
    requires Dels(pristine, current, []) == [r] && LinkOver(new_, r)
    ensures var o := DiffAndMerge(pristine, current, new_, m, host);
            var l := host.follow(Writes(pristine, current, new_, m, host).tree, r);
            && (o.error.None? <==> !l.Refused?)
            && (o.error.None? ==>
                ((forall p :: Get(o.tree, p) == ThreeWay(pristine, current, new_, p)) <==>
                 !(l.Reaches? && ThreeWay(pristine, current, new_, l.path).Some?)))
  {
    var o, b := DiffAndMerge(pristine, current, new_, m, host), Writes(pristine, current, new_, m, host);
    var done := ToWrite(pristine, current, new_);
    WritePhase(pristine, current, new_, m, host);
    WritesThenRemoves(pristine, current, new_, m, host);
    ToWriteExact(pristine, current, new_);
    assert AllPlaceable(current, new_, done);
    assert [] + done == done;
    RemovedExact(pristine, current, r);
    AboveDeleted(b.tree, pristine, current, new_, done, r);
    OneRemoval(b.tree, host, r);
    if o.error.None? {
      ThroughLinksIff(pristine, current, new_, m, host);
      var l := host.follow(b.tree, r);
      if l.Reaches? && ThreeWay(pristine, current, new_, l.path).Some? {
        ResultAt(b.tree, pristine, current, new_, l.path);
        assert l.path in b.tree;
      }
    }
  }

  lemma OneRemoval(m: Tree, host: Host, r: Path)
    requires LinkAbove(m, r)
    ensures var l := host.follow(m, r);
            && (RemoveList(m, host, [r]).error.None? <==> !l.Refused?)
            && Hits(m, host, [r]) == if l.Reaches? && l.path in m then [l.path] else []
  {
    assert [r][1..] == [];
  }

  lemma ResultAt(m: Tree, pristine: Entries, current: Entries, new_: Entries, p: Path)
    requires WellFormed(pristine) && WellFormed(current)
    requires Overlay(m, current, new_, ToWrite(pristine, current, new_))
    ensures Get(Keep(m, Dels(pristine, current, [])), p) == ThreeWay(pristine, current, new_, p)
  {
    var c, d := Mods(pristine, current, new_, []), Dels(pristine, current, []);
    assert OverlayAt(m, current, new_, c.added + c.modified, p);
    ListedExact(pristine, current, new_, p);
    GoneIffDeleted(pristine, current, p);
    if Gone(d, p) && Listed(pristine, current, new_, p) {
      var r :| r in d && r <= p;
      RemovedNeverAboveListed(pristine, current, new_, r, p);
    }
  }

  lemma GoneIffDeleted(pristine: Entries, current: Entries, p: Path)
    requires WellFormed(pristine)
    ensures Gone(Dels(pristine, current, []), p) <==> Deleted(pristine, current, p)
  {
    var d := Dels(pristine, current, []);
    if Gone(d, p) {
      var r :| r in d && r <= p;
      RemovedExact(pristine, current, r);
      assert r == p[..|r|];
    }
    if Deleted(pristine, current, p) {
      var k :| 0 < k <= |p| && Removed(pristine, current, p[..k]);
      RemovedExact(pristine, current, p[..k]);
      assert p[..k] <= p;
    }
  }
}
