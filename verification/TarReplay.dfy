/** Unpacking what was exported gives back the filesystem, with the same hard links. */
module TarReplay {
  import opened Common
  import opened TarExport

  /** What unpacking leaves at a path. A regular file is a reference to an inode. */
  datatype Restored = RDir(meta: Meta) | RFile(id: nat) | RSym(meta: Meta, target: string)

  datatype Inode = Inode(meta: Meta, content: string)

  datatype Image = Image(names: map<Path, Restored>, inodes: map<nat, Inode>)

  predicate CanCreate(im: Image, p: Path) {
    && p != [] && p !in im.names
    && (|p| == 1 || (Parent(p) in im.names && im.names[Parent(p)].RDir?))
  }

  /** Unpack one entry; `n` is the number of the inode that a regular file gets. A hard link
      needs its target to be there already. */
  function Unpack(im: Image, e: TarEntry, n: nat): Option<Image> {
    if !CanCreate(im, e.path) then None
    else
      match e
      case TarDir(p, m) => Some(im.(names := im.names[p := RDir(m)]))
      case TarSymlink(p, m, t) => Some(im.(names := im.names[p := RSym(m, t)]))
      case TarRegular(p, m, c) => Some(Image(im.names[p := RFile(n)], im.inodes[n := Inode(m, c)]))
      case TarHardLink(p, _, first) =>
        if first in im.names && im.names[first].RFile? then Some(im.(names := im.names[p := im.names[first]])) else None
  }

  function Replay(es: seq<TarEntry>): Option<Image> {
    if es == [] then Some(Image(map[], map[]))
    else
      var im := Replay(es[..|es| - 1]);
      if im.None? then None else Unpack(im.value, es[|es| - 1], |es| - 1)
  }

  // -- What a walk promises.

  /** `v` may come after `done`: its path is new, its parent was visited as a directory, and an
      inode met again is the same file with several links. */
  ghost predicate MayFollow(done: seq<Visit>, v: Visit) {
    && (forall u :: u in done ==> u.path != v.path)
    && (|v.path| > 1 ==> exists u :: u in done && u.path == Parent(v.path) && u.node.DirNode?)
    && (forall u :: u in done && u.node.FileNode? && v.node.FileNode? && u.node.key == v.node.key ==>
          u.node == v.node && u.meta == v.meta && v.node.nlink > 1)
  }

  ghost predicate Lawful(walk: seq<Visit>) {
    walk == [] || (Lawful(walk[..|walk| - 1]) && MayFollow(walk[..|walk| - 1], walk[|walk| - 1]))
  }

  lemma {:induction false} KeptIn(walk: seq<Visit>, v: Visit)
    ensures v in Kept(walk) <==> v in walk && Exported(v)
    decreases |walk|
  {
    if walk != [] {
      KeptIn(walk[..|walk| - 1], v);
      assert walk == walk[..|walk| - 1] + [walk[|walk| - 1]];
    }
  }

  lemma SkippedBelow(p: Path, q: Path)
    requires p <= q && Skipped(p)
    ensures Skipped(q)
  {
  }

  lemma MayFollowKept(init: seq<Visit>, v: Visit)
    requires MayFollow(init, v) && Exported(v)
    ensures MayFollow(Kept(init), v)
  {
    forall u ensures u in Kept(init) <==> u in init && Exported(u) { KeptIn(init, u); }
    if |v.path| > 1 {
      var u :| u in init && u.path == Parent(v.path) && u.node.DirNode?;
      if Skipped(u.path) {
        SkippedBelow(u.path, v.path);
      }
      assert u in Kept(init);
    }
  }

  lemma LawfulSnoc(vs: seq<Visit>, v: Visit)
    requires Lawful(vs) && MayFollow(vs, v)
    ensures Lawful(vs + [v])
  {
    assert (vs + [v])[..|vs|] == vs;
  }

  lemma {:induction false} KeptLawful(walk: seq<Visit>)
    requires Lawful(walk)
    ensures Lawful(Kept(walk))
    decreases |walk|
  {
    if walk != [] {
      var init, v := walk[..|walk| - 1], walk[|walk| - 1];
      KeptLawful(init);
      if Exported(v) {
        MayFollowKept(init, v);
        LawfulSnoc(Kept(init), v);
      } else {
        assert Kept(walk) == Kept(init);
      }
    }
  }

  // -- The unpacked image.

  /** Index of the visit whose entry created the inode of the file at `i`. */
  function Origin(vs: seq<Visit>, i: nat): (k: nat)
    requires i < |vs| && vs[i].node.FileNode?
    ensures k <= i && vs[k].node.FileNode? && vs[k].node.key == vs[i].node.key
  {
    if vs[i].node.nlink > 1 then FirstSeen(vs, vs[i].node.key, i + 1).value else i
  }

  ghost predicate ShownAt(im: Image, vs: seq<Visit>, i: nat)
    requires i < |vs|
  {
    var v := vs[i];
    && v.path in im.names
    && match v.node
       case DirNode => im.names[v.path] == RDir(v.meta)
       case LinkNode(t) => im.names[v.path] == RSym(v.meta, t)
       case FileNode(_, _, c) =>
         var k := Origin(vs, i);
         im.names[v.path] == RFile(k) && k in im.inodes && im.inodes[k] == Inode(v.meta, c)
       case SpecialNode => false
  }

  ghost predicate Shows(im: Image, vs: seq<Visit>) {
    && (forall i :: 0 <= i < |vs| ==> ShownAt(im, vs, i))
    && (forall p :: p in im.names ==> exists i :: 0 <= i < |vs| && vs[i].path == p)
    && (forall k :: k in im.inodes ==> k < |vs|)
  }

  lemma OriginPrefix(a: seq<Visit>, v: Visit, i: nat)
    requires i < |a| && a[i].node.FileNode?
    ensures Origin(a + [v], i) == Origin(a, i)
  {
    FirstSeenPrefix(a, [v], a[i].node.key, i + 1);
  }

  /** The entry for a file is regular exactly at the origin of its inode, and otherwise a link to
      the path of the origin, which comes earlier. */
  lemma EntryByOrigin(vs: seq<Visit>, i: nat)
    requires i < |vs| && vs[i].node.FileNode?
    ensures var v, k := vs[i], Origin(vs, i);
            EntryAt(vs, i) == if k == i then TarRegular(v.path, v.meta, v.node.content)
                              else TarHardLink(v.path, v.meta, vs[k].path)
    ensures Origin(vs, Origin(vs, i)) == Origin(vs, i)
    ensures Origin(vs, i) < i ==> EntryAt(vs, Origin(vs, i)).TarRegular?
  {
    var key := vs[i].node.key;
    if vs[i].node.nlink > 1 {
      var k := Origin(vs, i);
      assert FirstSeen(vs, key, k + 1) == Some(k);
      assert FirstSeen(vs, key, k).None?;
    }
  }

  lemma CanCreateNext(im: Image, init: seq<Visit>, v: Visit)
    requires Shows(im, init) && MayFollow(init, v) && v.path != []
    ensures CanCreate(im, v.path)
  {
    if |v.path| > 1 {
      var u :| u in init && u.path == Parent(v.path) && u.node.DirNode?;
      var j :| 0 <= j < |init| && init[j] == u;
      assert ShownAt(im, init, j);
    }
    assert forall i :: 0 <= i < |init| ==> init[i] in init;
  }

  /** A name and possibly an inode were added; what was shown before is still shown. */
  lemma StillShown(im: Image, im2: Image, init: seq<Visit>, v: Visit, i: nat)
    requires i < |init| && ShownAt(im, init, i)
    requires v.path != init[i].path
    requires forall p :: p in im.names && p != v.path ==> p in im2.names && im2.names[p] == im.names[p]
    requires forall k :: k in im.inodes ==> k in im2.inodes && im2.inodes[k] == im.inodes[k]
    ensures ShownAt(im2, init + [v], i)
  {
    assert (init + [v])[i] == init[i];
    if init[i].node.FileNode? {
      OriginPrefix(init, v, i);
    }
  }

  /** `im2` is `im` with something at `p`, and possibly a new inode below `n`. */
  ghost predicate Grows(im: Image, im2: Image, p: Path, n: nat) {
    && im2.names.Keys == im.names.Keys + {p}
    && (forall q :: q in im.names && q != p ==> im2.names[q] == im.names[q])
    && (forall k :: k in im.inodes ==> k < n && k in im2.inodes && im2.inodes[k] == im.inodes[k])
    && (forall k :: k in im2.inodes ==> k <= n)
  }

  lemma UnpackGrows(im: Image, e: TarEntry, n: nat)
    requires Unpack(im, e, n).Some? && forall k :: k in im.inodes ==> k < n
    ensures Grows(im, Unpack(im, e, n).value, e.path, n)
  {
  }

  lemma UnpackShows(im: Image, init: seq<Visit>, v: Visit)
    requires Shows(im, init) && MayFollow(init, v) && v.path != [] && !v.node.SpecialNode?
    ensures var vs := init + [v];
            var next := Unpack(im, EntryAt(vs, |init|), |init|);
            next.Some? && ShownAt(next.value, vs, |init|)
  {
    var vs, n := init + [v], |init|;
    CanCreateNext(im, init, v);
    if v.node.FileNode? {
      EntryByOrigin(vs, n);
      var k := Origin(vs, n);
      if k < n {
        assert vs[k] == init[k] && init[k] in init;
        assert ShownAt(im, init, k);
        OriginPrefix(init, v, k);
      }
    }
  }

  lemma ShowsGrow(im: Image, im2: Image, init: seq<Visit>, v: Visit)
    requires Shows(im, init) && Grows(im, im2, v.path, |init|) && ShownAt(im2, init + [v], |init|)
    requires forall u :: u in init ==> u.path != v.path
    ensures Shows(im2, init + [v])
  {
    var vs, n := init + [v], |init|;
    forall i | 0 <= i < |vs| ensures ShownAt(im2, vs, i) {
      if i < n {
        assert init[i] in init;
        StillShown(im, im2, init, v, i);
      }
    }
    forall p | p in im2.names ensures exists i :: 0 <= i < |vs| && vs[i].path == p {
      if p == v.path {
        assert vs[n].path == p;
      } else {
        var i :| 0 <= i < |init| && init[i].path == p;
        assert vs[i].path == p;
      }
    }
  }

  lemma UnpackNext(im: Image, init: seq<Visit>, v: Visit)
    requires Shows(im, init) && MayFollow(init, v) && v.path != [] && !v.node.SpecialNode?
    ensures var next := Unpack(im, EntryAt(init + [v], |init|), |init|);
            next.Some? && Shows(next.value, init + [v])
  {
    var e := EntryAt(init + [v], |init|);
    UnpackShows(im, init, v);
    UnpackGrows(im, e, |init|);
    assert e.path == v.path;
    ShowsGrow(im, Unpack(im, e, |init|).value, init, v);
  }

  lemma ReplaySnoc(es: seq<TarEntry>, e: TarEntry)
    ensures Replay(es + [e]) == if Replay(es).None? then None else Unpack(Replay(es).value, e, |es|)
  {
    assert (es + [e])[..|es|] == es;
  }

  ghost predicate ReplaysTo(vs: seq<Visit>) {
    NoSpecial(vs) && var im := Replay(Entries(vs, |vs|)); im.Some? && Shows(im.value, vs)
  }

  lemma ReplayNext(init: seq<Visit>, v: Visit)
    requires ReplaysTo(init) && MayFollow(init, v) && v.path != [] && !v.node.SpecialNode?
    ensures ReplaysTo(init + [v])
  {
    EntriesSnoc(init, v);
    ReplaySnoc(Entries(init, |init|), EntryAt(init + [v], |init|));
    UnpackNext(Replay(Entries(init, |init|)).value, init, v);
  }

  lemma {:induction false} ReplayShows(vs: seq<Visit>)
    requires Lawful(vs) && NoSpecial(vs)
    requires forall i :: 0 <= i < |vs| ==> vs[i].path != []
    ensures ReplaysTo(vs)
    decreases |vs|
  {
    if vs == [] {
      ReplayNone();
    } else {
      var init, v := vs[..|vs| - 1], vs[|vs| - 1];
      assert vs == init + [v];
      LastOfLawful(vs);
      ReplayShows(init);
      ReplayNext(init, v);
    }
  }

  lemma ReplayNone()
    ensures ReplaysTo([])
  {
  }

  lemma LastOfLawful(vs: seq<Visit>)
    requires Lawful(vs) && NoSpecial(vs) && vs != []
    requires forall i :: 0 <= i < |vs| ==> vs[i].path != []
    ensures var init, v := vs[..|vs| - 1], vs[|vs| - 1];
            && Lawful(init) && NoSpecial(init) && MayFollow(init, v) && v.path != [] && !v.node.SpecialNode?
            && forall i :: 0 <= i < |init| ==> init[i].path != []
  {
    var init := vs[..|vs| - 1];
    assert forall i :: 0 <= i < |init| ==> init[i] == vs[i];
  }

  /** Round trip: replaying the exported stream of a lawful walk succeeds and gives back exactly
      the entries that are not skipped, each with its kind, metadata and content. */
  lemma ExportRoundTrip(walk: seq<Visit>)
    requires Lawful(walk) && NoSpecial(Kept(walk))
    ensures var vs := Kept(walk);
            var im := Replay(Entries(vs, |vs|));
            && im.Some? && Shows(im.value, vs)
            && forall v :: v in walk ==> (Exported(v) <==> v.path in im.value.names)
  {
    var vs := Kept(walk);
    KeptLawful(walk);
    forall v ensures v in vs <==> v in walk && Exported(v) { KeptIn(walk, v); }
    assert forall i :: 0 <= i < |vs| ==> vs[i] in vs;
    ReplayShows(vs);
    var im := Replay(Entries(vs, |vs|)).value;
    forall v | v in walk ensures Exported(v) <==> v.path in im.names {
      if Exported(v) {
        var i :| 0 <= i < |vs| && vs[i] == v;
        assert ShownAt(im, vs, i);
      }
      if v.path in im.names {
        var i :| 0 <= i < |vs| && vs[i].path == v.path;
        assert vs[i] in vs;
        assert Exported(vs[i]);
      }
    }
  }

  lemma {:induction false} LawfulPair(vs: seq<Visit>, i: nat, j: nat)
    requires Lawful(vs) && i < j < |vs|
    ensures vs[i].path != vs[j].path
    ensures vs[i].node.FileNode? && vs[j].node.FileNode? && vs[i].node.key == vs[j].node.key ==>
            vs[i].node == vs[j].node && vs[j].node.nlink > 1
    decreases |vs|
  {
    var init := vs[..|vs| - 1];
    if j < |init| {
      LawfulPair(init, i, j);
    } else {
      assert init[i] in init;
    }
  }

  lemma SameOrigin(vs: seq<Visit>, i: nat, j: nat)
    requires Lawful(vs) && i < |vs| && j < |vs| && vs[i].node.FileNode? && vs[j].node.FileNode?
    ensures Origin(vs, i) == Origin(vs, j) <==> vs[i].node.key == vs[j].node.key
  {
    if vs[i].node.key == vs[j].node.key && i != j {
      LawfulPair(vs, if i < j then i else j, if i < j then j else i);
    }
  }

  /** The same hard-link classes: two exported files share an inode after unpacking exactly if
      they shared one before. */
  lemma SameHardLinks(walk: seq<Visit>, i: nat, j: nat)
    requires Lawful(walk) && NoSpecial(Kept(walk))
    requires i < |Kept(walk)| && j < |Kept(walk)|
    requires Kept(walk)[i].node.FileNode? && Kept(walk)[j].node.FileNode?
    ensures var vs := Kept(walk);
            var im := Replay(Entries(vs, |vs|));
            && im.Some? && vs[i].path in im.value.names && vs[j].path in im.value.names
            && (im.value.names[vs[i].path] == im.value.names[vs[j].path] <==> vs[i].node.key == vs[j].node.key)
  {
    var vs := Kept(walk);
    ExportRoundTrip(walk);
    KeptLawful(walk);
    var im := Replay(Entries(vs, |vs|)).value;
    assert ShownAt(im, vs, i) && ShownAt(im, vs, j);
    SameOrigin(vs, i, j);
  }

  /** Every link entry names the path of an earlier regular entry of the same inode, which is not
      a skipped path. */
  lemma LinkEntriesAreSound(walk: seq<Visit>, i: nat)
    requires NoSpecial(Kept(walk)) && i < |Kept(walk)| && Kept(walk)[i].node.FileNode?
    ensures var vs := Kept(walk);
            var es, k := Entries(vs, |vs|), Origin(vs, i);
            && es[k].TarRegular? && es[k].path == vs[k].path && !Skipped(vs[k].path)
            && (es[i].TarRegular? <==> i == k)
            && (es[i].TarHardLink? ==> k < i && es[i].first == vs[k].path && vs[k].node.key == vs[i].node.key)
  {
    var vs := Kept(walk);
    EntryByOrigin(vs, i);
    var k := Origin(vs, i);
    EntryByOrigin(vs, k);
    KeptIn(walk, vs[k]);
    assert vs[k] in vs;
  }

  /** Each hard-link class has exactly one regular entry. */
  lemma OneRegularPerClass(walk: seq<Visit>, i: nat, j: nat)
    requires Lawful(walk) && NoSpecial(Kept(walk))
    requires i < |Kept(walk)| && j < |Kept(walk)|
    requires Kept(walk)[i].node.FileNode? && Kept(walk)[j].node.FileNode? && Kept(walk)[i].node.key == Kept(walk)[j].node.key
    ensures var vs := Kept(walk);
            var es := Entries(vs, |vs|);
            && Origin(vs, i) == Origin(vs, j)
            && (es[i].TarRegular? && es[j].TarRegular? ==> i == j)
  {
    var vs := Kept(walk);
    KeptLawful(walk);
    EntryByOrigin(vs, i);
    EntryByOrigin(vs, j);
    SameOrigin(vs, i, j);
  }
}
