/** What the four lists of a diff contain, said of the three trees path by path: which paths
    occur, how often, and in which list. */
module EtcDiffExact {
  import opened Common
  import opened EtcTree
  import opened EtcDiff

  /** Equal mode, owner and attributes; the times may differ. */
  ghost predicate SameMeta(a: Stat, b: Stat) {
    a.mode == b.mode && a.uid == b.uid && a.gid == b.gid && a.xattrs == b.xattrs
  }

  /** Two files of equal hash, whatever their digests and bytes, or two links of equal target. */
  ghost predicate SameHashOrTarget(a: LeafContent, b: LeafContent) {
    || (a.Regular? && b.Regular? && a.contentHash == b.contentHash)
    || (a.Symlink? && b.Symlink? && a.target == b.target)
  }

  /** The pristine entry `o` is the current inode `c`, as far as the diff should tell. */
  ghost predicate SameEntry(o: Option<Inode>, c: Inode) {
    && o.Some? && SameMeta(o.value.stat, c.stat)
    && (o.value.Directory? <==> c.Directory?)
    && (c.Leaf? ==> SameHashOrTarget(o.value.content, c.content))
  }

  /** Current holds something at `p` that pristine does not, and `p` does not lie below a
      leaf of pristine. */
  ghost predicate Touched(pristine: Entries, current: Entries, p: Path) {
    && At(current, p).Some?
    && !LeafAbove(pristine, p)
    && !SameEntry(At(pristine, p), At(current, p).value)
  }

  ghost predicate Added(pristine: Entries, current: Entries, p: Path) {
    Touched(pristine, current, p) && At(pristine, p).None?
  }

  ghost predicate BothDirs(pristine: Entries, current: Entries, p: Path) {
    p != [] && IsDirAt(pristine, p) && IsDirAt(current, p)
  }

  ghost predicate TouchedBelow(pristine: Entries, current: Entries, p: Path) {
    exists s :: s != [] && Touched(pristine, current, p + s)
  }

  ghost predicate AddedBelow(pristine: Entries, current: Entries, p: Path) {
    exists s :: s != [] && Added(pristine, current, p + s)
  }

  /** An unchanged directory that new lost (`here` is its full path) but that holds changes. */
  ghost predicate Restored(pristine: Entries, current: Entries, new_: Entries, here: Path, p: Path) {
    BothDirs(pristine, current, p) && !IsDirAt(new_, here) && TouchedBelow(pristine, current, p)
  }

  ghost predicate Removed(pristine: Entries, current: Entries, p: Path) {
    p != [] && At(pristine, p).Some? && At(current, p).None? && IsDirAt(current, Parent(p))
  }

  ghost predicate Conflicts(current: Inode, new_: Entries, here: Path, why: Reason) {
    match why
    case DirectoryNowFile => current.Directory? && (IsLeafAt(new_, here) || LeafAbove(new_, here))
    case FileNowDirectory => current.Leaf? && IsDirAt(new_, here)
  }

  /** The paths at which the walk looks for a conflict: changed entries that do not lie inside
      an added directory, except that a directory kept from pristine is looked at for what
      changed below it and not for its own stat. */
  ghost predicate Checked(pristine: Entries, current: Entries, p: Path) {
    && p != [] && At(current, p).Some? && IsDirAt(pristine, Parent(p))
    && if BothDirs(pristine, current, p) then TouchedBelow(pristine, current, p) else Touched(pristine, current, p)
  }

  ghost function Bit(b: bool): nat { if b then 1 else 0 }

  // -- Every recorded path lies strictly below the cursor, in an entry that was walked.

  ghost predicate Under(q: Path, cursor: Path, names: set<Name>) {
    cursor < q && q[|cursor|] in names
  }

  ghost predicate AllUnder(ps: seq<Path>, cursor: Path, names: set<Name>) {
    forall q :: q in ps ==> Under(q, cursor, names)
  }

  ghost predicate ReportsUnder(us: seq<Unmergable>, cursor: Path, names: set<Name>) {
    forall u :: u in us ==> Under(u.path, cursor, names)
  }

  /** `cursor + [n]` itself, or something below it. */
  ghost predicate Within(q: Path, here: Path) {
    here <= q
  }

  lemma NotWithin(cursor: Path, n: Name, r: Path)
    requires r != [] && r[0] != n
    ensures !Within(cursor + r, cursor + [n])
  {
    assert (cursor + r)[|cursor|] == r[0] && (cursor + [n])[|cursor|] == n;
  }

  lemma {:induction false} CollectShape(es: Entries, cursor: Path)
    ensures AllUnder(Collect(es, cursor), cursor, Names(es))
    decreases es
  {
    if es.Cons? {
      CollectShape(es.rest, cursor);
      CollectEntryShape(es.inode, cursor + [es.name]);
    }
  }

  lemma CollectEntryShape(i: Inode, here: Path)
    ensures forall q :: q in CollectEntry(i, here) ==> Within(q, here)
    decreases i
  {
    if i.Directory? {
      CollectShape(i.entries, here);
    }
  }

  ghost predicate ChangesWithin(c: Changes, here: Path) {
    && (forall q :: q in c.added + c.modified ==> Within(q, here))
    && (forall u :: u in c.unmergable ==> Within(u.path, here))
  }

  lemma DirModsShape(oldStat: Stat, i: Inode, below: Changes, new_: Entries, here: Path)
    requires ChangesWithin(below, here)
    ensures ChangesWithin(DirMods(oldStat, i, below, new_, here), here)
  {
    var e := DirMods(oldStat, i, below, new_, here);
    forall q | q in e.added + e.modified ensures Within(q, here) {
      assert q == here || q in below.added + below.modified;
    }
    forall u | u in e.unmergable ensures Within(u.path, here) {
      assert u in below.unmergable || u in Check(new_, i, here);
    }
  }

  lemma {:induction false} EntryShape(old_: Option<Inode>, i: Inode, new_: Entries, here: Path)
    ensures ChangesWithin(EntryMods(old_, i, new_, here), here)
    decreases i
  {
    if i.Directory? && old_.Some? && old_.value.Directory? {
      ModsShape(old_.value.entries, i.entries, new_, here);
      DirModsShape(old_.value.stat, i, Mods(old_.value.entries, i.entries, new_, here), new_, here);
    } else if i.Directory? && old_.None? {
      CollectShape(i.entries, here);
    }
  }

  lemma {:induction false} ModsShape(pristine: Entries, current: Entries, new_: Entries, cursor: Path)
    ensures var c := Mods(pristine, current, new_, cursor);
            && AllUnder(c.added, cursor, Names(current))
            && AllUnder(c.modified, cursor, Names(current))
            && ReportsUnder(c.unmergable, cursor, Names(current))
    decreases current
  {
    if current.Cons? {
      var here := cursor + [current.name];
      var e := EntryMods(Lookup(pristine, current.name), current.inode, new_, here);
      EntryShape(Lookup(pristine, current.name), current.inode, new_, here);
      ModsShape(pristine, current.rest, new_, cursor);
      forall q | Within(q, here)
        ensures Under(q, cursor, Names(current))
      {
      }
      assert forall q :: q in e.added ==> q in e.added + e.modified;
      assert forall q :: q in e.modified ==> q in e.added + e.modified;
    }
  }

  // -- The predicates, one component at a time.

  /** `Touched` at `[n] + r`, given the two entries named `n`. */
  ghost predicate TouchedIn(o: Option<Inode>, c: Option<Inode>, r: Path) {
    match (o, c)
    case (_, None) => false
    case (None, Some(i)) => r == [] || (i.Directory? && At(i.entries, r).Some?)
    case (Some(j), Some(i)) =>
      if r == [] then !SameEntry(o, i)
      else j.Directory? && i.Directory? && Touched(j.entries, i.entries, r)
  }

  ghost predicate AddedIn(o: Option<Inode>, c: Option<Inode>, r: Path) {
    match (o, c)
    case (_, None) => false
    case (None, Some(i)) => r == [] || (i.Directory? && At(i.entries, r).Some?)
    case (Some(j), Some(i)) => r != [] && j.Directory? && i.Directory? && Added(j.entries, i.entries, r)
  }

  lemma TouchedStep(pristine: Entries, current: Entries, n: Name, r: Path)
    ensures Touched(pristine, current, [n] + r) <==> TouchedIn(Lookup(pristine, n), Lookup(current, n), r)
    ensures Added(pristine, current, [n] + r) <==> AddedIn(Lookup(pristine, n), Lookup(current, n), r)
  {
    AtStep(pristine, n, r);
    AtStep(current, n, r);
    LeafAboveStep(pristine, n, r);
  }

  lemma BelowStep(pristine: Entries, current: Entries, n: Name, r: Path)
    requires Lookup(pristine, n).Some? && Lookup(pristine, n).value.Directory?
    requires Lookup(current, n).Some? && Lookup(current, n).value.Directory?
    ensures var p, c := Lookup(pristine, n).value.entries, Lookup(current, n).value.entries;
            && (TouchedBelow(pristine, current, [n] + r) <==> TouchedBelow(p, c, r))
            && (AddedBelow(pristine, current, [n] + r) <==> AddedBelow(p, c, r))
  {
    var p, c := Lookup(pristine, n).value.entries, Lookup(current, n).value.entries;
    forall s | s != []
      ensures Touched(pristine, current, [n] + r + s) <==> Touched(p, c, r + s)
      ensures Added(pristine, current, [n] + r + s) <==> Added(p, c, r + s)
    {
      assert [n] + r + s == [n] + (r + s);
      TouchedStep(pristine, current, n, r + s);
    }
    if TouchedBelow(pristine, current, [n] + r) {
      var s :| s != [] && Touched(pristine, current, [n] + r + s);
      assert Touched(p, c, r + s);
    }
    if TouchedBelow(p, c, r) {
      var s :| s != [] && Touched(p, c, r + s);
      assert Touched(pristine, current, [n] + r + s);
    }
    if AddedBelow(pristine, current, [n] + r) {
      var s :| s != [] && Added(pristine, current, [n] + r + s);
      assert Added(p, c, r + s);
    }
    if AddedBelow(p, c, r) {
      var s :| s != [] && Added(p, c, r + s);
      assert Added(pristine, current, [n] + r + s);
    }
  }

  // -- How often a path occurs.

  lemma CountOutside(s: seq<Path>, cursor: Path, names: set<Name>, q: Path)
    requires AllUnder(s, cursor, names)
    requires |q| <= |cursor| || q[|cursor|] !in names
    ensures Count(s, q) == 0
  {
    CountIn(s, q);
  }

  lemma CountOne<T>(x: T, y: T)
    ensures Count([x], y) == Bit(x == y)
  {
    assert multiset([x]) == multiset{x};
  }

  lemma SkipHead(es: Entries, r: Path)
    requires es.Cons? && r != [] && r[0] != es.name
    ensures At(es, r) == At(es.rest, r)
  {
    assert Lookup(es, r[0]) == Lookup(es.rest, r[0]);
  }

  lemma {:induction false} CollectCount(es: Entries, cursor: Path, r: Path)
    requires WellFormed(es) && r != []
    ensures Count(Collect(es, cursor), cursor + r) == Bit(At(es, r).Some?)
    decreases es
  {
    if es.Cons? {
      var here := cursor + [es.name];
      CountConcat(CollectEntry(es.inode, here), Collect(es.rest, cursor), cursor + r);
      if r[0] != es.name {
        SkipHead(es, r);
        CollectCount(es.rest, cursor, r);
        CollectEntryShape(es.inode, here);
        NotWithin(cursor, es.name, r);
        CountIn(CollectEntry(es.inode, here), cursor + r);
      } else {
        CollectShape(es.rest, cursor);
        CountOutside(Collect(es.rest, cursor), cursor, Names(es.rest), cursor + r);
        var t := r[1..];
        assert r == [es.name] + t && cursor + r == here + t;
        AtStep(es, es.name, t);
        CollectEntryCount(es.inode, here, t);
      }
    }
  }

  lemma CollectEntryCount(i: Inode, here: Path, t: Path)
    requires i.Directory? ==> WellFormed(i.entries)
    ensures Count(CollectEntry(i, here), here + t) == Bit(t == [] || (i.Directory? && At(i.entries, t).Some?))
    decreases i
  {
    var inner := if i.Directory? then Collect(i.entries, here) else [];
    CountConcat([here], inner, here + t);
    CountOne(here, here + t);
    CountIn(inner, here + t);
    if t == [] {
      assert here + t == here;
      if i.Directory? {
        CollectShape(i.entries, here);
      }
    } else {
      assert |here + t| > |here|;
      if i.Directory? {
        CollectCount(i.entries, here, t);
      }
    }
  }

  /** `c` is what a walk below `cursor` may have recorded at `cursor + r`. */
  ghost predicate ExactAt(c: Changes, pristine: Entries, current: Entries, new_: Entries, cursor: Path, r: Path) {
    var again := Restored(pristine, current, new_, cursor + r, r);
    && Count(c.added, cursor + r) ==
       Bit(Added(pristine, current, r)) + Bit(again && AddedBelow(pristine, current, r))
    && Count(c.modified, cursor + r) ==
       Bit(Touched(pristine, current, r) && At(pristine, r).Some?) + Bit(again && !AddedBelow(pristine, current, r))
  }

  ghost predicate Exact(c: Changes, pristine: Entries, current: Entries, new_: Entries, cursor: Path) {
    && AllUnder(c.added, cursor, Names(current))
    && AllUnder(c.modified, cursor, Names(current))
    && forall r :: r != [] ==> ExactAt(c, pristine, current, new_, cursor, r)
  }

  /** A walk records something exactly if something below was touched. */
  lemma NonEmptyIffTouched(c: Changes, pristine: Entries, current: Entries, new_: Entries, cursor: Path)
    requires Exact(c, pristine, current, new_, cursor)
    ensures c.added != [] <==> AddedBelow(pristine, current, [])
    ensures c.added != [] || c.modified != [] <==> TouchedBelow(pristine, current, [])
  {
    if c.added != [] {
      assert c.added[0] in c.added;
      RecordedMeansTouched(c, pristine, current, new_, cursor, c.added[0]);
    }
    if c.modified != [] {
      assert c.modified[0] in c.modified;
      RecordedMeansTouched(c, pristine, current, new_, cursor, c.modified[0]);
    }
    if AddedBelow(pristine, current, []) {
      var s :| s != [] && Added(pristine, current, [] + s);
      assert [] + s == s && ExactAt(c, pristine, current, new_, cursor, s);
    }
    if TouchedBelow(pristine, current, []) {
      var s :| s != [] && Touched(pristine, current, [] + s);
      assert [] + s == s && ExactAt(c, pristine, current, new_, cursor, s);
    }
  }

  lemma RecordedMeansTouched(c: Changes, pristine: Entries, current: Entries, new_: Entries, cursor: Path, q: Path)
    requires cursor < q && ExactAt(c, pristine, current, new_, cursor, q[|cursor|..])
    ensures q in c.added ==> AddedBelow(pristine, current, [])
    ensures q in c.added || q in c.modified ==> TouchedBelow(pristine, current, [])
  {
    var r := q[|cursor|..];
    assert q == cursor + r;
    BelowFrom(pristine, current, r);
  }

  lemma BelowFrom(pristine: Entries, current: Entries, r: Path)
    requires r != []
    ensures Touched(pristine, current, r) || TouchedBelow(pristine, current, r) ==> TouchedBelow(pristine, current, [])
    ensures Added(pristine, current, r) || AddedBelow(pristine, current, r) ==> AddedBelow(pristine, current, [])
  {
    assert [] + r == r;
    if TouchedBelow(pristine, current, r) {
      var s :| s != [] && Touched(pristine, current, r + s);
      assert [] + (r + s) == r + s;
    }
    if AddedBelow(pristine, current, r) {
      var s :| s != [] && Added(pristine, current, r + s);
      assert [] + (r + s) == r + s;
    }
  }

  // -- The same, for the changes that one entry contributes.

  ghost predicate DirPair(o: Option<Inode>, i: Inode) {
    o.Some? && o.value.Directory? && i.Directory?
  }

  ghost predicate RestoredIn(o: Option<Inode>, i: Inode, new_: Entries, here: Path, t: Path) {
    && DirPair(o, i)
    && if t == [] then !IsDirAt(new_, here) && TouchedBelow(o.value.entries, i.entries, [])
       else Restored(o.value.entries, i.entries, new_, here + t, t)
  }

  ghost predicate EntryExactAt(e: Changes, o: Option<Inode>, i: Inode, new_: Entries, here: Path, t: Path) {
    var again := RestoredIn(o, i, new_, here, t);
    var more := DirPair(o, i) && AddedBelow(o.value.entries, i.entries, t);
    && Count(e.added, here + t) == Bit(AddedIn(o, Some(i), t)) + Bit(again && more)
    && Count(e.modified, here + t) == Bit(TouchedIn(o, Some(i), t) && !AddedIn(o, Some(i), t)) + Bit(again && !more)
  }

  lemma EntryExactSimple(o: Option<Inode>, i: Inode, new_: Entries, here: Path, t: Path)
    requires i.Directory? ==> WellFormed(i.entries)
    requires !DirPair(o, i)
    ensures EntryExactAt(EntryMods(o, i, new_, here), o, i, new_, here, t)
  {
    var e := EntryMods(o, i, new_, here);
    CountOne(here, here + t);
    CountIn<Path>([], here + t);
    assert t == [] ==> here + t == here;
    if o.None? {
      assert e.added == CollectEntry(i, here) by {
        assert i.Leaf? ==> [here] + [] == [here];
      }
      CollectEntryCount(i, here, t);
    }
  }

  /** A directory of both trees, seen at itself. */
  lemma EntryExactSelf(o: Option<Inode>, i: Inode, below: Changes, new_: Entries, here: Path)
    requires DirPair(o, i)
    requires Count(below.added, here) == 0 && Count(below.modified, here) == 0
    requires below.added != [] <==> AddedBelow(o.value.entries, i.entries, [])
    requires below.added != [] || below.modified != [] <==> TouchedBelow(o.value.entries, i.entries, [])
    ensures EntryExactAt(DirMods(o.value.stat, i, below, new_, here), o, i, new_, here, [])
  {
    GetDirectoryMeaning(new_, here);
    DirModsCount(o.value.stat, i, below, new_, here, here);
    assert here + [] == here;
    assert !AddedIn(o, Some(i), []) && (TouchedIn(o, Some(i), []) <==> !StatEqIgnoreMtime(i.stat, o.value.stat));
    assert RestoredIn(o, i, new_, here, []) <==>
           !GetDirectory(new_, here).Found? && (below.added != [] || below.modified != []);
  }

  lemma DirModsCount(oldStat: Stat, i: Inode, below: Changes, new_: Entries, here: Path, q: Path)
    ensures var e := DirMods(oldStat, i, below, new_, here);
            var again := !GetDirectory(new_, here).Found? && q == here;
            && Count(e.added, q) == Count(below.added, q) + Bit(again && below.added != [])
            && Count(e.modified, q) == Bit(q == here && !StatEqIgnoreMtime(i.stat, oldStat)) + Count(below.modified, q)
                                       + Bit(again && below.added == [] && below.modified != [])
  {
    CountOne(here, q);
    CountIn<Path>([], q);
    var own := if StatEqIgnoreMtime(i.stat, oldStat) then [] else [here];
    var again := if GetDirectory(new_, here).Found? then [] else [here];
    var inner := Enclose(below, i, new_, here);
    CountConcat(again, below.added, q);
    CountConcat(again, below.modified, q);
    CountConcat(own, inner.modified, q);
    CountConcat([], inner.added, q);
  }

  /** A directory of both trees, seen at a path below it. */
  lemma EntryExactInside(o: Option<Inode>, i: Inode, below: Changes, new_: Entries, here: Path, t: Path)
    requires DirPair(o, i) && t != [] && ExactAt(below, o.value.entries, i.entries, new_, here, t)
    ensures EntryExactAt(DirMods(o.value.stat, i, below, new_, here), o, i, new_, here, t)
  {
    assert |here + t| > |here|;
    DirModsCount(o.value.stat, i, below, new_, here, here + t);
  }

  lemma RestoredStep(pristine: Entries, current: Entries, new_: Entries, here: Path, n: Name, t: Path)
    requires Lookup(current, n).Some?
    ensures Restored(pristine, current, new_, here + t, [n] + t) <==>
            RestoredIn(Lookup(pristine, n), Lookup(current, n).value, new_, here, t)
  {
    AtStep(pristine, n, t);
    AtStep(current, n, t);
    if t == [] {
      assert here + t == here;
    }
    if DirPair(Lookup(pristine, n), Lookup(current, n).value) {
      BelowStep(pristine, current, n, t);
    }
  }

  lemma ExactFromEntry(e: Changes, pristine: Entries, current: Entries, new_: Entries, cursor: Path, n: Name, t: Path)
    requires Lookup(current, n).Some?
    requires EntryExactAt(e, Lookup(pristine, n), Lookup(current, n).value, new_, cursor + [n], t)
    ensures ExactAt(e, pristine, current, new_, cursor, [n] + t)
  {
    assert cursor + [n] + t == cursor + ([n] + t);
    TouchedStep(pristine, current, n, t);
    RestoredStep(pristine, current, new_, cursor + [n], n, t);
    AtStep(pristine, n, t);
    if DirPair(Lookup(pristine, n), Lookup(current, n).value) {
      BelowStep(pristine, current, n, t);
    }
  }

  /** Entries other than the first say the same of a path whether the first is there or not. */
  lemma ExactSkipHead(c: Changes, pristine: Entries, current: Entries, new_: Entries, cursor: Path, r: Path)
    requires current.Cons? && r != [] && r[0] != current.name
    requires ExactAt(c, pristine, current.rest, new_, cursor, r)
    ensures ExactAt(c, pristine, current, new_, cursor, r)
  {
    SkipHead(current, r);
    forall s | s != []
      ensures Touched(pristine, current, r + s) <==> Touched(pristine, current.rest, r + s)
      ensures Added(pristine, current, r + s) <==> Added(pristine, current.rest, r + s)
    {
      SkipHead(current, r + s);
    }
    assert TouchedBelow(pristine, current, r) <==> TouchedBelow(pristine, current.rest, r);
    assert AddedBelow(pristine, current, r) <==> AddedBelow(pristine, current.rest, r);
  }

  lemma {:induction false} ModsExact(pristine: Entries, current: Entries, new_: Entries, cursor: Path)
    requires WellFormed(current)
    ensures Exact(Mods(pristine, current, new_, cursor), pristine, current, new_, cursor)
    decreases current, 2
  {
    ModsShape(pristine, current, new_, cursor);
    forall r | r != []
      ensures ExactAt(Mods(pristine, current, new_, cursor), pristine, current, new_, cursor, r)
    {
      ModsExactAt(pristine, current, new_, cursor, r);
    }
  }

  lemma {:induction false} ModsExactAt(pristine: Entries, current: Entries, new_: Entries, cursor: Path, r: Path)
    requires WellFormed(current) && r != []
    ensures ExactAt(Mods(pristine, current, new_, cursor), pristine, current, new_, cursor, r)
    decreases current, 1
  {
    if current.Nil? {
      CountIn<Path>([], cursor + r);
      ExactNil(pristine, new_, cursor, r);
    } else {
      var n, t := current.name, r[1..];
      var e := EntryMods(Lookup(pristine, n), current.inode, new_, cursor + [n]);
      var later := Mods(pristine, current.rest, new_, cursor);
      CountConcat(e.added, later.added, cursor + r);
      CountConcat(e.modified, later.modified, cursor + r);
      if r[0] != n {
        ModsExactAt(pristine, current.rest, new_, cursor, r);
        EntryMiss(Lookup(pristine, n), current.inode, new_, cursor, n, r);
        ExactSkipHead(later, pristine, current, new_, cursor, r);
      } else {
        ModsShape(pristine, current.rest, new_, cursor);
        CountOutside(later.added, cursor, Names(current.rest), cursor + r);
        CountOutside(later.modified, cursor, Names(current.rest), cursor + r);
        assert r == [n] + t;
        EntryExact(Lookup(pristine, n), current.inode, new_, cursor + [n], t);
        ExactFromEntry(e, pristine, current, new_, cursor, n, t);
      }
    }
  }

  lemma ExactNil(pristine: Entries, new_: Entries, cursor: Path, r: Path)
    ensures ExactAt(Changes([], [], []), pristine, Nil, new_, cursor, r)
  {
    CountIn<Path>([], cursor + r);
    assert At(Nil, r).None?;
  }

  lemma EntryMiss(o: Option<Inode>, i: Inode, new_: Entries, cursor: Path, n: Name, r: Path)
    requires r != [] && r[0] != n
    ensures var e := EntryMods(o, i, new_, cursor + [n]);
            Count(e.added, cursor + r) == 0 && Count(e.modified, cursor + r) == 0
  {
    var e := EntryMods(o, i, new_, cursor + [n]);
    EntryShape(o, i, new_, cursor + [n]);
    NotWithin(cursor, n, r);
    assert cursor + r !in e.added + e.modified;
    CountIn(e.added, cursor + r);
    CountIn(e.modified, cursor + r);
  }

  lemma EntryExact(o: Option<Inode>, i: Inode, new_: Entries, here: Path, t: Path)
    requires i.Directory? ==> WellFormed(i.entries)
    ensures EntryExactAt(EntryMods(o, i, new_, here), o, i, new_, here, t)
    decreases i
  {
    if !DirPair(o, i) {
      EntryExactSimple(o, i, new_, here, t);
    } else {
      ModsExact(o.value.entries, i.entries, new_, here);
      var below := Mods(o.value.entries, i.entries, new_, here);
      if t == [] {
        NonEmptyIffTouched(below, o.value.entries, i.entries, new_, here);
        CountOutside(below.added, here, Names(i.entries), here);
        CountOutside(below.modified, here, Names(i.entries), here);
        EntryExactSelf(o, i, below, new_, here);
      } else {
        EntryExactInside(o, i, below, new_, here, t);
      }
    }
  }
}
