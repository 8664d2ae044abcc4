/** Which conflicts and which deletions a diff reports, said of the three trees path by path. */
module EtcDiffReports {
  import opened Common
  import opened EtcTree
  import opened EtcDiff
  import opened EtcDiffExact

  ghost predicate CheckedIn(o: Option<Inode>, i: Inode, t: Path) {
    if t != [] then DirPair(o, i) && Checked(o.value.entries, i.entries, t)
    else if DirPair(o, i) then TouchedBelow(o.value.entries, i.entries, [])
    else !SameEntry(o, i)
  }

  lemma CheckedStep(pristine: Entries, current: Entries, n: Name, t: Path)
    requires Lookup(current, n).Some?
    ensures Checked(pristine, current, [n] + t) <==> CheckedIn(Lookup(pristine, n), Lookup(current, n).value, t)
  {
    AtStep(pristine, n, t);
    AtStep(current, n, t);
    TouchedStep(pristine, current, n, t);
    if DirPair(Lookup(pristine, n), Lookup(current, n).value) {
      BelowStep(pristine, current, n, t);
    }
    if t != [] {
      assert Parent([n] + t) == [n] + Parent(t);
      AtStep(pristine, n, Parent(t));
    } else {
      assert Parent([n] + t) == [];
    }
  }

  lemma CheckCount(new_: Entries, i: Inode, here: Path, u: Unmergable)
    ensures Count(Check(new_, i, here), u) == Bit(u.path == here && Conflicts(i, new_, here, u.reason))
  {
    GetDirectoryMeaning(new_, here);
    CountIn<Unmergable>([], u);
    CountOne(Unmergable(here, DirectoryNowFile), u);
    CountOne(Unmergable(here, FileNowDirectory), u);
  }

  /** `us` holds the report `why` at `cursor + r` exactly if that path is checked and conflicts. */
  ghost predicate ReportAt(us: seq<Unmergable>, pristine: Entries, current: Entries, new_: Entries, cursor: Path,
                           r: Path, why: Reason)
  {
    Count(us, Unmergable(cursor + r, why)) ==
    Bit(Checked(pristine, current, r) && Conflicts(At(current, r).value, new_, cursor + r, why))
  }

  ghost predicate EntryReportAt(us: seq<Unmergable>, o: Option<Inode>, i: Inode, new_: Entries, here: Path,
                                t: Path, why: Reason)
  {
    Count(us, Unmergable(here + t, why)) ==
    Bit(CheckedIn(o, i, t) && Conflicts(if t == [] then i else At(i.entries, t).value, new_, here + t, why))
  }

  lemma EntryReportSimple(o: Option<Inode>, i: Inode, new_: Entries, here: Path, t: Path, why: Reason)
    requires !DirPair(o, i)
    ensures EntryReportAt(EntryMods(o, i, new_, here).unmergable, o, i, new_, here, t, why)
  {
    CheckCount(new_, i, here, Unmergable(here + t, why));
    CountIn<Unmergable>([], Unmergable(here + t, why));
    assert t == [] ==> here + t == here;
  }

  lemma DirReportCount(oldStat: Stat, i: Inode, below: Changes, new_: Entries, here: Path, u: Unmergable)
    ensures Count(DirMods(oldStat, i, below, new_, here).unmergable, u) ==
            Count(below.unmergable, u) +
            Bit((below.added != [] || below.modified != []) && u.path == here && Conflicts(i, new_, here, u.reason))
  {
    CheckCount(new_, i, here, u);
    CountConcat([], Enclose(below, i, new_, here).unmergable, u);
    CountConcat(below.unmergable, Check(new_, i, here), u);
    CountIn<Unmergable>([], u);
  }

  lemma EntryReportSelf(o: Option<Inode>, i: Inode, below: Changes, new_: Entries, here: Path, why: Reason)
    requires DirPair(o, i) && Exact(below, o.value.entries, i.entries, new_, here)
    requires ReportsUnder(below.unmergable, here, Names(i.entries))
    ensures EntryReportAt(DirMods(o.value.stat, i, below, new_, here).unmergable, o, i, new_, here, [], why)
  {
    NonEmptyIffTouched(below, o.value.entries, i.entries, new_, here);
    DirReportCount(o.value.stat, i, below, new_, here, Unmergable(here, why));
    CountIn(below.unmergable, Unmergable(here, why));
    assert here + [] == here;
  }

  lemma EntryReportInside(o: Option<Inode>, i: Inode, below: Changes, new_: Entries, here: Path, t: Path, why: Reason)
    requires DirPair(o, i) && t != [] && ReportAt(below.unmergable, o.value.entries, i.entries, new_, here, t, why)
    ensures EntryReportAt(DirMods(o.value.stat, i, below, new_, here).unmergable, o, i, new_, here, t, why)
  {
    assert |here + t| > |here|;
    DirReportCount(o.value.stat, i, below, new_, here, Unmergable(here + t, why));
  }

  lemma EntryReports(o: Option<Inode>, i: Inode, new_: Entries, here: Path, t: Path, why: Reason)
    requires i.Directory? ==> WellFormed(i.entries)
    ensures EntryReportAt(EntryMods(o, i, new_, here).unmergable, o, i, new_, here, t, why)
    decreases i
  {
    if !DirPair(o, i) {
      EntryReportSimple(o, i, new_, here, t, why);
    } else {
      var below := Mods(o.value.entries, i.entries, new_, here);
      if t == [] {
        ModsExact(o.value.entries, i.entries, new_, here);
        ModsShape(o.value.entries, i.entries, new_, here);
        EntryReportSelf(o, i, below, new_, here, why);
      } else {
        Reports(o.value.entries, i.entries, new_, here, t, why);
        EntryReportInside(o, i, below, new_, here, t, why);
      }
    }
  }

  lemma ReportFromEntry(us: seq<Unmergable>, pristine: Entries, current: Entries, new_: Entries, cursor: Path,
                        n: Name, t: Path, why: Reason)
    requires Lookup(current, n).Some?
    requires EntryReportAt(us, Lookup(pristine, n), Lookup(current, n).value, new_, cursor + [n], t, why)
    ensures ReportAt(us, pristine, current, new_, cursor, [n] + t, why)
  {
    assert cursor + [n] + t == cursor + ([n] + t);
    CheckedStep(pristine, current, n, t);
    AtStep(current, n, t);
  }

  lemma ReportSkipHead(us: seq<Unmergable>, pristine: Entries, current: Entries, new_: Entries, cursor: Path,
                       r: Path, why: Reason)
    requires current.Cons? && r != [] && r[0] != current.name
    requires ReportAt(us, pristine, current.rest, new_, cursor, r, why)
    ensures ReportAt(us, pristine, current, new_, cursor, r, why)
  {
    SkipHead(current, r);
    forall s | s != []
      ensures Touched(pristine, current, r + s) <==> Touched(pristine, current.rest, r + s)
    {
      SkipHead(current, r + s);
    }
    assert TouchedBelow(pristine, current, r) <==> TouchedBelow(pristine, current.rest, r);
  }

  /** One part has the report, and the other does not have that path. */
  lemma ReportOfOne(e: seq<Unmergable>, later: seq<Unmergable>, pristine: Entries, current: Entries, new_: Entries,
                    cursor: Path, r: Path, why: Reason)
    requires var u := Unmergable(cursor + r, why);
             || (u !in e && ReportAt(later, pristine, current, new_, cursor, r, why))
             || (u !in later && ReportAt(e, pristine, current, new_, cursor, r, why))
    ensures ReportAt(e + later, pristine, current, new_, cursor, r, why)
  {
    var u := Unmergable(cursor + r, why);
    CountConcat(e, later, u);
    CountIn(e, u);
    CountIn(later, u);
  }

  lemma {:induction false} Reports(pristine: Entries, current: Entries, new_: Entries, cursor: Path, r: Path, why: Reason)
    requires WellFormed(current) && r != []
    ensures ReportAt(Mods(pristine, current, new_, cursor).unmergable, pristine, current, new_, cursor, r, why)
    decreases current
  {
    if current.Nil? {
      CountIn<Unmergable>([], Unmergable(cursor + r, why));
    } else {
      var n, t := current.name, r[1..];
      var e := EntryMods(Lookup(pristine, n), current.inode, new_, cursor + [n]).unmergable;
      var later := Mods(pristine, current.rest, new_, cursor).unmergable;
      if r[0] != n {
        Reports(pristine, current.rest, new_, cursor, r, why);
        EntryShape(Lookup(pristine, n), current.inode, new_, cursor + [n]);
        NotWithin(cursor, n, r);
        ReportSkipHead(later, pristine, current, new_, cursor, r, why);
      } else {
        ModsShape(pristine, current.rest, new_, cursor);
        assert r == [n] + t;
        EntryReports(Lookup(pristine, n), current.inode, new_, cursor + [n], t, why);
        ReportFromEntry(e, pristine, current, new_, cursor, n, t, why);
      }
      ReportOfOne(e, later, pristine, current, new_, cursor, r, why);
    }
  }

  // -- Deletions.

  lemma {:induction false} DelsShape(pristine: Entries, current: Entries, cursor: Path)
    ensures AllUnder(Dels(pristine, current, cursor), cursor, Names(pristine))
    decreases pristine
  {
    if pristine.Cons? {
      DelsShape(pristine.rest, current, cursor);
      EntryDelsShape(pristine.inode, Lookup(current, pristine.name), cursor + [pristine.name]);
    }
  }

  lemma EntryDelsShape(i: Inode, c: Option<Inode>, here: Path)
    ensures forall q :: q in EntryDels(i, c, here) ==> Within(q, here)
    decreases i
  {
    if c.Some? && i.Directory? && c.value.Directory? {
      DelsShape(i.entries, c.value.entries, here);
    }
  }

  ghost predicate RemovedIn(i: Inode, c: Option<Inode>, t: Path) {
    if t == [] then c.None?
    else c.Some? && i.Directory? && c.value.Directory? && Removed(i.entries, c.value.entries, t)
  }

  lemma RemovedStep(pristine: Entries, current: Entries, n: Name, t: Path)
    requires Lookup(pristine, n).Some?
    ensures Removed(pristine, current, [n] + t) <==> RemovedIn(Lookup(pristine, n).value, Lookup(current, n), t)
  {
    AtStep(pristine, n, t);
    AtStep(current, n, t);
    if t == [] {
      assert Parent([n] + t) == [];
    } else {
      assert Parent([n] + t) == [n] + Parent(t);
      AtStep(current, n, Parent(t));
    }
  }

  lemma EntryDelsExact(i: Inode, c: Option<Inode>, here: Path, t: Path)
    requires i.Directory? ==> WellFormed(i.entries)
    ensures Count(EntryDels(i, c, here), here + t) == Bit(RemovedIn(i, c, t))
    decreases i
  {
    CountOne(here, here + t);
    CountIn<Path>([], here + t);
    assert if t == [] then here + t == here else |here + t| > |here|;
    if c.Some? && i.Directory? && c.value.Directory? {
      if t == [] {
        DelsShape(i.entries, c.value.entries, here);
        CountOutside(EntryDels(i, c, here), here, Names(i.entries), here);
      } else {
        DelsExact(i.entries, c.value.entries, here, t);
      }
    }
  }

  /** `removed` lists exactly the topmost pristine paths missing from current, each once. */
  lemma {:induction false} DelsExact(pristine: Entries, current: Entries, cursor: Path, r: Path)
    requires WellFormed(pristine) && r != []
    ensures Count(Dels(pristine, current, cursor), cursor + r) == Bit(Removed(pristine, current, r))
    decreases pristine
  {
    CountIn<Path>([], cursor + r);
    if pristine.Cons? {
      var n, t := pristine.name, r[1..];
      var e := EntryDels(pristine.inode, Lookup(current, n), cursor + [n]);
      var later := Dels(pristine.rest, current, cursor);
      CountConcat(e, later, cursor + r);
      if r[0] != n {
        DelsExact(pristine.rest, current, cursor, r);
        SkipHead(pristine, r);
        EntryDelsShape(pristine.inode, Lookup(current, n), cursor + [n]);
        NotWithin(cursor, n, r);
        CountIn(e, cursor + r);
      } else {
        DelsShape(pristine.rest, current, cursor);
        CountOutside(later, cursor, Names(pristine.rest), cursor + r);
        assert r == [n] + t;
        assert cursor + [n] + t == cursor + r;
        EntryDelsExact(pristine.inode, Lookup(current, n), cursor + [n], t);
        RemovedStep(pristine, current, n, t);
      }
    }
  }

  // -- The order of the reports.

  /** No report comes before one for a path below it. */
  ghost predicate InsideFirst(us: seq<Unmergable>) {
    forall i, j :: 0 <= i < j < |us| ==> !(us[i].path < us[j].path)
  }

  lemma InsideFirstConcat(a: seq<Unmergable>, b: seq<Unmergable>)
    requires InsideFirst(a) && InsideFirst(b)
    requires forall u, v :: u in a && v in b ==> !(u.path < v.path)
    ensures InsideFirst(a + b)
  {
    var ab := a + b;
    forall i, j | 0 <= i < j < |ab| ensures !(ab[i].path < ab[j].path) {
      if i < |a| <= j {
        assert ab[i] == a[i] && a[i] in a && ab[j] == b[j - |a|] && b[j - |a|] in b;
      } else if j < |a| {
        assert ab[i] == a[i] && ab[j] == a[j];
      } else {
        assert ab[i] == b[i - |a|] && ab[j] == b[j - |a|];
      }
    }
  }

  lemma EntryInsideFirst(o: Option<Inode>, i: Inode, below: Changes, new_: Entries, here: Path)
    requires DirPair(o, i) ==> below == Mods(o.value.entries, i.entries, new_, here)
    requires DirPair(o, i) ==> InsideFirst(below.unmergable)
    requires DirPair(o, i) ==> ReportsUnder(below.unmergable, here, Names(i.entries))
    ensures InsideFirst(EntryMods(o, i, new_, here).unmergable)
  {
    if DirPair(o, i) {
      var e := EntryMods(o, i, new_, here).unmergable;
      assert e == below.unmergable || e == below.unmergable + Check(new_, i, here);
      forall u, v | u in below.unmergable && v in Check(new_, i, here) ensures !(u.path < v.path) {
        assert v.path == here && |u.path| > |here|;
      }
      InsideFirstConcat(below.unmergable, Check(new_, i, here));
    }
  }

  /** The reports of a diff: what lies inside a directory is reported before the directory. */
  lemma {:induction false} ReportsInsideFirst(pristine: Entries, current: Entries, new_: Entries, cursor: Path)
    requires WellFormed(current)
    ensures InsideFirst(Mods(pristine, current, new_, cursor).unmergable)
    decreases current
  {
    if current.Cons? {
      var n, i, o := current.name, current.inode, Lookup(pristine, current.name);
      var here := cursor + [n];
      var below := Changes([], [], []);
      if DirPair(o, i) {
        below := Mods(o.value.entries, i.entries, new_, here);
        ReportsInsideFirst(o.value.entries, i.entries, new_, here);
        ModsShape(o.value.entries, i.entries, new_, here);
      }
      EntryInsideFirst(o, i, below, new_, here);
      ReportsInsideFirst(pristine, current.rest, new_, cursor);
      var e, later := EntryMods(o, i, new_, here).unmergable, Mods(pristine, current.rest, new_, cursor).unmergable;
      EntryShape(o, i, new_, here);
      ModsShape(pristine, current.rest, new_, cursor);
      forall u, v | u in e && v in later ensures !(u.path < v.path) {
        assert here <= u.path && v.path[|cursor|] in Names(current.rest);
        assert u.path[|cursor|] == n;
      }
      InsideFirstConcat(e, later);
    }
  }
}
