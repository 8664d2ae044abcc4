/** The order of the lists: whatever a listed path needs above it is there before it. */
module EtcDiffOrder {
  import opened Common
  import opened EtcTree
  import opened EtcDiff
  import opened EtcDiffExact

  /** For the entry at index `i` and its ancestor of length `k`: new has the ancestor as a
      directory, or the ancestor is in `ready` or earlier in `list`. */
  ghost predicate AncestorReady(ready: seq<Path>, list: seq<Path>, new_: Entries, i: nat, k: nat)
    requires i < |list| && k <= |list[i]|
  {
    var a := list[i][..k];
    IsDirAt(new_, a) || a in ready || a in list[..i]
  }

  /** Every ancestor longer than `base` of every entry is ready. */
  ghost predicate InOrder(ready: seq<Path>, list: seq<Path>, new_: Entries, base: int) {
    forall i, k | 0 <= i < |list| && base < k < |list[i]| && 0 <= k :: AncestorReady(ready, list, new_, i, k)
  }

  lemma InOrderConcat(ready: seq<Path>, a: seq<Path>, b: seq<Path>, new_: Entries, base: int)
    requires InOrder(ready, a, new_, base)
    requires InOrder(ready + a, b, new_, base)
    ensures InOrder(ready, a + b, new_, base)
  {
    var ab := a + b;
    forall i, k | 0 <= i < |ab| && base < k < |ab[i]| && 0 <= k
      ensures AncestorReady(ready, ab, new_, i, k)
    {
      if i < |a| {
        assert AncestorReady(ready, a, new_, i, k);
        assert ab[..i] == a[..i];
      } else {
        assert AncestorReady(ready + a, b, new_, i - |a|, k);
        assert ab[..i] == a + b[..i - |a|];
      }
    }
  }

  lemma InOrderMore(ready: seq<Path>, more: seq<Path>, list: seq<Path>, new_: Entries, base: int)
    requires InOrder(ready, list, new_, base)
    requires forall q :: q in ready ==> q in more
    ensures InOrder(more, list, new_, base)
  {
    forall i, k | 0 <= i < |list| && base < k < |list[i]| && 0 <= k
      ensures AncestorReady(more, list, new_, i, k)
    {
      assert AncestorReady(ready, list, new_, i, k);
    }
  }

  /** Once `here` itself is ready, ancestors need only be looked for from its parent down. */
  lemma InOrderDown(ready: seq<Path>, list: seq<Path>, new_: Entries, here: Path)
    requires InOrder(ready, list, new_, |here|)
    requires forall q :: q in list ==> Within(q, here)
    requires IsDirAt(new_, here) || here in ready
    ensures InOrder(ready, list, new_, |here| - 1)
  {
    forall i, k | 0 <= i < |list| && |here| - 1 < k < |list[i]| && 0 <= k
      ensures AncestorReady(ready, list, new_, i, k)
    {
      if k == |here| {
        assert Within(list[i], here);
        assert list[i][..k] == here;
      } else {
        assert AncestorReady(ready, list, new_, i, k);
      }
    }
  }

  lemma InOrderHeaded(ready: seq<Path>, list: seq<Path>, new_: Entries, here: Path)
    requires InOrder(ready, list, new_, |here|)
    requires forall q :: q in list ==> Within(q, here)
    ensures InOrder(ready, [here] + list, new_, |here| - 1)
  {
    InOrderMore(ready, ready + [here], list, new_, |here|);
    InOrderDown(ready + [here], list, new_, here);
    InOrderConcat(ready, [here], list, new_, |here| - 1);
  }

  lemma {:induction false} CollectOrder(es: Entries, new_: Entries, cursor: Path)
    ensures InOrder([], Collect(es, cursor), new_, |cursor|)
    decreases es
  {
    if es.Cons? {
      CollectEntryOrder(es.inode, new_, cursor + [es.name]);
      CollectOrder(es.rest, new_, cursor);
      var first := CollectEntry(es.inode, cursor + [es.name]);
      InOrderMore([], [] + first, Collect(es.rest, cursor), new_, |cursor|);
      InOrderConcat([], first, Collect(es.rest, cursor), new_, |cursor|);
    }
  }

  lemma CollectEntryOrder(i: Inode, new_: Entries, here: Path)
    ensures InOrder([], CollectEntry(i, here), new_, |here| - 1)
    decreases i
  {
    var inner := if i.Directory? then Collect(i.entries, here) else [];
    if i.Directory? {
      CollectOrder(i.entries, new_, here);
      CollectShape(i.entries, here);
    }
    InOrderHeaded([], inner, new_, here);
  }

  ghost predicate ChangesInOrder(c: Changes, new_: Entries, base: int) {
    InOrder([], c.added, new_, base) && InOrder(c.added, c.modified, new_, base)
  }

  lemma PlusInOrder(a: Changes, b: Changes, new_: Entries, base: int)
    requires ChangesInOrder(a, new_, base) && ChangesInOrder(b, new_, base)
    ensures ChangesInOrder(Plus(a, b), new_, base)
  {
    var both := a.added + b.added;
    InOrderMore([], [] + a.added, b.added, new_, base);
    InOrderConcat([], a.added, b.added, new_, base);
    InOrderMore(a.added, both, a.modified, new_, base);
    InOrderMore(b.added, both + a.modified, b.modified, new_, base);
    InOrderConcat(both, a.modified, b.modified, new_, base);
  }

  /** Inserting the directory in front of what was found below it is what keeps the order. */
  lemma EncloseInOrder(below: Changes, i: Inode, new_: Entries, here: Path)
    requires ChangesInOrder(below, new_, |here|)
    requires forall q :: q in below.added ==> Within(q, here)
    requires forall q :: q in below.modified ==> Within(q, here)
    ensures ChangesInOrder(Enclose(below, i, new_, here), new_, |here| - 1)
  {
    GetDirectoryMeaning(new_, here);
    var e := Enclose(below, i, new_, here);
    if GetDirectory(new_, here).Found? {
      assert [] + below.added == below.added && [] + below.modified == below.modified;
      InOrderDown([], below.added, new_, here);
      InOrderDown(below.added, below.modified, new_, here);
    } else if below.added != [] {
      InOrderHeaded([], below.added, new_, here);
      InOrderMore(below.added, e.added, below.modified, new_, |here|);
      InOrderDown(e.added, below.modified, new_, here);
    } else if below.modified != [] {
      InOrderHeaded([], below.modified, new_, here);
    }
  }

  lemma DirModsInOrder(oldStat: Stat, i: Inode, below: Changes, new_: Entries, here: Path)
    requires ChangesInOrder(below, new_, |here|)
    requires forall q :: q in below.added ==> Within(q, here)
    requires forall q :: q in below.modified ==> Within(q, here)
    ensures ChangesInOrder(DirMods(oldStat, i, below, new_, here), new_, |here| - 1)
  {
    var own := if StatEqIgnoreMtime(i.stat, oldStat) then [] else [here];
    EncloseInOrder(below, i, new_, here);
    PlusInOrder(Changes([], own, []), Enclose(below, i, new_, here), new_, |here| - 1);
  }

  lemma EntryInOrder(o: Option<Inode>, i: Inode, new_: Entries, here: Path)
    ensures ChangesInOrder(EntryMods(o, i, new_, here), new_, |here| - 1)
    decreases i
  {
    if DirPair(o, i) {
      ModsInOrder(o.value.entries, i.entries, new_, here);
      ModsShape(o.value.entries, i.entries, new_, here);
      DirModsInOrder(o.value.stat, i, Mods(o.value.entries, i.entries, new_, here), new_, here);
    } else if i.Directory? && o.None? {
      CollectEntryOrder(i, new_, here);
    }
  }

  lemma {:induction false} ModsInOrder(pristine: Entries, current: Entries, new_: Entries, cursor: Path)
    ensures ChangesInOrder(Mods(pristine, current, new_, cursor), new_, |cursor|)
    decreases current
  {
    if current.Cons? {
      var n := current.name;
      EntryInOrder(Lookup(pristine, n), current.inode, new_, cursor + [n]);
      ModsInOrder(pristine, current.rest, new_, cursor);
      PlusInOrder(EntryMods(Lookup(pristine, n), current.inode, new_, cursor + [n]),
                  Mods(pristine, current.rest, new_, cursor), new_, |cursor|);
    }
  }

  /** Ancestor ordering of a whole diff: for every occurrence of a path in `added` followed by
      `modified` and every proper ancestor of it, either new has that ancestor as a directory
      or the ancestor occurs strictly earlier. */
  lemma AncestorsComeFirst(pristine: Entries, current: Entries, new_: Entries, i: nat, k: nat)
    requires var c := Mods(pristine, current, new_, []); i < |c.added + c.modified| && 0 < k < |(c.added + c.modified)[i]|
    ensures var c := Mods(pristine, current, new_, []);
            var list := c.added + c.modified;
            IsDirAt(new_, list[i][..k]) || exists j :: 0 <= j < i && list[j] == list[i][..k]
  {
    var c := Mods(pristine, current, new_, []);
    var list := c.added + c.modified;
    ModsInOrder(pristine, current, new_, []);
    assert [] + c.added == c.added;
    InOrderConcat([], c.added, c.modified, new_, 0);
    assert AncestorReady([], list, new_, i, k);
    if list[i][..k] in list[..i] {
      var j :| 0 <= j < i && list[..i][j] == list[i][..k];
      assert list[j] == list[i][..k];
    }
  }
}
