/** Block devices: walking up to the disks that back a device, and finding the EFI system
    partition of a disk. A device listed with its parents carries them in `children`. */
module BlockDev {
  import opened Common

  datatype Device = Device(name: string, path: Option<string>, parttype: Option<string>, pttype: Option<string>,
                           children: Children)

  /** A device may come without a list of children, which differs from an empty list. */
  datatype Children = Unlisted | Listed(devices: seq<Device>)

  function DevPath(d: Device): string {
    if d.path.Some? then d.path.value else "/dev/" + d.name
  }

  // -- Root devices.

  predicate Childless(d: Device) {
    d.children.Unlisted? || d.children.devices == []
  }

  ghost function Size(d: Device): nat
    decreases d
  {
    1 + if d.children.Unlisted? then 0 else SizeAll(d.children.devices)
  }

  ghost function SizeAll(ds: seq<Device>): nat
    decreases ds
  {
    if ds == [] then 0 else SizeAll(ds[..|ds| - 1]) + Size(ds[|ds| - 1])
  }

  lemma SizeAllConcat(a: seq<Device>, b: seq<Device>)
    ensures SizeAll(a + b) == SizeAll(a) + SizeAll(b)
    decreases |b|
  {
    if b == [] {
      assert a + b == a;
    } else {
      assert (a + b)[..|a + b| - 1] == a + b[..|b| - 1];
      SizeAllConcat(a, b[..|b| - 1]);
    }
  }

  /** The childless nodes below a device, the last child's first. */
  function LeavesOf(d: Device): seq<Device>
    decreases d
  {
    if Childless(d) then [d] else Leaves(d.children.devices)
  }

  function Leaves(ds: seq<Device>): seq<Device>
    decreases ds
  {
    if ds == [] then [] else LeavesOf(ds[|ds| - 1]) + Leaves(ds[..|ds| - 1])
  }

  lemma LeavesConcat(a: seq<Device>, b: seq<Device>)
    ensures Leaves(a + b) == Leaves(b) + Leaves(a)
    decreases |b|
  {
    if b == [] {
      assert a + b == a;
    } else {
      assert (a + b)[..|a + b| - 1] == a + b[..|b| - 1];
      LeavesConcat(a, b[..|b| - 1]);
      assert LeavesOf(b[|b| - 1]) + (Leaves(b[..|b| - 1]) + Leaves(a)) ==
             (LeavesOf(b[|b| - 1]) + Leaves(b[..|b| - 1])) + Leaves(a);
    }
  }

  /** `x` is `d` or lies below it. */
  ghost predicate Within(d: Device, x: Device)
    decreases d
  {
    x == d || (d.children.Listed? && WithinAny(d.children.devices, x))
  }

  ghost predicate WithinAny(ds: seq<Device>, x: Device)
    decreases ds
  {
    ds != [] && (Within(ds[|ds| - 1], x) || WithinAny(ds[..|ds| - 1], x))
  }

  /** Nothing but the device itself lies in it. */
  ghost predicate NothingBelow(d: Device) {
    forall x :: Within(d, x) ==> x == d
  }

  lemma ChildlessIff(d: Device)
    ensures Childless(d) <==> NothingBelow(d)
  {
    if !Childless(d) {
      var ds := d.children.devices;
      var last := ds[|ds| - 1];
      assert Within(last, last) && WithinAny(ds, last) && Within(d, last);
      assert Size(last) < Size(d);
      assert last != d && !NothingBelow(d);
    } else {
      forall x | Within(d, x) ensures x == d {
        if d.children.Listed? {
          assert d.children.devices == [] && !WithinAny([], x);
        }
      }
    }
  }

  /** The walk lists exactly the nodes of the forest with nothing below them. */
  lemma LeavesMeaning(ds: seq<Device>, x: Device)
    ensures x in Leaves(ds) <==> WithinAny(ds, x) && NothingBelow(x)
  {
    LeavesExact(ds, x);
    ChildlessIff(x);
  }

  /** The walk lists exactly the childless nodes of the forest. */
  lemma {:induction false} LeavesExact(ds: seq<Device>, x: Device)
    ensures x in Leaves(ds) <==> WithinAny(ds, x) && Childless(x)
    decreases ds
  {
    if ds != [] {
      LeavesExact(ds[..|ds| - 1], x);
      LeavesOfExact(ds[|ds| - 1], x);
    }
  }

  lemma {:induction false} LeavesOfExact(d: Device, x: Device)
    ensures x in LeavesOf(d) <==> Within(d, x) && Childless(x)
    decreases d
  {
    if !Childless(d) {
      LeavesExact(d.children.devices, x);
    }
  }

  ghost function Names(ds: seq<Device>): set<string> {
    set d | d in ds :: d.name
  }

  /** The first `n` devices without those whose name occurred before. */
  ghost function FirstByName(ds: seq<Device>, n: nat): seq<Device>
    requires n <= |ds|
  {
    if n == 0 then []
    else FirstByName(ds, n - 1) + if ds[n - 1].name in Names(ds[..n - 1]) then [] else [ds[n - 1]]
  }

  lemma {:induction false} FirstByNamePrefix(a: seq<Device>, b: seq<Device>, n: nat)
    requires n <= |a|
    ensures FirstByName(a + b, n) == FirstByName(a, n)
    decreases n
  {
    if n > 0 {
      FirstByNamePrefix(a, b, n - 1);
      assert (a + b)[..n - 1] == a[..n - 1];
    }
  }

  /** One device per name, and every name. */
  lemma {:induction false} FirstByNameExact(ds: seq<Device>, n: nat)
    requires n <= |ds|
    ensures Names(FirstByName(ds, n)) == Names(ds[..n])
    ensures forall i, j :: 0 <= i < j < |FirstByName(ds, n)| ==> FirstByName(ds, n)[i].name != FirstByName(ds, n)[j].name
    ensures forall d :: d in FirstByName(ds, n) ==> d in ds[..n]
    decreases n
  {
    if n > 0 {
      FirstByNameExact(ds, n - 1);
      var kept, d := FirstByName(ds, n - 1), ds[n - 1];
      assert ds[..n] == ds[..n - 1] + [d];
      assert Names(ds[..n]) == Names(ds[..n - 1]) + {d.name};
      assert Names(kept + [d]) == Names(kept) + {d.name};
      if d.name !in Names(ds[..n - 1]) {
        forall i | 0 <= i < |kept| ensures kept[i].name != d.name {
          assert kept[i] in kept && kept[i].name in Names(kept);
        }
      }
    }
  }

  /** Of several devices with one name it is the first that is kept, and the kept ones stay in
      their order. */
  lemma {:induction false} FirstByNamePicks(ds: seq<Device>, n: nat, i: nat) returns (k: nat)
    requires n <= |ds| && i < |FirstByName(ds, n)|
    ensures k < n && ds[k] == FirstByName(ds, n)[i] && FirstByName(ds, k) == FirstByName(ds, n)[..i]
    ensures forall j :: 0 <= j < k ==> ds[j].name != ds[k].name
    decreases n
  {
    var kept := FirstByName(ds, n - 1);
    if i < |kept| {
      k := FirstByNamePicks(ds, n - 1, i);
      assert FirstByName(ds, n)[..i] == kept[..i];
    } else {
      k := n - 1;
      assert FirstByName(ds, n) == kept + [ds[k]];
      forall j | 0 <= j < k ensures ds[j].name != ds[k].name {
        assert ds[..k][j] in ds[..k];
      }
    }
  }

  /** Re-querying each device; the whole fails if one query fails. */
  ghost predicate AllFound(ds: seq<Device>, listDev: string -> Option<Device>) {
    forall i :: 0 <= i < |ds| ==> listDev(DevPath(ds[i])).Some?
  }

  ghost function Requery(ds: seq<Device>, listDev: string -> Option<Device>): seq<Device>
    requires AllFound(ds, listDev)
  {
    seq(|ds|, i requires 0 <= i < |ds| => listDev(DevPath(ds[i])).value)
  }

  ghost function RootLeaves(parents: seq<Device>): seq<Device> {
    FirstByName(Leaves(parents), |Leaves(parents)|)
  }

  /** What the walk has once it went through the childless nodes `done`. */
  ghost predicate Progress(roots: seq<Device>, seen: set<string>, done: seq<Device>, listDev: string -> Option<Device>) {
    var kept := FirstByName(done, |done|);
    seen == Names(done) && AllFound(kept, listDev) && roots == Requery(kept, listDev)
  }

  /** A childless node: it is queried again unless its name was met before. */
  method VisitLeaf(device: Device, roots0: seq<Device>, seen0: set<string>, listDev: string -> Option<Device>,
                   ghost done: seq<Device>)
    returns (ok: bool, roots: seq<Device>, seen: set<string>)
    requires Progress(roots0, seen0, done, listDev)
    ensures ok ==> Progress(roots, seen, done + [device], listDev)
    ensures !ok ==> device.name !in Names(done) && listDev(DevPath(device)).None?
  {
    ok, roots, seen := true, roots0, seen0;
    KeptSnoc(done, device);
    if device.name !in seen {
      seen := seen + {device.name};
      var found := listDev(DevPath(device));
      if found.None? { return false, roots, seen; }
      roots := roots + [found.value];
    }
  }

  /** Taking the last device off the queue: it is a leaf, or its children take its place. */
  lemma PopStep(queue: seq<Device>)
    requires queue != []
    ensures var d, rest := queue[|queue| - 1], queue[..|queue| - 1];
            if Childless(d) then Leaves(queue) == [d] + Leaves(rest) && SizeAll(rest) < SizeAll(queue)
            else Leaves(rest + d.children.devices) == Leaves(queue) && SizeAll(rest + d.children.devices) < SizeAll(queue)
  {
    var d, rest := queue[|queue| - 1], queue[..|queue| - 1];
    if !Childless(d) {
      SizeAllConcat(rest, d.children.devices);
      LeavesConcat(rest, d.children.devices);
    }
  }

  lemma Shift<T>(done: seq<T>, x: T, rest: seq<T>)
    ensures done + ([x] + rest) == done + [x] + rest
  {
  }

  /** The worklist: it ends, and answers with one re-queried device per distinct name of a
      childless node of the parent forest, in the order in which the names are first met going
      from the last parent to the first. It fails exactly if one of these queries fails. */
  method WalkToRoots(parents: seq<Device>, listDev: string -> Option<Device>) returns (r: Option<seq<Device>>)
    ensures r.Some? <==> AllFound(RootLeaves(parents), listDev)
    ensures r.Some? ==> r.value == Requery(RootLeaves(parents), listDev)
  {
    var ok, roots: seq<Device>, seen: set<string>, queue := true, [], {}, parents;
    ghost var done: seq<Device> := [];
    while queue != []
      invariant done + Leaves(queue) == Leaves(parents)
      invariant Progress(roots, seen, done, listDev)
      decreases SizeAll(queue)
    {
      var device := queue[|queue| - 1];
      PopStep(queue);
      queue := queue[..|queue| - 1];
      if device.children.Listed? && device.children.devices != [] {
        queue := queue + device.children.devices;
      } else {
        Shift(done, device, Leaves(queue));
        ok, roots, seen := VisitLeaf(device, roots, seen, listDev, done);
        if !ok {
          FailsLater(done, device, Leaves(queue), listDev);
          return None;
        }
        done := done + [device];
      }
    }
    assert done == Leaves(parents);
    r := Some(roots);
  }

  lemma KeptSnoc(done: seq<Device>, d: Device)
    ensures Names(done + [d]) == Names(done) + {d.name}
    ensures FirstByName(done + [d], |done| + 1) ==
            FirstByName(done, |done|) + if d.name in Names(done) then [] else [d]
  {
    var all := done + [d];
    FirstByNamePrefix(done, [d], |done|);
    assert FirstByName(all, |done|) == FirstByName(done, |done|);
    assert all[..|done|] == done;
    assert all[|done|] == d;
    assert d.name in Names(all[..|done|]) <==> d.name in Names(done);
    NamesSnoc(done, d);
  }

  lemma NamesSnoc(done: seq<Device>, d: Device)
    ensures Names(done + [d]) == Names(done) + {d.name}
  {
    var all := done + [d];
    forall x ensures x in Names(all) <==> x in Names(done) || x == d.name {
      assert all[|done|] == d;
      assert forall e :: e in all <==> e in done || e == d;
    }
  }

  lemma FailsLater(done: seq<Device>, d: Device, rest: seq<Device>, listDev: string -> Option<Device>)
    requires d.name !in Names(done) && listDev(DevPath(d)).None?
    ensures var all := done + [d] + rest; !AllFound(FirstByName(all, |all|), listDev)
  {
    var all := done + [d] + rest;
    FirstByNamePrefix(done + [d], rest, |done| + 1);
    assert (done + [d])[..|done|] == done;
    var kept := FirstByName(all, |done| + 1);
    assert kept[|kept| - 1] == d;
    FirstByNameGrows(all, |done| + 1, |all|);
  }

  lemma {:induction false} FirstByNameGrows(ds: seq<Device>, m: nat, n: nat)
    requires m <= n <= |ds|
    ensures FirstByName(ds, m) <= FirstByName(ds, n)
    decreases n
  {
    if m < n {
      FirstByNameGrows(ds, m, n - 1);
    }
  }

  /** `parents` is none for a device that is itself a root. */
  method FindAllRoots(self: Device, parents: Option<seq<Device>>, listDev: string -> Option<Device>)
    returns (r: Option<seq<Device>>)
    ensures parents.None? ==> r == (match listDev(DevPath(self)) case None => None case Some(d) => Some([d]))
    ensures parents.Some? ==> (r.Some? <==> AllFound(RootLeaves(parents.value), listDev))
    ensures parents.Some? && r.Some? ==> r.value == Requery(RootLeaves(parents.value), listDev)
  {
    if parents.None? {
      var d := listDev(DevPath(self));
      return if d.None? then None else Some([d.value]);
    }
    r := WalkToRoots(parents.value, listDev);
  }

  /** A device of the answer is the one listed at the path of a node, or under /dev by its name. */
  lemma RequeriedAt(ds: seq<Device>, listDev: string -> Option<Device>, i: nat)
    requires AllFound(ds, listDev) && i < |ds|
    ensures Some(Requery(ds, listDev)[i]) ==
            if ds[i].path.Some? then listDev(ds[i].path.value) else listDev("/dev/" + ds[i].name)
  {
  }

  /** The names behind the answer are exactly the names of the nodes with nothing below them, each
      once. */
  lemma RootsByName(parents: seq<Device>, x: string)
    ensures x in Names(RootLeaves(parents)) <==> exists d :: WithinAny(parents, d) && NothingBelow(d) && d.name == x
    ensures forall i, j :: 0 <= i < j < |RootLeaves(parents)| ==> RootLeaves(parents)[i].name != RootLeaves(parents)[j].name
  {
    var leaves := Leaves(parents);
    FirstByNameExact(leaves, |leaves|);
    assert leaves[..|leaves|] == leaves;
    if x in Names(leaves) {
      var d :| d in leaves && d.name == x;
      LeavesMeaning(parents, d);
    }
    if d :| WithinAny(parents, d) && NothingBelow(d) && d.name == x {
      LeavesMeaning(parents, d);
    }
  }
}
