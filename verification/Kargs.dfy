/** Kernel arguments owned by the image: the difference between the arguments of two images is
    applied to a command line that a user may have edited. */
module Kargs {
  import opened Common
  import opened Cmdline

  method ComputeApplyKargsDiff(policy: AddPolicy, existing: Line, remote: Line, newKargs: Line) returns (out: Line)
    ensures out == Upgraded(policy, existing, remote, newKargs)
  {
    var added := Without(remote, ToSet(existing));
    var removed := Without(existing, ToSet(remote));
    out := newKargs;
    WithoutNothing(newKargs);
    assert ToSet(removed[..0]) == {};
    for i := 0 to |removed|
      invariant out == Without(newKargs, ToSet(removed[..i]))
    {
      RemoveExactIsWithout(newKargs, removed[i], ToSet(removed[..i]));
      assert ToSet(removed[..i + 1]) == ToSet(removed[..i]) + {removed[i]} by {
        assert removed[..i + 1] == removed[..i] + [removed[i]];
      }
      out := RemoveExact(out, removed[i]);
    }
    assert removed[..|removed|] == removed;
    ghost var start := out;
    assert added[0..] == added;
    for i := 0 to |added|
      invariant AddAll(policy, out, added[i..]) == AddAll(policy, start, added)
    {
      assert added[i..][0] == added[i] && added[i..][1..] == added[i + 1..];
      out := Add(policy, out, added[i]);
    }
    assert added[|added|..] == [];
  }

  /** The command line after an upgrade from the image with `existing` to the one with `remote`. */
  function Upgraded(policy: AddPolicy, existing: Line, remote: Line, line: Line): Line {
    AddAll(policy, Without(line, ToSet(Without(existing, ToSet(remote)))), Without(remote, ToSet(existing)))
  }

  /** The arguments of an image, which may have no kargs.d directory. */
  function Args(image: Option<Line>): Line {
    if image.Some? then image.value else []
  }

  /** The command line for a new image. One without a kargs.d directory takes nothing away: the
      old image's arguments are added once more. */
  function NewKargs(policy: AddPolicy, existing: Line, remote: Option<Line>, line: Line): Line {
    if remote.None? then AddAll(policy, line, existing) else Upgraded(policy, existing, remote.value, line)
  }

  method GetKargs(policy: AddPolicy, options: Line, existing: Line, remote: Option<Line>) returns (kargs: Line)
    ensures kargs == NewKargs(policy, existing, remote, options)
  {
    if remote.None? {
      return AddAll(policy, options, existing);
    }
    kargs := ComputeApplyKargsDiff(policy, existing, remote.value, options);
  }

  /** Nothing to take away: then a missing directory is as good as an empty one. */
  lemma MissingAsEmpty(policy: AddPolicy, line: Line)
    ensures NewKargs(policy, [], None, line) == line == Upgraded(policy, [], [], line)
  {
    assert ToSet(Without([], ToSet([]))) == {};
    WithoutNothing(line);
  }

  lemma {:induction false} AddAllCount(policy: AddPolicy, line: Line, args: Line, a: Arg)
    ensures Count(AddAll(policy, line, args), a) ==
            Count(line, a) + if policy.Append? then Count(args, a) else if a in args && a !in line then 1 else 0
    decreases |args|
  {
    if args != [] {
      var one := Add(policy, line, args[0]);
      AddAllCount(policy, one, args[1..], a);
      assert args == [args[0]] + args[1..];
      CountConcat([args[0]], args[1..], a);
      CountConcat(line, [args[0]], a);
      CountIn(line, a);
    }
  }

  /** An image without a kargs.d directory: nothing leaves the line, and the old image's arguments
      come to it once more, or where they were missing, as adding does it. */
  lemma MissingDirectoryLine(policy: AddPolicy, existing: Line, line: Line, a: Arg)
    ensures line <= NewKargs(policy, existing, None, line)
    ensures Count(NewKargs(policy, existing, None, line), a) ==
            Count(line, a) + if policy.Append? then Count(existing, a) else if a in existing && a !in line then 1 else 0
  {
    var tail := AddAllTail(policy, line, existing);
    AddAllCount(policy, line, existing, a);
  }

  /** An upgrade to an image without a kargs.d directory leaves exactly the user's arguments if
      and only if the old image had none. */
  lemma MissingDirectoryIff(policy: AddPolicy, existing: Line, line: Line, user: Line)
    requires Holds(line, existing, user)
    ensures Holds(NewKargs(policy, existing, None, line), Args(None), user) <==> existing == []
  {
    if existing == [] {
      MissingAsEmpty(policy, line);
    } else {
      var a := existing[0];
      var tail := AddAllTail(policy, line, existing);
      CountConcat(line, tail, a);
      CountIn(existing, a);
      assert Count(line + tail, a) >= Count(line, a) > Count(user, a);
      assert Count(Args(None), a) == 0;
    }
  }

  lemma UpgradedShape(policy: AddPolicy, existing: Line, remote: Line, line: Line) returns (tail: Line)
    ensures Upgraded(policy, existing, remote, line) == Without(line, ToSet(existing) - ToSet(remote)) + tail
    ensures forall a :: a in tail ==> a in remote && a !in existing
    ensures forall a :: a in remote && a !in existing ==> a in Without(line, ToSet(existing) - ToSet(remote)) + tail
    ensures (forall a :: a in remote && a !in existing ==> a !in line) && NoDuplicates(remote)
            ==> tail == Without(remote, ToSet(existing))
  {
    var gone, added := Without(existing, ToSet(remote)), Without(remote, ToSet(existing));
    forall a
      ensures a in gone <==> a in existing && a !in remote
      ensures a in added <==> a in remote && a !in existing
      ensures a in Without(line, ToSet(gone)) <==> a in line && a !in gone
    {
      WithoutIn(existing, ToSet(remote), a);
      WithoutIn(remote, ToSet(existing), a);
      WithoutIn(line, ToSet(gone), a);
    }
    assert ToSet(gone) == ToSet(existing) - ToSet(remote);
    tail := AddAllTail(policy, Without(line, ToSet(gone)), added);
    if NoDuplicates(remote) {
      WithoutNoDuplicates(remote, ToSet(existing));
    }
  }

  lemma {:induction false} WithoutNoDuplicates(line: Line, d: set<Arg>)
    requires NoDuplicates(line)
    ensures NoDuplicates(Without(line, d))
    decreases |line|
  {
    if line != [] {
      WithoutNoDuplicates(line[1..], d);
      WithoutIn(line[1..], d, line[0]);
      var rest := Without(line[1..], d);
      assert line[0] !in rest;
      assert [] + rest == rest;
    }
  }

  /** On any line, one upgrade drops what only the old image has, leaves alone what both or
      neither image has, and makes sure of what only the new image has. */
  lemma UpgradeOnAnyLine(policy: AddPolicy, existing: Line, remote: Line, line: Line, a: Arg)
    ensures var after := Upgraded(policy, existing, remote, line);
            && (a in existing && a !in remote ==> a !in after)
            && ((a in existing <==> a in remote) ==> Count(after, a) == Count(line, a))
            && (a !in existing && a in remote ==> a in after)
  {
    var tail := UpgradedShape(policy, existing, remote, line);
    var gone := ToSet(existing) - ToSet(remote);
    WithoutCount(line, gone, a);
    CountConcat(Without(line, gone), tail, a);
    CountIn(tail, a);
    CountIn(Upgraded(policy, existing, remote, line), a);
  }

  ghost predicate Disjoint(x: Line, y: Line) {
    forall a :: a in x ==> a !in y
  }

  /** `line` holds exactly the image's arguments and the user's, the user's in their order. */
  ghost predicate Holds(line: Line, image: Line, user: Line) {
    && (forall a :: Count(line, a) == Count(image, a) + Count(user, a))
    && Without(line, ToSet(image)) == user
  }

  lemma UpgradeKeepsHolding(policy: AddPolicy, existing: Line, remote: Line, line: Line, user: Line)
    requires NoDuplicates(existing) && NoDuplicates(remote)
    requires Disjoint(user, existing) && Disjoint(user, remote)
    requires Holds(line, existing, user)
    ensures Holds(Upgraded(policy, existing, remote, line), remote, user)
  {
    forall a
      ensures a in line <==> a in existing || a in user
    {
      CountIn(line, a);
      CountIn(existing, a);
      CountIn(user, a);
    }
    var tail := UpgradedShape(policy, existing, remote, line);
    var gone, after := ToSet(existing) - ToSet(remote), Upgraded(policy, existing, remote, line);
    forall a ensures Count(after, a) == Count(remote, a) + Count(user, a) {
      CountConcat(Without(line, gone), tail, a);
      WithoutCount(line, gone, a);
      WithoutCount(remote, ToSet(existing), a);
      CountNoDuplicates(existing, a);
      CountNoDuplicates(remote, a);
      CountIn(user, a);
    }
    UserPart(existing, remote, line, user, tail);
  }

  lemma UserPart(existing: Line, remote: Line, line: Line, user: Line, tail: Line)
    requires Without(line, ToSet(existing)) == user
    requires Disjoint(user, remote)
    requires forall a :: a in tail ==> a in remote
    ensures Without(Without(line, ToSet(existing) - ToSet(remote)) + tail, ToSet(remote)) == user
  {
    var e, r := ToSet(existing), ToSet(remote);
    WithoutConcat(Without(line, e - r), tail, r);
    WithoutTwice(line, e - r, r);
    WithoutTwice(line, e, r);
    assert (e - r) + r == e + r;
    WithoutSame(user, r, {});
    WithoutNothing(user);
    if Without(tail, r) != [] {
      WithoutIn(tail, r, Without(tail, r)[0]);
    }
  }

  /** The line after a chain of upgrades through `images`, starting at its first. */
  function Chain(policy: AddPolicy, images: seq<Option<Line>>, line: Line): Line
    requires images != []
    decreases |images|
  {
    if |images| == 1 then line
    else Chain(policy, images[1..], NewKargs(policy, Args(images[0]), images[1], line))
  }

  /** No image without a kargs.d directory follows one that has arguments. */
  ghost predicate NoneStale(images: seq<Option<Line>>) {
    forall i :: 0 < i < |images| && images[i].None? ==> Args(images[i - 1]) == []
  }

  lemma NewKargsHold(policy: AddPolicy, existing: Line, remote: Option<Line>, line: Line, user: Line)
    requires NoDuplicates(existing) && NoDuplicates(Args(remote))
    requires Disjoint(user, existing) && Disjoint(user, Args(remote))
    requires Holds(line, existing, user) && (remote.None? ==> existing == [])
    ensures Holds(NewKargs(policy, existing, remote, line), Args(remote), user)
  {
    if remote.None? {
      MissingDirectoryIff(policy, existing, line, user);
    } else {
      UpgradeKeepsHolding(policy, existing, remote.value, line, user);
    }
  }

  /** Any chain of upgrades ends with exactly the last image's arguments and the user's. */
  lemma {:induction false} ChainKeepsUserArguments(policy: AddPolicy, images: seq<Option<Line>>, line: Line, user: Line)
    requires images != [] && NoneStale(images)
    requires forall i :: 0 <= i < |images| ==> NoDuplicates(Args(images[i])) && Disjoint(user, Args(images[i]))
    requires Holds(line, Args(images[0]), user)
    ensures Holds(Chain(policy, images, line), Args(images[|images| - 1]), user)
    decreases |images|
  {
    if |images| > 1 {
      var next, rest := NewKargs(policy, Args(images[0]), images[1], line), images[1..];
      NewKargsHold(policy, Args(images[0]), images[1], line, user);
      assert forall i :: 0 <= i < |rest| ==> rest[i] == images[i + 1];
      ChainKeepsUserArguments(policy, rest, next, user);
    }
  }

  /** Going to another image and back restores the arguments, whatever their order became. */
  lemma ThereAndBack(policy: AddPolicy, a: Line, b: Line, line: Line, user: Line)
    requires NoDuplicates(a) && NoDuplicates(b) && Disjoint(user, a) && Disjoint(user, b)
    requires Holds(line, a, user)
    ensures multiset(Upgraded(policy, b, a, Upgraded(policy, a, b, line))) == multiset(line)
    ensures Without(Upgraded(policy, b, a, Upgraded(policy, a, b, line)), ToSet(a)) == user
  {
    UpgradeKeepsHolding(policy, a, b, line, user);
    UpgradeKeepsHolding(policy, b, a, Upgraded(policy, a, b, line), user);
    var after := Upgraded(policy, b, a, Upgraded(policy, a, b, line));
    assert forall x :: Count(after, x) == Count(line, x);
    assert forall x :: multiset(after)[x] == multiset(line)[x] by {
      forall x ensures multiset(after)[x] == multiset(line)[x] { assert Count(after, x) == Count(line, x); }
    }
  }
}
