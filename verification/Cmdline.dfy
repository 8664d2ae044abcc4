/** Kernel command lines as sequences of arguments, with the two operations used on them.
    `remove_exact` drops every argument equal to the given one. `add` appends; it may or may
    not skip an argument that is already there, and everything here holds for both. */
module Cmdline {
  import opened Common

  type Arg = string
  type Line = seq<Arg>

  datatype AddPolicy = Append | AppendIfAbsent

  function RemoveExact(line: Line, a: Arg): Line {
    if line == [] then []
    else (if line[0] == a then [] else [line[0]]) + RemoveExact(line[1..], a)
  }

  function Add(policy: AddPolicy, line: Line, a: Arg): Line {
    if policy.AppendIfAbsent? && a in line then line else line + [a]
  }

  /** The arguments of `line` that are not in `drop`, in order. */
  function Without(line: Line, drop: set<Arg>): Line {
    if line == [] then []
    else (if line[0] in drop then [] else [line[0]]) + Without(line[1..], drop)
  }

  function AddAll(policy: AddPolicy, line: Line, args: Line): Line
    decreases |args|
  {
    if args == [] then line else AddAll(policy, Add(policy, line, args[0]), args[1..])
  }

  function ToSet(line: Line): set<Arg> {
    set a | a in line
  }

  ghost predicate NoDuplicates(line: Line) {
    forall i, j :: 0 <= i < j < |line| ==> line[i] != line[j]
  }

  lemma CountSplit(line: Line, a: Arg)
    requires line != []
    ensures Count(line, a) == (if line[0] == a then 1 else 0) + Count(line[1..], a)
    ensures Count(line, a) > 0 <==> a in line
  {
    assert line == [line[0]] + line[1..];
  }

  lemma {:induction false} CountNoDuplicates(line: Line, a: Arg)
    requires NoDuplicates(line)
    ensures Count(line, a) == if a in line then 1 else 0
    decreases |line|
  {
    if line != [] {
      CountSplit(line, a);
      CountNoDuplicates(line[1..], a);
      CountIn(line[1..], a);
    }
  }

  lemma {:induction false} WithoutCount(line: Line, drop: set<Arg>, a: Arg)
    ensures Count(Without(line, drop), a) == if a in drop then 0 else Count(line, a)
    decreases |line|
  {
    if line != [] {
      CountSplit(line, a);
      WithoutCount(line[1..], drop, a);
      CountConcat(if line[0] in drop then [] else [line[0]], Without(line[1..], drop), a);
      assert multiset([line[0]])[a] == if line[0] == a then 1 else 0;
    }
  }

  lemma WithoutIn(line: Line, drop: set<Arg>, a: Arg)
    ensures a in Without(line, drop) <==> a in line && a !in drop
  {
    WithoutCount(line, drop, a);
    CountIn(line, a);
    CountIn(Without(line, drop), a);
  }

  /** Removing the arguments of a list one by one is removing them all. */
  lemma {:induction false} RemoveExactIsWithout(line: Line, a: Arg, drop: set<Arg>)
    ensures RemoveExact(Without(line, drop), a) == Without(line, drop + {a})
    decreases |line|
  {
    if line != [] {
      RemoveExactIsWithout(line[1..], a, drop);
      var rest := Without(line[1..], drop);
      if line[0] !in drop {
        assert ([line[0]] + rest)[1..] == rest;
      } else {
        assert [] + rest == rest;
      }
    }
  }

  lemma {:induction false} WithoutNothing(line: Line)
    ensures Without(line, {}) == line
    decreases |line|
  {
    if line != [] {
      WithoutNothing(line[1..]);
    }
  }

  lemma {:induction false} WithoutSame(line: Line, d: set<Arg>, e: set<Arg>)
    requires forall a :: a in line ==> (a in d <==> a in e)
    ensures Without(line, d) == Without(line, e)
    decreases |line|
  {
    if line != [] {
      WithoutSame(line[1..], d, e);
    }
  }

  lemma {:induction false} WithoutConcat(x: Line, y: Line, d: set<Arg>)
    ensures Without(x + y, d) == Without(x, d) + Without(y, d)
    decreases |x|
  {
    if x == [] {
      assert x + y == y;
    } else {
      assert (x + y)[1..] == x[1..] + y;
      WithoutConcat(x[1..], y, d);
    }
  }

  lemma {:induction false} WithoutTwice(line: Line, d: set<Arg>, e: set<Arg>)
    ensures Without(Without(line, d), e) == Without(line, d + e)
    decreases |line|
  {
    if line != [] {
      WithoutTwice(line[1..], d, e);
      WithoutConcat(if line[0] in d then [] else [line[0]], Without(line[1..], d), e);
      assert Without([line[0]], e) == if line[0] in e then [] else [line[0]];
    }
  }

  /** What `AddAll` puts after the line. */
  lemma {:induction false} AddAllTail(policy: AddPolicy, line: Line, args: Line) returns (tail: Line)
    ensures AddAll(policy, line, args) == line + tail
    ensures forall a :: a in tail ==> a in args
    ensures forall a :: a in args ==> a in line + tail
    ensures (forall a :: a in args ==> a !in line) && NoDuplicates(args) ==> tail == args
    ensures policy.Append? ==> tail == args
    decreases |args|
  {
    if args == [] {
      tail := [];
      assert line + tail == line;
    } else {
      var one := Add(policy, line, args[0]);
      tail := AddAllTail(policy, one, args[1..]);
      assert args == [args[0]] + args[1..];
      if one != line {
        assert one + tail == line + ([args[0]] + tail);
        tail := [args[0]] + tail;
      }
    }
  }
}
