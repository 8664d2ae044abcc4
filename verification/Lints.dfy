/** Running the container lints: which ones apply, one walk of the filesystem shared by all
    recursive lints, and the totals. A lint is any function of the root or of a walked entry. */
module Lints {
  import opened Common

  datatype RootType = Running | Alternative

  datatype Lint = Lint(name: string, fatal: bool, rootType: Option<RootType>, recursive: bool)

  /** A lint passes, fails as a lint may, or breaks off with an unexpected error. */
  datatype Verdict = Pass | Violation(message: string) | RuntimeError(message: string)

  datatype Summary =
    | Totals(passed: nat, skipped: nat, warnings: nat, fatal: nat)
    | Aborted(lint: string, message: string)

  predicate Applies(l: Lint, rootType: RootType, skip: set<string>) {
    l.name !in skip && (l.rootType.Some? ==> l.rootType.value == rootType)
  }

  /** A recursive lint run by itself: its verdict on the first entry that it does not pass. */
  function RunAlone<E>(name: string, walk: seq<E>, check: (string, E) -> Verdict): Verdict {
    if walk == [] then Pass
    else
      var before := RunAlone(name, walk[..|walk| - 1], check);
      if before.Pass? then check(name, walk[|walk| - 1]) else before
  }

  function VerdictOf<E>(l: Lint, walk: seq<E>, regular: string -> Verdict, check: (string, E) -> Verdict): Verdict {
    if l.recursive then RunAlone(l.name, walk, check) else regular(l.name)
  }

  function Filter<T>(s: seq<T>, p: T -> bool): seq<T> {
    if s == [] then [] else (if p(s[0]) then [s[0]] else []) + Filter(s[1..], p)
  }

  function CountIf<T>(s: seq<T>, p: T -> bool): nat {
    if s == [] then 0 else (if p(s[0]) then 1 else 0) + CountIf(s[1..], p)
  }

  // -- Counting.

  lemma {:induction false} FilterMeaning<T>(s: seq<T>, p: T -> bool)
    ensures forall x :: x in Filter(s, p) <==> x in s && p(x)
    decreases |s|
  {
    if s != [] {
      FilterMeaning(s[1..], p);
      assert s == [s[0]] + s[1..];
    }
  }

  /** A partition loses nothing and invents nothing. */
  lemma {:induction false} FilterPartition<T>(s: seq<T>, p: T -> bool, q: T -> bool)
    requires forall x :: x in s ==> (q(x) <==> !p(x))
    ensures multiset(Filter(s, p)) + multiset(Filter(s, q)) == multiset(s)
    ensures |Filter(s, p)| + |Filter(s, q)| == |s|
    decreases |s|
  {
    if s != [] {
      assert s == [s[0]] + s[1..];
      FilterPartition(s[1..], p, q);
    }
  }

  lemma {:induction false} CountConcat<T>(a: seq<T>, b: seq<T>, p: T -> bool)
    ensures CountIf(a + b, p) == CountIf(a, p) + CountIf(b, p)
    decreases |a|
  {
    if a == [] {
      assert a + b == b;
    } else {
      assert (a + b)[1..] == a[1..] + b;
      CountConcat(a[1..], b, p);
    }
  }

  lemma WithoutIndex<T>(b: seq<T>, i: nat, p: T -> bool)
    requires i < |b|
    ensures var rest := b[..i] + b[i + 1..];
            && multiset(b) == multiset(rest) + multiset{b[i]}
            && CountIf(b, p) == CountIf(rest, p) + if p(b[i]) then 1 else 0
  {
    assert b == b[..i] + ([b[i]] + b[i + 1..]);
    CountConcat(b[..i], [b[i]] + b[i + 1..], p);
    CountConcat([b[i]], b[i + 1..], p);
    CountConcat(b[..i], b[i + 1..], p);
  }

  lemma CancelOne<T>(x: multiset<T>, y: multiset<T>, e: T)
    requires x + multiset{e} == y + multiset{e}
    ensures x == y
  {
    forall z ensures x[z] == y[z] {
      assert (x + multiset{e})[z] == (y + multiset{e})[z];
    }
  }

  lemma {:induction false} CountPermuted<T>(a: seq<T>, b: seq<T>, p: T -> bool)
    requires multiset(a) == multiset(b)
    ensures CountIf(a, p) == CountIf(b, p)
    decreases |a|
  {
    if a == [] {
      assert |multiset(a)| == |multiset(b)|;
    } else {
      WithoutIndex(a, 0, p);
      assert a[..0] + a[1..] == a[1..];
      assert a[0] in multiset(b);
      var i :| 0 <= i < |b| && b[i] == a[0];
      WithoutIndex(b, i, p);
      CancelOne(multiset(a[1..]), multiset(b[..i] + b[i + 1..]), a[0]);
      CountPermuted(a[1..], b[..i] + b[i + 1..], p);
    }
  }

  // -- The shared walk.

  /** Lints with the verdicts reached for them. */
  type Results = seq<(Lint, Verdict)>

  function LintsOf(rs: Results): seq<Lint> {
    if rs == [] then [] else [rs[0].0] + LintsOf(rs[1..])
  }

  lemma {:induction false} LintsOfConcat(a: Results, b: Results)
    ensures LintsOf(a + b) == LintsOf(a) + LintsOf(b)
    decreases |a|
  {
    if a == [] {
      assert a + b == b;
    } else {
      assert (a + b)[1..] == a[1..] + b;
      LintsOfConcat(a[1..], b);
    }
  }

  function PassesOn<E>(e: E, check: (string, E) -> Verdict): Lint -> bool {
    (l: Lint) => check(l.name, e).Pass?
  }

  function FailsOn<E>(e: E, check: (string, E) -> Verdict): Lint -> bool {
    (l: Lint) => !check(l.name, e).Pass?
  }

  /** The verdicts of the given lints on one entry that are not passes. */
  function Caught<E>(ls: seq<Lint>, e: E, check: (string, E) -> Verdict): Results {
    if ls == [] then []
    else (if check(ls[0].name, e).Pass? then [] else [(ls[0], check(ls[0].name, e))]) + Caught(ls[1..], e, check)
  }

  lemma {:induction false} CaughtMeaning<E>(ls: seq<Lint>, e: E, check: (string, E) -> Verdict)
    ensures LintsOf(Caught(ls, e, check)) == Filter(ls, FailsOn(e, check))
    ensures forall r :: r in Caught(ls, e, check) ==> r.0 in ls && r.1 == check(r.0.name, e) && !r.1.Pass?
    decreases |ls|
  {
    if ls != [] {
      CaughtMeaning(ls[1..], e, check);
      var head := if check(ls[0].name, e).Pass? then [] else [(ls[0], check(ls[0].name, e))];
      LintsOfConcat(head, Caught(ls[1..], e, check));
    }
  }

  /** What is known after part of the walk: who still runs has passed so far, who stopped has the
      verdict it would have alone. */
  ghost predicate Tracks<E>(running: seq<Lint>, stopped: Results, walk: seq<E>, check: (string, E) -> Verdict) {
    && (forall l :: l in running ==> RunAlone(l.name, walk, check).Pass?)
    && (forall r :: r in stopped ==> r.1 == RunAlone(r.0.name, walk, check) && !r.1.Pass?)
  }

  /** One walk for all recursive lints. Each lint stops at the first entry that it does not pass,
      so its verdict is the one it would have reached alone. */
  method WalkRecursive<E>(lints: seq<Lint>, walk: seq<E>, check: (string, E) -> Verdict)
    returns (running: seq<Lint>, stopped: Results)
    ensures multiset(lints) == multiset(LintsOf(stopped)) + multiset(running)
    ensures Tracks(running, stopped, walk, check)
  {
    running, stopped := lints, [];
    for i := 0 to |walk|
      invariant multiset(lints) == multiset(LintsOf(stopped)) + multiset(running)
      invariant Tracks(running, stopped, walk[..i], check)
    {
      assert walk[..i + 1][..i] == walk[..i];
      if running == [] {
        assert Tracks(running, stopped, walk[..i + 1], check);
        continue;
      }
      running, stopped := VisitEntry(running, stopped, walk[i], check, walk[..i]);
      assert walk[..i] + [walk[i]] == walk[..i + 1];
    }
    assert walk[..|walk|] == walk;
  }

  /** One entry of the walk: every running lint looks at it, and those that do not pass it stop. */
  method VisitEntry<E>(running0: seq<Lint>, stopped0: Results, e: E, check: (string, E) -> Verdict, ghost seen: seq<E>)
    returns (running: seq<Lint>, stopped: Results)
    requires Tracks(running0, stopped0, seen, check)
    ensures multiset(LintsOf(stopped)) + multiset(running) == multiset(LintsOf(stopped0)) + multiset(running0)
    ensures Tracks(running, stopped, seen + [e], check)
  {
    var caught := CatchErrors(running0, e, check);
    running := Filter(running0, PassesOn(e, check));
    stopped := stopped0 + caught;
    VisitKeeps(running0, stopped0, e, check, seen);
  }

  method CatchErrors<E>(running: seq<Lint>, e: E, check: (string, E) -> Verdict) returns (caught: Results)
    ensures caught == Caught(running, e, check)
  {
    caught := [];
    assert running[0..] == running;
    for j := 0 to |running|
      invariant caught + Caught(running[j..], e, check) == Caught(running, e, check)
    {
      assert running[j..][0] == running[j] && running[j..][1..] == running[j + 1..];
      ghost var before, later := caught, Caught(running[j + 1..], e, check);
      var v := check(running[j].name, e);
      ghost var gain: Results := if v.Pass? then [] else [(running[j], v)];
      assert Caught(running[j..], e, check) == gain + later;
      if !v.Pass? { caught := caught + [(running[j], v)]; }
      assert caught == before + gain && (before + gain) + later == before + (gain + later);
    }
    assert running[|running|..] == [];
  }

  lemma VisitKeeps<E>(running: seq<Lint>, stopped: Results, e: E, check: (string, E) -> Verdict, seen: seq<E>)
    requires Tracks(running, stopped, seen, check)
    ensures var still, caught := Filter(running, PassesOn(e, check)), Caught(running, e, check);
            && multiset(LintsOf(stopped + caught)) + multiset(still) == multiset(LintsOf(stopped)) + multiset(running)
            && Tracks(still, stopped + caught, seen + [e], check)
  {
    CaughtMeaning(running, e, check);
    FilterPartition(running, PassesOn(e, check), FailsOn(e, check));
    LintsOfConcat(stopped, Caught(running, e, check));
    VisitTracks(running, stopped, e, check, seen);
  }

  lemma AloneSnoc<E>(name: string, seen: seq<E>, e: E, check: (string, E) -> Verdict)
    ensures RunAlone(name, seen + [e], check) ==
            var before := RunAlone(name, seen, check); if before.Pass? then check(name, e) else before
  {
    assert (seen + [e])[..|seen|] == seen;
  }

  lemma VisitTracks<E>(running: seq<Lint>, stopped: Results, e: E, check: (string, E) -> Verdict, seen: seq<E>)
    requires Tracks(running, stopped, seen, check)
    ensures Tracks(Filter(running, PassesOn(e, check)), stopped + Caught(running, e, check), seen + [e], check)
  {
    FilterMeaning(running, PassesOn(e, check));
    CaughtMeaning(running, e, check);
    forall l | l in Filter(running, PassesOn(e, check)) ensures RunAlone(l.name, seen + [e], check).Pass? {
      AloneSnoc(l.name, seen, e, check);
    }
    forall r | r in stopped + Caught(running, e, check)
      ensures r.1 == RunAlone(r.0.name, seen + [e], check) && !r.1.Pass?
    {
      AloneSnoc(r.0.name, seen, e, check);
    }
  }

  // -- The whole run.

  /** What every lint is judged by. */
  datatype Setup<!E> = Setup(walk: seq<E>, regular: string -> Verdict, check: (string, E) -> Verdict)

  function Judge<E>(s: Setup<E>, l: Lint): Verdict {
    VerdictOf(l, s.walk, s.regular, s.check)
  }

  function Passed<E>(s: Setup<E>): Lint -> bool { (l: Lint) => Judge(s, l).Pass? }
  function Warned<E>(s: Setup<E>): Lint -> bool { (l: Lint) => Judge(s, l).Violation? && !l.fatal }
  function Failed<E>(s: Setup<E>): Lint -> bool { (l: Lint) => Judge(s, l).Violation? && l.fatal }

  /** A recursive lint run by itself passes exactly if it passes every entry; otherwise its verdict
      is that on the first entry that it does not pass. */
  lemma {:induction false} RunAloneMeaning<E>(name: string, walk: seq<E>, check: (string, E) -> Verdict)
    ensures RunAlone(name, walk, check).Pass? <==> forall i :: 0 <= i < |walk| ==> check(name, walk[i]).Pass?
    ensures !RunAlone(name, walk, check).Pass? ==>
            exists k :: 0 <= k < |walk| && RunAlone(name, walk, check) == check(name, walk[k]) &&
                        forall i :: 0 <= i < k ==> check(name, walk[i]).Pass?
    decreases |walk|
  {
    if walk != [] {
      var init := walk[..|walk| - 1];
      RunAloneMeaning(name, init, check);
      assert forall i :: 0 <= i < |init| ==> init[i] == walk[i];
      if RunAlone(name, init, check).Pass? {
        assert RunAlone(name, walk, check) == check(name, walk[|walk| - 1]);
      } else {
        var k :| 0 <= k < |init| && RunAlone(name, init, check) == check(name, init[k]) &&
                 forall i :: 0 <= i < k ==> check(name, init[i]).Pass?;
        assert RunAlone(name, walk, check) == check(name, walk[k]);
      }
    }
  }

  /** Which lints are left out, and where the others are counted: every lint that is not named and
      not for another kind of root is judged, on the root or on the walk. */
  lemma WhereCounted<E>(s: Setup<E>, l: Lint, rootType: RootType, skip: set<string>)
    ensures Applies(l, rootType, skip) <==> l.name !in skip && (l.rootType == None || l.rootType == Some(rootType))
    ensures !l.recursive ==> Judge(s, l) == s.regular(l.name)
    ensures l.recursive ==>
            (Judge(s, l).Pass? <==> forall i :: 0 <= i < |s.walk| ==> s.check(l.name, s.walk[i]).Pass?)
    ensures l.recursive && !Judge(s, l).Pass? ==>
            exists k :: 0 <= k < |s.walk| && Judge(s, l) == s.check(l.name, s.walk[k]) &&
                        forall i :: 0 <= i < k ==> s.check(l.name, s.walk[i]).Pass?
    ensures Passed(s)(l) <==> Judge(s, l) == Pass
    ensures Warned(s)(l) <==> !l.fatal && Judge(s, l) != Pass && !Judge(s, l).RuntimeError?
    ensures Failed(s)(l) <==> l.fatal && Judge(s, l) != Pass && !Judge(s, l).RuntimeError?
  {
    RunAloneMeaning(l.name, s.walk, s.check);
  }

  function Applicable(rootType: RootType, skip: set<string>): Lint -> bool {
    (l: Lint) => Applies(l, rootType, skip)
  }

  function NotApplicable(rootType: RootType, skip: set<string>): Lint -> bool {
    (l: Lint) => !Applies(l, rootType, skip)
  }

  function IsRecursive(): Lint -> bool { (l: Lint) => l.recursive }
  function IsRegular(): Lint -> bool { (l: Lint) => !l.recursive }

  ghost predicate Judged<E>(s: Setup<E>, rs: Results) {
    forall r :: r in rs ==> r.1 == Judge(s, r.0)
  }

  method RunRegular<E>(s: Setup<E>, lints: seq<Lint>) returns (rs: Results)
    requires forall l :: l in lints ==> !l.recursive
    ensures LintsOf(rs) == lints && Judged(s, rs)
  {
    rs := [];
    for i := 0 to |lints|
      invariant LintsOf(rs) == lints[..i] && Judged(s, rs)
    {
      var l := lints[i];
      LintsOfConcat(rs, [(l, s.regular(l.name))]);
      assert LintsOf([(l, s.regular(l.name))]) == [l];
      assert lints[..i + 1] == lints[..i] + [l];
      rs := rs + [(l, s.regular(l.name))];
    }
    assert lints[..|lints|] == lints;
  }

  function AllPass(ls: seq<Lint>): Results {
    if ls == [] then [] else [(ls[0], Pass)] + AllPass(ls[1..])
  }

  lemma {:induction false} AllPassMeaning(ls: seq<Lint>)
    ensures LintsOf(AllPass(ls)) == ls
    ensures forall r :: r in AllPass(ls) ==> r.0 in ls && r.1 == Pass
    decreases |ls|
  {
    if ls != [] {
      AllPassMeaning(ls[1..]);
      assert AllPass(ls)[1..] == AllPass(ls[1..]);
    }
  }

  /** All results of the recursive lints, those that stopped and those that ran to the end. */
  method RunRecursive<E>(s: Setup<E>, lints: seq<Lint>) returns (rs: Results)
    requires forall l :: l in lints ==> l.recursive
    ensures multiset(LintsOf(rs)) == multiset(lints) && Judged(s, rs)
  {
    var running, stopped := WalkRecursive(lints, s.walk, s.check);
    rs := stopped + AllPass(running);
    AllPassMeaning(running);
    LintsOfConcat(stopped, AllPass(running));
    forall r | r in rs ensures r.1 == Judge(s, r.0) {
      if r in stopped {
        LintsOfIn(stopped, r);
        assert r.0 in multiset(lints);
      } else {
        assert r.0 in multiset(lints);
      }
    }
  }

  lemma {:induction false} LintsOfIn(rs: Results, r: (Lint, Verdict))
    requires r in rs
    ensures r.0 in LintsOf(rs)
    decreases |rs|
  {
    if r != rs[0] {
      LintsOfIn(rs[1..], r);
    }
  }

  /** Counting the results; the first unexpected error aborts. */
  method Tally<E>(ghost s: Setup<E>, rs: Results, skipped: nat) returns (r: Summary)
    requires Judged(s, rs)
    ensures r.Aborted? <==> exists x :: x in rs && x.1.RuntimeError?
    ensures r.Aborted? ==> exists x :: x in rs && x.1 == RuntimeError(r.message) && x.0.name == r.lint
    ensures r.Totals? ==>
      var ls := LintsOf(rs);
      && r.skipped == skipped && r.passed == CountIf(ls, Passed(s))
      && r.warnings == CountIf(ls, Warned(s)) && r.fatal == CountIf(ls, Failed(s))
      && r.passed + r.warnings + r.fatal == |rs|
  {
    var passed, warnings, fatal := 0, 0, 0;
    for i := 0 to |rs|
      invariant forall j :: 0 <= j < i ==> !rs[j].1.RuntimeError?
      invariant passed == CountIf(LintsOf(rs[..i]), Passed(s))
      invariant warnings == CountIf(LintsOf(rs[..i]), Warned(s))
      invariant fatal == CountIf(LintsOf(rs[..i]), Failed(s))
      invariant passed + warnings + fatal == i
    {
      var x := rs[i];
      assert x in rs;
      CountNext(rs, i);
      match x.1 {
        case RuntimeError(message) => return Aborted(x.0.name, message);
        case Violation(_) =>
          if x.0.fatal { fatal := fatal + 1; } else { warnings := warnings + 1; }
        case Pass => passed := passed + 1;
      }
    }
    assert rs[..|rs|] == rs;
    r := Totals(passed, skipped, warnings, fatal);
  }

  lemma CountNext(rs: Results, i: nat)
    requires i < |rs|
    ensures forall p: Lint -> bool :: CountIf(LintsOf(rs[..i + 1]), p) ==
                                      CountIf(LintsOf(rs[..i]), p) + if p(rs[i].0) then 1 else 0
  {
    forall p: Lint -> bool
      ensures CountIf(LintsOf(rs[..i + 1]), p) == CountIf(LintsOf(rs[..i]), p) + if p(rs[i].0) then 1 else 0
    {
      assert rs[..i + 1] == rs[..i] + [rs[i]];
      LintsOfConcat(rs[..i], [rs[i]]);
      assert LintsOf([rs[i]]) == [rs[i].0];
      CountConcat(LintsOf(rs[..i]), [rs[i].0], p);
    }
  }

  /** The runner. The batched walk gives every recursive lint the verdict it would reach alone, so
      the run aborts exactly if some applicable lint breaks off, and otherwise the totals count
      the applicable lints by their own verdicts and add up to the number of lints. Lint names
      are unique, as the set and the map keyed by name need in the program; the sequences that
      stand for them here do not depend on it. */
  method LintInner<E>(lints: seq<Lint>, rootType: RootType, skip: set<string>, s: Setup<E>) returns (r: Summary)
    requires forall i, j :: 0 <= i < j < |lints| ==> lints[i].name != lints[j].name
    ensures r.Aborted? <==> exists l :: l in lints && Applies(l, rootType, skip) && Judge(s, l).RuntimeError?
    ensures r.Aborted? ==> exists l :: l in lints && Applies(l, rootType, skip) && l.name == r.lint &&
                                       Judge(s, l) == RuntimeError(r.message)
    ensures r.Totals? ==>
      var ls := Filter(lints, Applicable(rootType, skip));
      && r.passed == CountIf(ls, Passed(s)) && r.warnings == CountIf(ls, Warned(s)) && r.fatal == CountIf(ls, Failed(s))
      && r.passed + r.warnings + r.fatal + r.skipped == |lints|
  {
    var applicable := Filter(lints, Applicable(rootType, skip));
    var skipped := |Filter(lints, NotApplicable(rootType, skip))|;
    FilterPartition(lints, Applicable(rootType, skip), NotApplicable(rootType, skip));
    FilterMeaning(lints, Applicable(rootType, skip));
    r := RunApplicable(s, applicable, skipped);
    assert forall l :: l in applicable <==> l in lints && Applies(l, rootType, skip);
  }

  method RunApplicable<E>(s: Setup<E>, ls: seq<Lint>, skipped: nat) returns (r: Summary)
    ensures r.Aborted? <==> exists l :: l in ls && Judge(s, l).RuntimeError?
    ensures r.Aborted? ==> exists l :: l in ls && l.name == r.lint && Judge(s, l) == RuntimeError(r.message)
    ensures r.Totals? ==>
      && r.passed == CountIf(ls, Passed(s)) && r.warnings == CountIf(ls, Warned(s)) && r.fatal == CountIf(ls, Failed(s))
      && r.passed + r.warnings + r.fatal == |ls| && r.skipped == skipped
  {
    var rs := RunAll(s, ls);
    r := Tally(s, rs, skipped);
    SameCounts(s, rs, ls);
    if r.Aborted? {
      var x :| x in rs && x.1 == RuntimeError(r.message) && x.0.name == r.lint;
      Belongs(rs, ls, x);
    } else {
      forall l | l in ls ensures !Judge(s, l).RuntimeError? {
        assert l in multiset(ls) && l in multiset(LintsOf(rs));
        ResultOf(rs, l);
      }
    }
  }

  lemma Belongs(rs: Results, ls: seq<Lint>, x: (Lint, Verdict))
    requires multiset(LintsOf(rs)) == multiset(ls) && x in rs
    ensures x.0 in ls
  {
    LintsOfIn(rs, x);
    assert x.0 in multiset(LintsOf(rs)) && x.0 in multiset(ls);
  }

  method RunAll<E>(s: Setup<E>, applicable: seq<Lint>) returns (rs: Results)
    ensures multiset(LintsOf(rs)) == multiset(applicable) && Judged(s, rs)
  {
    FilterPartition(applicable, IsRegular(), IsRecursive());
    FilterMeaning(applicable, IsRegular());
    FilterMeaning(applicable, IsRecursive());
    var a := RunRegular(s, Filter(applicable, IsRegular()));
    var b := RunRecursive(s, Filter(applicable, IsRecursive()));
    LintsOfConcat(a, b);
    rs := a + b;
  }

  lemma SameCounts<E>(s: Setup<E>, rs: Results, ls: seq<Lint>)
    requires multiset(LintsOf(rs)) == multiset(ls)
    ensures CountIf(LintsOf(rs), Passed(s)) == CountIf(ls, Passed(s))
    ensures CountIf(LintsOf(rs), Warned(s)) == CountIf(ls, Warned(s))
    ensures CountIf(LintsOf(rs), Failed(s)) == CountIf(ls, Failed(s))
    ensures |rs| == |ls|
  {
    CountPermuted(LintsOf(rs), ls, Passed(s));
    CountPermuted(LintsOf(rs), ls, Warned(s));
    CountPermuted(LintsOf(rs), ls, Failed(s));
    LintsOfLength(rs);
    assert |multiset(LintsOf(rs))| == |multiset(ls)|;
  }

  lemma {:induction false} LintsOfLength(rs: Results)
    ensures |LintsOf(rs)| == |rs|
    decreases |rs|
  {
    if rs != [] {
      LintsOfLength(rs[1..]);
    }
  }

  lemma {:induction false} ResultOf(rs: Results, l: Lint)
    requires l in LintsOf(rs)
    ensures exists x :: x in rs && x.0 == l
    decreases |rs|
  {
    if rs[0].0 == l {
      assert rs[0] in rs;
    } else {
      ResultOf(rs[1..], l);
      var x :| x in rs[1..] && x.0 == l;
      assert x in rs;
    }
  }
}
