/** What holds over any run of set-options calls, upgrades and reboots. */
module LoaderRuns {
  import opened Common
  import opened Cmdline
  import opened Text
  import opened BlsText
  import opened LoaderEntries
  import Kargs

  /** The keys can be written and read back one by one. */
  ghost predicate AllContained(keys: Keys) {
    forall n :: n in keys ==> ReadableName(n) && Contained(n, keys[n])
  }

  /** Staging copied every key of the booted entry, the emptied ones included. */
  ghost predicate KeysKept(s: State) {
    s.booted.keys.Keys <= Base(s).keys.Keys
  }

  ghost predicate Consistent(s: State) {
    KeysKept(s) && AllContained(s.booted.keys) && AllContained(Base(s).keys)
  }

  /** The sources in force in the entry that is next to boot, as a plain map. */
  ghost function Sources(s: State): Keys {
    Read(Base(s).keys)
  }

  /** A new value, as it is read back from the entry. */
  function AsRead(target: Name, new_: Option<string>): Option<string> {
    if new_.Some? then Some(ReadBack(target, new_.value)) else None
  }

  ghost predicate ContainedIfSome(target: Name, new_: Option<string>) {
    new_.Some? ==> Contained(target, new_.value)
  }

  ghost function Put(src: Keys, target: Name, new_: Option<string>): Keys {
    if new_.Some? && new_.value != "" then src[target := new_.value] else src - {target}
  }

  /** What is found has the value that is in force; what is not found has no value in force and
      none in the booted entry. */
  ghost predicate DiscoversAt(found: Keys, base: Keys, booted: Keys, n: Name) {
    if n in found then n in base && ReadBack(n, found[n]) == ReadBack(n, base[n])
    else ReadBack(n, ValueOf(base, n)) == "" && ReadBack(n, ValueOf(booted, n)) == ""
  }

  ghost predicate Discovers(found: Keys, base: Keys, booted: Keys) {
    forall n :: DiscoversAt(found, base, booted, n)
  }

  lemma NothingReadsBack(n: Name)
    ensures ReadBack(n, "") == "" && Contained(n, "")
  {
    OneLineReadsBack(n, "");
  }

  lemma DiscoverAt(s: State, n: Name)
    requires KeysKept(s)
    ensures DiscoversAt(Discover(s), Base(s).keys, s.booted.keys, n)
  {
    NothingReadsBack(n);
    if n in s.booted.keys {
      ReadBackTwice(n, s.booted.keys[n]);
    }
  }

  lemma DiscoverMeaning(s: State)
    requires KeysKept(s)
    ensures Discovers(Discover(s), Base(s).keys, s.booted.keys)
  {
    forall n ensures DiscoversAt(Discover(s), Base(s).keys, s.booted.keys, n) {
      DiscoverAt(s, n);
    }
  }

  /** Where a found value comes from. */
  lemma FoundFrom(s: State, n: Name)
    requires n in Discover(s)
    ensures var v := Discover(s)[n];
            || (n in Base(s).keys && v == Base(s).keys[n])
            || (n in s.booted.keys && v == ReadBack(n, s.booted.keys[n]))
  {
  }

  lemma ReadByValue(keys: Keys, src: Keys)
    requires forall n :: n in src ==> src[n] != ""
    requires forall n :: ReadBack(n, ValueOf(keys, n)) == ValueOf(src, n)
    ensures Read(keys) == src
  {
    forall n ensures ValueOf(Read(keys), n) == ValueOf(src, n) {
      NothingReadsBack(n);
      assert ReadBack(n, ValueOf(keys, n)) == ValueOf(src, n);
    }
    SameByValue(Read(keys), src);
  }

  lemma RekeyedAt(booted: Keys, base: Keys, found: Keys, target: Name, new_: Option<string>, n: Name)
    requires DiscoversAt(found, base, booted, n)
    ensures ReadBack(n, ValueOf(Rekeyed(booted, found, target, new_), n)) ==
            ValueOf(Put(Read(base), target, AsRead(target, new_)), n)
  {
    RekeyedValue(booted, found, target, new_, n);
    PutValue(Read(base), target, AsRead(target, new_), n);
    ReadValue(base, n);
    NothingReadsBack(n);
  }

  lemma RekeyedValue(booted: Keys, found: Keys, target: Name, new_: Option<string>, n: Name)
    ensures ValueOf(Rekeyed(booted, found, target, new_), n) ==
            if n == target && new_.Some? then new_.value
            else if n !in found then ValueOf(booted, n)
            else if n == target then "" else found[n]
  {
  }

  lemma PutValue(src: Keys, target: Name, new_: Option<string>, n: Name)
    ensures ValueOf(Put(src, target, new_), n) ==
            if n != target then ValueOf(src, n) else if new_.Some? then new_.value else ""
  {
  }

  lemma ReadValue(keys: Keys, n: Name)
    ensures ValueOf(Read(keys), n) == ReadBack(n, ValueOf(keys, n))
  {
    NothingReadsBack(n);
  }

  lemma RekeyedIsPut(booted: Keys, base: Keys, found: Keys, target: Name, new_: Option<string>)
    requires Discovers(found, base, booted)
    ensures Read(Rekeyed(booted, found, target, new_)) == Put(Read(base), target, AsRead(target, new_))
  {
    var keys, put := Rekeyed(booted, found, target, new_), Put(Read(base), target, AsRead(target, new_));
    forall n ensures ReadBack(n, ValueOf(keys, n)) == ValueOf(put, n) {
      RekeyedAt(booted, base, found, target, new_, n);
    }
    ReadByValue(keys, put);
  }

  /** Where the value of a key comes from. */
  lemma RekeyedFrom(booted: Keys, found: Keys, target: Name, new_: Option<string>, n: Name)
    requires n in Rekeyed(booted, found, target, new_)
    ensures var v := Rekeyed(booted, found, target, new_)[n];
            || (n in booted && v == booted[n]) || (n in found && v == found[n])
            || (n in found && v == "") || (n == target && new_ == Some(v))
  {
  }

  /** Keys behave as a map through tombstones: after a call the keys read back, one by one, as
      the map with the target set to what its new value is read back as, or dropped. */
  lemma SetIsPut(policy: AddPolicy, s: State, target: Name, new_: Option<string>)
    requires KeysKept(s)
    ensures KeysKept(Set(policy, s, target, new_))
    ensures Sources(Set(policy, s, target, new_)) == Put(Sources(s), target, AsRead(target, new_))
  {
    DiscoverMeaning(s);
    RekeyedIsPut(s.booted.keys, Base(s).keys, Discover(s), target, new_);
    if SourceUnchanged(Discover(s), target, new_) {
      UnchangedIsPut(s, target, new_);
    }
  }

  lemma UnchangedIsPut(s: State, target: Name, new_: Option<string>)
    requires KeysKept(s)
    requires SourceUnchanged(Discover(s), target, new_)
    ensures Put(Sources(s), target, AsRead(target, new_)) == Sources(s)
  {
    DiscoverAt(s, target);
    NothingReadsBack(target);
  }

  // -- The same, through the text of the entry.

  /** `pairs` are the keys of an entry in the order in which they are written. */
  ghost predicate Orders(pairs: seq<(Name, string)>, keys: Keys) {
    && (forall i, j :: 0 <= i < j < |pairs| ==> pairs[i].0 != pairs[j].0)
    && ToKeys(pairs) == keys
  }

  lemma {:induction false} PairInKeys(pairs: seq<(Name, string)>, i: nat)
    requires i < |pairs| && forall j, k :: 0 <= j < k < |pairs| ==> pairs[j].0 != pairs[k].0
    ensures pairs[i].0 in ToKeys(pairs) && ToKeys(pairs)[pairs[i].0] == pairs[i].1
    decreases |pairs|
  {
    if i > 0 {
      PairInKeys(pairs[1..], i - 1);
    }
  }

  /** In whatever order a consistent entry's keys are written, its text reads back as `Read`. */
  lemma ConsistentReadsBack(keys: Keys, head: seq<string>, pairs: seq<(Name, string)>, tail: seq<string>)
    requires AllContained(keys) && Orders(pairs, keys) && OtherLines(head) && OtherLines(tail)
    ensures ReadLines(map[], Lines(EntryText(head, pairs, tail))) == Read(keys)
  {
    forall i | 0 <= i < |pairs| ensures ReadableName(pairs[i].0) && Contained(pairs[i].0, pairs[i].1) {
      PairInKeys(pairs, i);
    }
    EntryTextRoundTrip(head, pairs, tail);
  }

  /** After a call with any value at all, line breaks included, the text of the entry reads back
      as the map with the target changed, at every name that the value does not bring along.
      The target itself is always such a name. */
  lemma SetReadsBack(policy: AddPolicy, s: State, target: Name, new_: Option<string>,
                     head: seq<string>, pairs: seq<(Name, string)>, tail: seq<string>, n: Name)
    requires Consistent(s) && ReadableName(target)
    requires Orders(pairs, Base(Set(policy, s, target, new_)).keys) && OtherLines(head) && OtherLines(tail)
    requires n != target && new_.Some? ==> !Brings(new_.value, n)
    ensures ValueOf(ReadLines(map[], Lines(EntryText(head, pairs, tail))), n) ==
            ValueOf(Put(Sources(s), target, AsRead(target, new_)), n)
  {
    SetIsPut(policy, s, target, new_);
    var keys := Base(Set(policy, s, target, new_)).keys;
    forall i | 0 <= i < |pairs| ensures ReadableName(pairs[i].0) && (pairs[i].0 != n ==> !Brings(pairs[i].1, n)) {
      PairInKeys(pairs, i);
      KeyAfterSet(policy, s, target, new_, pairs[i].0);
    }
    EntryReadsBackAt(head, pairs, tail, n);
  }

  /** A name that is no key of the entry that a call leaves, exactly: in whatever order the keys
      are written, it reads back as absent if and only if the new value does not bring it. */
  lemma SetBringsIff(policy: AddPolicy, s: State, target: Name, v: string,
                     head: seq<string>, pairs: seq<(Name, string)>, tail: seq<string>, n: Name)
    requires Consistent(s) && ReadableName(target)
    requires Orders(pairs, Base(Set(policy, s, target, Some(v))).keys) && OtherLines(head) && OtherLines(tail)
    requires n !in Base(Set(policy, s, target, Some(v))).keys
    ensures ValueOf(ReadLines(map[], Lines(EntryText(head, pairs, tail))), n) == "" <==> !Brings(v, n)
  {
    var keys := Base(Set(policy, s, target, Some(v))).keys;
    forall i | 0 <= i < |pairs|
      ensures ReadableName(pairs[i].0) && pairs[i].0 != n && (Brings(pairs[i].1, n) ==> Brings(v, n))
    {
      PairInKeys(pairs, i);
      KeyAfterSet(policy, s, target, Some(v), pairs[i].0);
    }
    AbsentIffUntold(head, pairs, tail, n);
    if Brings(v, n) {
      BringingIsStaged(policy, s, target, v, n);
      var i := IndexInPairs(pairs, target);
      assert Brings(pairs[i].1, n);
    }
  }

  /** A value that brings another name is never taken for the value that was there. */
  lemma BringingIsStaged(policy: AddPolicy, s: State, target: Name, v: string, n: Name)
    requires Consistent(s) && Brings(v, n)
    requires n !in Base(Set(policy, s, target, Some(v))).keys
    ensures var keys := Base(Set(policy, s, target, Some(v))).keys; target in keys && keys[target] == v
  {
    if SourceUnchanged(Discover(s), target, Some(v)) {
      UnchangedBringsNothing(s, target, v, n);
      assert Set(policy, s, target, Some(v)) != s;
    }
  }

  lemma UnchangedBringsNothing(s: State, target: Name, v: string, n: Name)
    requires Consistent(s) && SourceUnchanged(Discover(s), target, Some(v)) && Brings(v, n)
    ensures n in Base(s).keys
  {
    if target in Discover(s) {
      DiscoverAt(s, target);
      FoundFrom(s, target);
      if target in s.booted.keys {
        ReadBackTwice(target, s.booted.keys[target]);
      }
    } else {
      EmptyBringsNothing(n);
    }
  }

  lemma EmptyBringsNothing(n: Name)
    ensures !Brings("", n)
  {
    LinesOne("");
    assert "" + ['\n'] == ['\n'];
  }

  lemma {:induction false} IndexInPairs(pairs: seq<(Name, string)>, n: Name) returns (i: nat)
    requires n in ToKeys(pairs)
    ensures i < |pairs| && pairs[i] == (n, ToKeys(pairs)[n])
    decreases |pairs|
  {
    if pairs[0].0 == n {
      i := 0;
    } else {
      i := IndexInPairs(pairs[1..], n);
      i := i + 1;
    }
  }

  /** A key after a call is contained, or is the target with its new value. */
  lemma KeyAfterSet(policy: AddPolicy, s: State, target: Name, new_: Option<string>, m: Name)
    requires Consistent(s) && ReadableName(target)
    requires m in Base(Set(policy, s, target, new_)).keys
    ensures ReadableName(m)
    ensures var v := Base(Set(policy, s, target, new_)).keys[m];
            Contained(m, v) || (m == target && new_ == Some(v))
  {
    KeyFrom(policy, s, target, new_, m);
    NothingReadsBack(m);
    if m in s.booted.keys {
      ReadBackTwice(m, s.booted.keys[m]);
    }
  }

  lemma KeyFrom(policy: AddPolicy, s: State, target: Name, new_: Option<string>, n: Name)
    requires KeysKept(s)
    requires n in Base(Set(policy, s, target, new_)).keys
    ensures var v := Base(Set(policy, s, target, new_)).keys[n];
            || (n in Base(s).keys && (v == Base(s).keys[n] || v == ""))
            || (n in s.booted.keys && (v == s.booted.keys[n] || v == ReadBack(n, s.booted.keys[n])))
            || (n == target && new_ == Some(v))
  {
    if Set(policy, s, target, new_) != s {
      RekeyedFrom(s.booted.keys, Discover(s), target, new_, n);
      if n in Discover(s) {
        FoundFrom(s, n);
      }
    }
  }

  lemma SetConsistent(policy: AddPolicy, s: State, target: Name, new_: Option<string>)
    requires Consistent(s) && ReadableName(target) && ContainedIfSome(target, new_)
    ensures Consistent(Set(policy, s, target, new_))
  {
    SetIsPut(policy, s, target, new_);
    var keys := Base(Set(policy, s, target, new_)).keys;
    forall m | m in keys ensures ReadableName(m) && Contained(m, keys[m]) {
      KeyAfterSet(policy, s, target, new_, m);
    }
  }

  // -- The options line.

  ghost function Tracked(src: Keys): set<Arg> {
    set n, a | n in src && a in Words(src[n]) :: a
  }

  ghost predicate Present(line: Line, src: Keys) {
    forall n, a :: n in src && a in Words(src[n]) ==> a in line
  }

  /** No argument belongs to two sources. */
  ghost predicate Separate(src: Keys) {
    forall n, m, a :: n in src && m in src && n != m && a in Words(src[n]) ==> a !in Words(src[m])
  }

  /** The line is the untracked arguments, in order, with every tracked argument among them. */
  ghost predicate Owned(line: Line, src: Keys, untracked: Line) {
    Without(line, Tracked(src)) == untracked && Present(line, src) && Separate(src)
  }

  /** The new arguments are nobody else's. */
  ghost predicate Legal(src: Keys, untracked: Line, target: Name, new_: Option<string>) {
    new_.Some? ==> forall a :: a in Words(new_.value) ==>
      a !in untracked && forall n :: n in src && n != target ==> a !in Words(src[n])
  }

  lemma PutTracked(src: Keys, target: Name, new_: Option<string>, a: Arg)
    requires Separate(src)
    ensures var was := target in src && a in Words(src[target]);
            var is_ := new_.Some? && new_.value != "" && a in Words(new_.value);
            a in Tracked(Put(src, target, new_)) <==> is_ || (a in Tracked(src) && !was)
  {
    var put := Put(src, target, new_);
    if a in Tracked(put) {
      var n :| n in put && a in Words(put[n]);
      if n != target {
        assert n in src && put[n] == src[n];
      }
    }
    if new_.Some? && new_.value != "" && a in Words(new_.value) {
      assert target in put && put[target] == new_.value;
    }
    if a in Tracked(src) && !(target in src && a in Words(src[target])) {
      var n :| n in src && a in Words(src[n]);
      assert n in put && put[n] == src[n];
    }
  }

  lemma PutSeparate(src: Keys, untracked: Line, target: Name, new_: Option<string>)
    requires Separate(src) && Legal(src, untracked, target, new_)
    ensures Separate(Put(src, target, new_))
  {
    var put := Put(src, target, new_);
    forall n, m, a | n in put && m in put && n != m && a in Words(put[n])
      ensures a !in Words(put[m])
    {
    }
  }

  lemma MergedOwned(policy: AddPolicy, line: Line, src: Keys, target: Name, new_: Option<string>, untracked: Line)
    requires Owned(line, src, untracked) && Legal(src, untracked, target, new_)
    ensures Owned(Merged(policy, line, src, target, new_), Put(src, target, new_), untracked)
  {
    var old_ := if target in src then ToSet(Words(src[target])) else {};
    var rest := Without(line, old_);
    WithoutNothing(line);
    var args := if new_.Some? && new_.value != "" then Words(new_.value) else [];
    var tail := AddAllTail(policy, rest, args);
    var merged, put := Merged(policy, line, src, target, new_), Put(src, target, new_);
    assert merged == rest + tail;
    forall a
      ensures a in Tracked(put) <==> a in args || (a in Tracked(src) && a !in old_)
      ensures a in rest <==> a in line && a !in old_
      ensures a in untracked <==> a in line && a !in Tracked(src)
    {
      PutTracked(src, target, new_, a);
      WithoutIn(line, old_, a);
      WithoutIn(line, Tracked(src), a);
    }
    UntrackedKept(line, old_, tail, Tracked(src), Tracked(put), untracked);
    PutSeparate(src, untracked, target, new_);
    forall n, a | n in put && a in Words(put[n])
      ensures a in merged
    {
      assert a in Tracked(put);
      if a !in args {
        assert a in Tracked(src);
        TrackedIsPresent(line, src, a);
      }
    }
  }

  lemma TrackedIsPresent(line: Line, src: Keys, a: Arg)
    requires Present(line, src) && a in Tracked(src)
    ensures a in line
  {
  }

  lemma UntrackedKept(line: Line, old_: set<Arg>, tail: Line, was: set<Arg>, is_: set<Arg>, untracked: Line)
    requires Without(line, was) == untracked
    requires old_ <= was
    requires forall a :: a in tail ==> a in is_
    requires forall a :: a in line && a !in old_ ==> (a in was <==> a in is_)
    ensures Without(Without(line, old_) + tail, is_) == untracked
  {
    WithoutConcat(Without(line, old_), tail, is_);
    if Without(tail, is_) != [] {
      WithoutIn(tail, is_, Without(tail, is_)[0]);
    }
    WithoutTwice(line, old_, is_);
    WithoutSame(line, old_ + is_, was);
  }

  // -- The effect of one call on the line.

  /** The line after a source changes from the value `old_`. */
  function MergedFrom(policy: AddPolicy, line: Line, old_: string, new_: Option<string>): Line {
    var rest := Without(line, ToSet(Words(old_)));
    if new_.Some? && new_.value != "" then AddAll(policy, rest, Words(new_.value)) else rest
  }

  lemma MergedByValue(policy: AddPolicy, line: Line, src: Keys, target: Name, new_: Option<string>)
    ensures Merged(policy, line, src, target, new_) == MergedFrom(policy, line, ValueOf(src, target), new_)
  {
    if target !in src {
      assert ToSet(Words("")) == {};
      WithoutNothing(line);
    }
  }

  /** Being written and read back costs the value no argument. */
  ghost predicate Storable(n: Name, v: string) {
    Words(ReadBack(n, v)) == Words(v)
  }

  ghost predicate AllStorable(keys: Keys) {
    forall n :: n in keys ==> Storable(n, keys[n])
  }

  ghost predicate StorableIfSome(target: Name, new_: Option<string>) {
    new_.Some? ==> Storable(target, new_.value)
  }

  /** Every value is storable that is on one line and has no exotic whitespace. */
  lemma PlainIsStorable(n: Name, v: string)
    requires '\n' !in v
    requires forall i :: 0 <= i < |v| && IsWhitespace(v[i]) ==> IsAsciiWhitespace(v[i])
    ensures Storable(n, v) && Contained(n, v)
  {
    OneLineReadsBack(n, v);
    WordsOfTrim(v);
  }

  /** Every source argument on the line is found again after a reboot. */
  ghost predicate Sound(s: State) {
    Consistent(s) && AllStorable(s.booted.keys) && AllStorable(Base(s).keys)
  }

  lemma MergedFromByWords(policy: AddPolicy, line: Line, raw: string, old_: string, target: Name, new_: Option<string>)
    requires Words(raw) == Words(old_) && StorableIfSome(target, new_)
    ensures MergedFrom(policy, line, raw, new_) == MergedFrom(policy, line, old_, AsRead(target, new_))
  {
    assert Words("") == [];
    NothingReadsBack(target);
  }

  lemma DiscoverValue(s: State, n: Name)
    requires Sound(s)
    ensures Words(ValueOf(Discover(s), n)) == Words(ValueOf(Sources(s), n))
  {
    assert Words("") == [];
    NothingReadsBack(n);
  }

  lemma SetSound(policy: AddPolicy, s: State, target: Name, new_: Option<string>)
    requires Sound(s) && ReadableName(target)
    requires ContainedIfSome(target, new_) && StorableIfSome(target, new_)
    ensures Sound(Set(policy, s, target, new_))
  {
    SetConsistent(policy, s, target, new_);
    var keys := Base(Set(policy, s, target, new_)).keys;
    forall n | n in keys ensures Storable(n, keys[n]) {
      KeyFrom(policy, s, target, new_, n);
      NothingReadsBack(n);
      if n in s.booted.keys {
        ReadBackTwice(n, s.booted.keys[n]);
      }
    }
  }

  /** The line that a call leaves, whether or not it had to stage anything. */
  lemma SetOptionsLine(policy: AddPolicy, s: State, target: Name, new_: Option<string>)
    requires Sound(s) && StorableIfSome(target, new_)
    ensures Base(Set(policy, s, target, new_)).options ==
            MergedFrom(policy, Base(s).options, ValueOf(Sources(s), target), AsRead(target, new_))
  {
    DiscoverValue(s, target);
    MergedByValue(policy, Base(s).options, Discover(s), target, new_);
    MergedFromByWords(policy, Base(s).options, ValueOf(Discover(s), target), ValueOf(Sources(s), target), target, new_);
  }

  // -- The effect of an upgrade on the line.

  /** Adding arguments that are not in `t` and dropping `t` commute. */
  lemma {:induction false} AddAllCommutes(policy: AddPolicy, line: Line, args: Line, t: set<Arg>)
    requires forall a :: a in args ==> a !in t
    ensures Without(AddAll(policy, line, args), t) == AddAll(policy, Without(line, t), args)
    decreases |args|
  {
    if args != [] {
      var a := args[0];
      WithoutIn(line, t, a);
      WithoutConcat(line, [a], t);
      assert a in args && Without([a], t) == [a];
      AddAllCommutes(policy, Add(policy, line, a), args[1..], t);
    }
  }

  /** An upgrade treats the untracked arguments as if the tracked ones were not there. */
  lemma UpgradeCommutes(policy: AddPolicy, existing: Line, remote: Line, line: Line, t: set<Arg>)
    requires forall a :: a in existing || a in remote ==> a !in t
    ensures Without(Kargs.Upgraded(policy, existing, remote, line), t) ==
            Kargs.Upgraded(policy, existing, remote, Without(line, t))
  {
    var gone, added := Without(existing, ToSet(remote)), Without(remote, ToSet(existing));
    forall a | a in added ensures a !in t { WithoutIn(remote, ToSet(existing), a); }
    AddAllCommutes(policy, Without(line, ToSet(gone)), added, t);
    WithoutTwice(line, ToSet(gone), t);
    WithoutTwice(line, t, ToSet(gone));
    assert ToSet(gone) + t == t + ToSet(gone);
  }

  lemma UpgradeKeepsPresent(policy: AddPolicy, existing: Line, remote: Line, line: Line, src: Keys)
    requires Present(line, src)
    requires forall a :: a in existing || a in remote ==> a !in Tracked(src)
    ensures Present(Kargs.Upgraded(policy, existing, remote, line), src)
  {
    forall n, a | n in src && a in Words(src[n])
      ensures a in Kargs.Upgraded(policy, existing, remote, line)
    {
      assert a in Tracked(src);
      Kargs.UpgradeOnAnyLine(policy, existing, remote, line, a);
      CountIn(line, a);
      CountIn(Kargs.Upgraded(policy, existing, remote, line), a);
    }
  }

  // -- Reboots.

  lemma RereadKeeps(keys: Keys)
    ensures Read(Reread(keys)) == Read(keys)
  {
    forall n | n in keys ensures ReadBack(n, ReadBack(n, keys[n])) == ReadBack(n, keys[n]) {
      ReadBackTwice(n, keys[n]);
    }
  }

  lemma RereadContained(keys: Keys)
    requires AllContained(keys)
    ensures AllContained(Reread(keys))
  {
    forall n | n in keys ensures Contained(n, ReadBack(n, keys[n])) {
      ReadBackTwice(n, keys[n]);
    }
  }

  lemma RereadStorable(keys: Keys)
    ensures AllStorable(Reread(keys))
  {
    forall n | n in keys ensures Storable(n, ReadBack(n, keys[n])) {
      ReadBackTwice(n, keys[n]);
    }
  }

  lemma RebootKeeps(s: State)
    ensures Read(Reboot(s).booted.keys) == Sources(Reboot(s)) == Sources(s)
    ensures Consistent(s) ==> Sound(Reboot(s))
  {
    RereadKeeps(Base(s).keys);
    RereadStorable(Base(s).keys);
    if Consistent(s) {
      RereadContained(Base(s).keys);
    }
  }

  // -- Runs.

  datatype Action = SetOptions(target: Name, new_: Option<string>) | UpgradeImage(remote: Option<Line>) | Restart

  function Step(policy: AddPolicy, s: State, a: Action): State {
    match a
    case SetOptions(t, v) => Set(policy, s, t, v)
    case UpgradeImage(remote) => Upgrade(policy, s, remote)
    case Restart => Reboot(s)
  }

  function Run(policy: AddPolicy, s: State, actions: seq<Action>): State
    decreases |actions|
  {
    if actions == [] then s else Run(policy, Step(policy, s, actions[0]), actions[1..])
  }

  /** The sources as two plain maps: those booted, and those of the next boot. An upgrade starts
      again from the booted ones. */
  datatype Maps = Maps(booted: Keys, next: Keys)

  ghost function MapStep(m: Maps, a: Action): Maps {
    match a
    case SetOptions(t, v) => Maps(m.booted, Put(m.next, t, AsRead(t, v)))
    case UpgradeImage(_) => Maps(m.booted, m.booted)
    case Restart => Maps(m.next, m.next)
  }

  ghost function MapRun(m: Maps, actions: seq<Action>): Maps
    decreases |actions|
  {
    if actions == [] then m else MapRun(MapStep(m, actions[0]), actions[1..])
  }

  ghost function MapsOf(s: State): Maps {
    Maps(Read(s.booted.keys), Sources(s))
  }

  /** The name is one that a call accepts, and the value brings no other key along. */
  ghost predicate Accepted(a: Action) {
    a.SetOptions? ==> ValidSourceName(a.target) && ContainedIfSome(a.target, a.new_)
  }

  lemma StepIsMapStep(policy: AddPolicy, s: State, a: Action)
    requires Consistent(s) && Accepted(a)
    ensures Consistent(Step(policy, s, a))
    ensures MapsOf(Step(policy, s, a)) == MapStep(MapsOf(s), a)
  {
    match a
    case SetOptions(t, v) =>
      ValidIsReadable(t);
      SetConsistent(policy, s, t, v);
      SetIsPut(policy, s, t, v);
    case UpgradeImage(_) =>
    case Restart =>
      RebootKeeps(s);
  }

  /** Over any run, whatever the arguments and whoever else has them, the sources are the maps
      that the actions describe. */
  lemma {:induction false} RunIsMapRun(policy: AddPolicy, s: State, actions: seq<Action>)
    requires Consistent(s) && forall a :: a in actions ==> Accepted(a)
    ensures Consistent(Run(policy, s, actions))
    ensures MapsOf(Run(policy, s, actions)) == MapRun(MapsOf(s), actions)
    decreases |actions|
  {
    if actions != [] {
      StepIsMapStep(policy, s, actions[0]);
      RunIsMapRun(policy, Step(policy, s, actions[0]), actions[1..]);
    }
  }

  /** And so reads the text of the entry that is next to boot, in whatever order it is written. */
  lemma RunReadsBack(policy: AddPolicy, s: State, actions: seq<Action>,
                     head: seq<string>, pairs: seq<(Name, string)>, tail: seq<string>)
    requires Consistent(s) && forall a :: a in actions ==> Accepted(a)
    requires Orders(pairs, Base(Run(policy, s, actions)).keys) && OtherLines(head) && OtherLines(tail)
    ensures ReadLines(map[], Lines(EntryText(head, pairs, tail))) == MapRun(MapsOf(s), actions).next
  {
    RunIsMapRun(policy, s, actions);
    ConsistentReadsBack(Base(Run(policy, s, actions)).keys, head, pairs, tail);
  }

  /** The line of an entry holds exactly its image's arguments, the user's in their order, and
      the arguments of every source. */
  ghost predicate EntryOwned(e: Entry, user: Line) {
    var src := Read(e.keys);
    var untracked := Without(e.options, Tracked(src));
    && Owned(e.options, src, untracked)
    && Kargs.Holds(untracked, e.image, user)
    && NoDuplicates(e.image) && Kargs.Disjoint(user, e.image)
  }

  /** The arguments an action brings are nobody else's at that time, and no arguments of an
      image are left behind by one without a directory for them. */
  ghost predicate ActionLegal(s: State, user: Line, a: Action) {
    Accepted(a) &&
    match a
    case SetOptions(t, v) =>
      && StorableIfSome(t, v)
      && Legal(Sources(s), Without(Base(s).options, Tracked(Sources(s))), t, v)
    case UpgradeImage(remote) =>
      && (remote.None? ==> s.booted.image == [])
      && var args := Kargs.Args(remote);
         && NoDuplicates(args) && Kargs.Disjoint(user, args)
         && forall b :: b in args || b in s.booted.image ==> b !in Tracked(Read(s.booted.keys))
    case Restart => true
  }

  ghost predicate RunLegal(policy: AddPolicy, s: State, user: Line, actions: seq<Action>)
    decreases |actions|
  {
    actions == [] ||
    (ActionLegal(s, user, actions[0]) && RunLegal(policy, Step(policy, s, actions[0]), user, actions[1..]))
  }

  ghost predicate Invariant(s: State, user: Line) {
    Sound(s) && EntryOwned(s.booted, user) && EntryOwned(Base(s), user)
  }

  lemma LegalAsRead(src: Keys, untracked: Line, target: Name, new_: Option<string>)
    requires Legal(src, untracked, target, new_) && StorableIfSome(target, new_)
    ensures Legal(src, untracked, target, AsRead(target, new_))
  {
  }

  lemma SetOwned(policy: AddPolicy, s: State, target: Name, new_: Option<string>, untracked: Line)
    requires Sound(s) && Owned(Base(s).options, Sources(s), untracked)
    requires Legal(Sources(s), untracked, target, new_) && StorableIfSome(target, new_)
    ensures var after := Set(policy, s, target, new_); Owned(Base(after).options, Sources(after), untracked)
  {
    SetIsPut(policy, s, target, new_);
    SetOptionsLine(policy, s, target, new_);
    LegalAsRead(Sources(s), untracked, target, new_);
    MergedByValue(policy, Base(s).options, Sources(s), target, AsRead(target, new_));
    MergedOwned(policy, Base(s).options, Sources(s), target, AsRead(target, new_), untracked);
  }

  lemma SetKeeps(policy: AddPolicy, s: State, user: Line, target: Name, new_: Option<string>)
    requires Invariant(s, user) && ActionLegal(s, user, SetOptions(target, new_))
    ensures Invariant(Set(policy, s, target, new_), user)
  {
    var e := Base(Set(policy, s, target, new_));
    ValidIsReadable(target);
    SetSound(policy, s, target, new_);
    SetOwned(policy, s, target, new_, Without(Base(s).options, Tracked(Sources(s))));
    assert e.image == Base(s).image;
  }

  lemma UpgradeKeeps(policy: AddPolicy, s: State, user: Line, remote: Option<Line>)
    requires Invariant(s, user) && ActionLegal(s, user, UpgradeImage(remote))
    ensures Invariant(Upgrade(policy, s, remote), user)
  {
    var e, args := s.booted, Kargs.Args(remote);
    var src := Read(e.keys);
    if remote.None? {
      Kargs.MissingAsEmpty(policy, e.options);
    }
    assert Kargs.NewKargs(policy, e.image, remote, e.options) == Kargs.Upgraded(policy, e.image, args, e.options);
    UpgradeCommutes(policy, e.image, args, e.options, Tracked(src));
    UpgradeKeepsPresent(policy, e.image, args, e.options, src);
    Kargs.UpgradeKeepsHolding(policy, e.image, args, Without(e.options, Tracked(src)), user);
  }

  /** Over any legal run of set-options calls, upgrades and reboots: the line of every entry
      holds exactly the image's arguments, the user's in their original order and the current
      arguments of every source, and the sources are the maps that the actions describe. */
  lemma {:induction false} RunKeepsOwnership(policy: AddPolicy, s: State, user: Line, actions: seq<Action>)
    requires Invariant(s, user) && RunLegal(policy, s, user, actions)
    ensures Invariant(Run(policy, s, actions), user)
    ensures MapsOf(Run(policy, s, actions)) == MapRun(MapsOf(s), actions)
    decreases |actions|
  {
    if actions != [] {
      match actions[0] {
        case SetOptions(t, v) => SetKeeps(policy, s, user, t, v);
        case UpgradeImage(remote) => UpgradeKeeps(policy, s, user, remote);
        case Restart => RebootKeeps(s);
      }
      StepIsMapStep(policy, s, actions[0]);
      RunKeepsOwnership(policy, Step(policy, s, actions[0]), user, actions[1..]);
    }
  }

  /** Without upgrades the whole untracked list stays as it was, whatever it holds. */
  lemma {:induction false} RunKeepsUntracked(policy: AddPolicy, s: State, untracked: Line, actions: seq<Action>)
    requires Sound(s) && RunLegal(policy, s, [], actions)
    requires forall i :: 0 <= i < |actions| ==> !actions[i].UpgradeImage?
    requires Owned(Base(s).options, Sources(s), untracked)
    ensures var e := Run(policy, s, actions); Owned(Base(e).options, Sources(e), untracked)
    decreases |actions|
  {
    if actions != [] {
      match actions[0] {
        case SetOptions(t, v) =>
          ValidIsReadable(t);
          SetSound(policy, s, t, v);
          SetOwned(policy, s, t, v, untracked);
        case Restart =>
          RebootKeeps(s);
      }
      RunKeepsUntracked(policy, Step(policy, s, actions[0]), untracked, actions[1..]);
    }
  }

  // -- Upgrades start from the booted entry.

  /** An upgrade keeps the sources of the next boot exactly if they are the booted ones. */
  lemma UpgradeKeepsSourcesIff(policy: AddPolicy, s: State, remote: Option<Line>)
    ensures Sources(Reboot(Upgrade(policy, s, remote))) == Sources(Reboot(s)) <==>
            Read(s.booted.keys) == Read(Base(s).keys)
  {
    RebootKeeps(s);
    RebootKeeps(Upgrade(policy, s, remote));
  }

  /** After any actions within one boot, an upgrade and a reboot: the sources are those that were
      booted, so that what the actions did survives exactly if it came to nothing. */
  lemma {:induction false} StagedSourcesLost(policy: AddPolicy, s: State, actions: seq<Action>, remote: Option<Line>)
    requires Consistent(s) && forall a :: a in actions ==> Accepted(a) && !a.Restart?
    ensures var e := Run(policy, s, actions);
            && Sources(Reboot(Upgrade(policy, e, remote))) == Read(s.booted.keys)
            && (Sources(Reboot(Upgrade(policy, e, remote))) == Sources(Reboot(e)) <==>
                MapRun(MapsOf(s), actions).next == Read(s.booted.keys))
  {
    RunIsMapRun(policy, s, actions);
    BootedStays(policy, s, actions);
    RebootKeeps(Run(policy, s, actions));
    RebootKeeps(Upgrade(policy, Run(policy, s, actions), remote));
  }

  lemma {:induction false} BootedStays(policy: AddPolicy, s: State, actions: seq<Action>)
    requires forall a :: a in actions ==> !a.Restart?
    ensures Run(policy, s, actions).booted == s.booted
    decreases |actions|
  {
    if actions != [] {
      BootedStays(policy, Step(policy, s, actions[0]), actions[1..]);
    }
  }

  /** A booted entry without arguments or sources. */
  function Bare(image: Line): State {
    State(Entry([], map[], image), None)
  }

  /** Set a source, upgrade, reboot: the source is gone. Without the upgrade it is there. */
  lemma SourceGone(policy: AddPolicy, image: Line, target: Name, v: string, remote: Option<Line>)
    requires '\n' !in v && Trim(v) != ""
    ensures var set_ := Set(policy, Bare(image), target, Some(v));
            && target in Sources(Reboot(set_))
            && target !in Sources(Reboot(Upgrade(policy, set_, remote)))
  {
    var set_ := Set(policy, Bare(image), target, Some(v));
    OneLineReadsBack(target, v);
    SetIsPut(policy, Bare(image), target, Some(v));
    RebootKeeps(set_);
    RebootKeeps(Upgrade(policy, set_, remote));
    assert set_.booted == Bare(image).booted;
  }

  // -- Undo and fixed point.

  ghost predicate NotOnLine(line: Line, v: string) {
    forall a :: a in Words(v) ==> a !in line
  }

  /** No arguments are known of the source. */
  ghost predicate Unset(s: State, target: Name) {
    Words(ValueOf(Discover(s), target)) == []
  }

  /** Where every value is storable, a source that is not in force has no known arguments. */
  lemma UnsetIfNotInForce(s: State, target: Name)
    requires Sound(s) && target !in Sources(s)
    ensures Unset(s, target)
  {
    DiscoverValue(s, target);
    assert Words("") == [];
  }

  /** Within one boot, the next call finds the very value that was given. */
  lemma FoundAsGiven(policy: AddPolicy, s: State, target: Name, v: string)
    ensures ValueOf(Discover(Set(policy, s, target, Some(v))), target) == v
  {
  }

  lemma AddedLine(policy: AddPolicy, s: State, target: Name, v: string)
    requires Unset(s, target)
    ensures Base(Set(policy, s, target, Some(v))).options == AddAll(policy, Base(s).options, Words(v))
  {
    MergedByValue(policy, Base(s).options, Discover(s), target, Some(v));
    assert Words("") == [];
    assert ToSet(Words(ValueOf(Discover(s), target))) == {};
    WithoutNothing(Base(s).options);
  }

  /** Setting a source that has no arguments, with any value whose arguments are not on the line,
      and taking it away again in the same boot restores the argument sequence and the sources. */
  lemma SetThenRemoveRestores(policy: AddPolicy, s: State, target: Name, v: string)
    requires Unset(s, target) && NotOnLine(Base(s).options, v)
    ensures var back := Set(policy, Set(policy, s, target, Some(v)), target, None);
            && Base(back).options == Base(s).options
            && (KeysKept(s) && target !in Sources(s) ==> Sources(back) == Sources(s))
  {
    var once := Set(policy, s, target, Some(v));
    AddedLine(policy, s, target, v);
    FoundAsGiven(policy, s, target, v);
    MergedByValue(policy, Base(once).options, Discover(once), target, None);
    AddThenWithout(policy, Base(s).options, Words(v));
    if KeysKept(s) && target !in Sources(s) {
      SetIsPut(policy, s, target, Some(v));
      SetIsPut(policy, once, target, None);
      PutThenDrop(Sources(s), target, ReadBack(target, v));
    }
  }

  lemma PutThenDrop<K, V>(m: map<K, V>, k: K, v: V)
    requires k !in m
    ensures m[k := v] - {k} == m && m - {k} == m
  {
  }

  lemma AddThenWithout(policy: AddPolicy, line: Line, args: Line)
    requires forall a :: a in args ==> a !in line
    ensures Without(AddAll(policy, line, args), ToSet(args)) == line
  {
    var tail := AddAllTail(policy, line, args);
    WithoutConcat(line, tail, ToSet(args));
    WithoutSame(line, ToSet(args), {});
    WithoutNothing(line);
    if Without(tail, ToSet(args)) != [] {
      WithoutIn(tail, ToSet(args), Without(tail, ToSet(args))[0]);
    }
  }

  /** After a reboot the source has the value that was read back, and the arguments of that come
      off. */
  ghost predicate ComesOff(line: Line, target: Name, v: string) {
    var back := ReadBack(target, v);
    (forall a :: a in Words(v) ==> a in Words(back)) && NotOnLine(line, back)
  }

  /** What is left on the line after set, reboot and take away. */
  ghost function Leftover(policy: AddPolicy, s: State, target: Name, v: string): Line {
    Base(Set(policy, Reboot(Set(policy, s, target, Some(v))), target, None)).options
  }

  /** With a reboot in between, for any value at all: taking the source away restores the line
      exactly if reading the value back lost none of its arguments, and made none that was
      already on the line. */
  lemma RemoveAfterRebootIff(policy: AddPolicy, s: State, target: Name, v: string)
    requires Consistent(s) && Unset(s, target) && NotOnLine(Base(s).options, v)
    ensures Leftover(policy, s, target, v) == Base(s).options <==> ComesOff(Base(s).options, target, v)
  {
    SetIsPut(policy, s, target, Some(v));
    AddedLine(policy, s, target, v);
    TakenOff(policy, Set(policy, s, target, Some(v)), target, ReadBack(target, v));
    AddThenWithoutIff(policy, Base(s).options, Words(v), ToSet(Words(ReadBack(target, v))));
  }

  lemma TakenOff(policy: AddPolicy, s: State, target: Name, back: string)
    requires ValueOf(Sources(s), target) == back
    ensures Base(Set(policy, Reboot(s), target, None)).options == Without(Base(s).options, ToSet(Words(back)))
  {
    RebootKeeps(s);
    assert Discover(Reboot(s)) == Sources(s);
    MergedByValue(policy, Base(s).options, Sources(s), target, None);
  }

  lemma AddThenWithoutIff(policy: AddPolicy, line: Line, args: Line, t: set<Arg>)
    requires forall a :: a in args ==> a !in line
    ensures Without(AddAll(policy, line, args), t) == line <==>
            (forall a :: a in args ==> a in t) && (forall a :: a in t ==> a !in line)
  {
    var tail := AddAllTail(policy, line, args);
    WithoutConcat(line, tail, t);
    forall a
      ensures a in Without(line, t) <==> a in line && a !in t
      ensures a in Without(tail, t) <==> a in tail && a !in t
    {
      WithoutIn(line, t, a);
      WithoutIn(tail, t, a);
    }
    if (forall a :: a in args ==> a in t) && (forall a :: a in t ==> a !in line) {
      WithoutSame(line, t, {});
      WithoutNothing(line);
      if Without(tail, t) != [] {
        assert Without(tail, t)[0] in Without(tail, t);
      }
    }
  }

  lemma BareIsUnset(image: Line, target: Name)
    ensures Consistent(Bare(image)) && Unset(Bare(image), target)
  {
    assert target !in Discover(Bare(image));
    assert Words("") == [];
  }

  const NO_BREAK_SPACE := 0xA0 as char

  /** An argument behind a no-break space stays on the line when its source is taken away
      after a reboot: the words of a value are split at ASCII whitespace, but the value that is
      read back was trimmed of all whitespace. */
  lemma ExoticSpaceSticks(policy: AddPolicy, image: Line, target: Name)
    ensures Leftover(policy, Bare(image), target, [NO_BREAK_SPACE, 'a']) != Bare(image).booted.options
  {
    var v := [NO_BREAK_SPACE, 'a'];
    assert v[1..] == "a" && TrimStart(v) == TrimStart("a") == "a";
    assert Trim(v) == "a";
    assert IsWord(v) && IsWord("a");
    WordThenSpace(v, []);
    WordThenSpace("a", []);
    OneLineReadsBack(target, v);
    BareIsUnset(image, target);
    RemoveAfterRebootIff(policy, Bare(image), target, v);
    assert v in Words(v) && v !in Words(Trim(v));
  }

  /** So does an argument behind a line break: only the first line of a value is read back. */
  lemma SecondLineSticks(policy: AddPolicy, image: Line, target: Name)
    ensures Leftover(policy, Bare(image), target, "a" + ['\n'] + "b") != Bare(image).booted.options
  {
    var v := "a" + ['\n'] + "b";
    assert IsWord("a") && IsWord("b");
    WordThenSpace("a", []);
    WordThenSpace("b", []);
    WordsOfSeparated("a", '\n', "b");
    assert ReadLine("b") == None;
    BrokenReadsBack(target, "a", "b");
    assert Trim("a") == "a";
    BareIsUnset(image, target);
    RemoveAfterRebootIff(policy, Bare(image), target, v);
    assert "b" in Words(v) && "b" !in Words("a");
  }

  lemma BrokenReadsBack(n: Name, a: string, b: string)
    requires '\n' !in a && '\n' !in b && ReadLine(b).None?
    ensures ReadBack(n, a + ['\n'] + b) == Trim(a)
  {
    Reassociate(a, ['\n'], b, ['\n'], []);
    LinesStep(a, b + ['\n']);
    LinesOne(b);
    TrimStripCr(a);
    TrimStripCr(b);
    assert ValueLines(a + ['\n'] + b) == [StripCr(a), StripCr(b)];
    assert [StripCr(a), StripCr(b)][1..] == [StripCr(b)];
    OtherLinesIgnored(map[n := Trim(a)], [StripCr(b)], n);
  }

  /** Setting the same arguments twice in a row: the second call sees that nothing changes and
      stages nothing. */
  lemma SetTwiceIsSetOnce(policy: AddPolicy, s: State, target: Name, v: string)
    requires NotOnLine(Merged(policy, Base(s).options, Discover(s), target, None), v)
    ensures var once := Set(policy, s, target, Some(v));
            && Merged(policy, Base(once).options, Discover(once), target, Some(v)) == Base(once).options
            && SourceUnchanged(Discover(once), target, Some(v))
            && Set(policy, once, target, Some(v)) == once
  {
    var once := Set(policy, s, target, Some(v));
    var rest := Without(Base(s).options, ToSet(Words(ValueOf(Discover(s), target))));
    assert Words("") == [];
    MergedByValue(policy, Base(s).options, Discover(s), target, Some(v));
    MergedByValue(policy, Base(s).options, Discover(s), target, None);
    FoundAsGiven(policy, s, target, v);
    MergedByValue(policy, Base(once).options, Discover(once), target, Some(v));
    AddThenWithout(policy, rest, Words(v));
    NowUnchanged(policy, s, target, v);
  }

  /** After a call the source is seen to have the value it was given. */
  lemma NowUnchanged(policy: AddPolicy, s: State, target: Name, v: string)
    ensures SourceUnchanged(Discover(Set(policy, s, target, Some(v))), target, Some(v))
  {
  }
}
