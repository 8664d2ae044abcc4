/** Kernel arguments owned by named sources. Each boot entry has an options line and one
    extension key per source; a source that was taken away keeps its key with an empty value.
    A call stages a new entry on top of the staged one, or of the booted one if none is
    staged. An upgrade stages an entry built from the booted one. A reboot makes the staged
    entry the booted one, with the keys that are read back from its text. Staging copies every
    extension key of the booted entry, and a staged deployment keeps the image of the
    deployment it was built on. */
module LoaderEntries {
  import opened Common
  import opened Cmdline
  import opened Text
  import opened BlsText
  import Kargs

  /** A boot entry, with the arguments that its image ships in kargs.d. */
  datatype Entry = Entry(options: Line, keys: Keys, image: Line)

  datatype State = State(booted: Entry, staged: Option<Entry>)

  function NonEmpty(keys: Keys): Keys {
    map n | n in keys && keys[n] != "" :: keys[n]
  }

  function Base(s: State): Entry {
    if s.staged.Some? then s.staged.value else s.booted
  }

  /** The sources a call starts from. With a staged entry these are the sources of the booted
      entry, at their staged values, and then the non-empty staged ones. */
  function Discover(s: State): Keys {
    match s.staged
    case None => Read(s.booted.keys)
    case Some(e) =>
      NonEmpty(e.keys) + map n | n in Read(s.booted.keys) && n in e.keys :: e.keys[n]
  }

  function Merged(policy: AddPolicy, line: Line, sources: Keys, target: Name, new_: Option<string>): Line {
    var rest := if target in sources then Without(line, ToSet(Words(sources[target]))) else line;
    if new_.Some? && new_.value != "" then AddAll(policy, rest, Words(new_.value)) else rest
  }

  predicate SourceUnchanged(sources: Keys, target: Name, new_: Option<string>) {
    if target in sources then new_.Some? && sources[target] == new_.value
    else new_.None? || new_.value == ""
  }

  /** The keys of the merge entry after the known sources were cleared and set again. */
  function Rekeyed(keys: Keys, sources: Keys, target: Name, new_: Option<string>): Keys {
    var known := keys + map n | n in sources :: if n == target then "" else sources[n];
    if new_.Some? then known[target := new_.value] else known
  }

  function Set(policy: AddPolicy, s: State, target: Name, new_: Option<string>): State {
    var sources := Discover(s);
    var merged := Merged(policy, Base(s).options, sources, target, new_);
    if merged == Base(s).options && SourceUnchanged(sources, target, new_) then s
    else State(s.booted, Some(Entry(merged, Rekeyed(s.booted.keys, sources, target, new_), Base(s).image)))
  }

  /** Staging the image whose own arguments are `remote`, if it has a directory for them. */
  function Upgrade(policy: AddPolicy, s: State, remote: Option<Line>): State {
    var e := s.booted;
    State(e, Some(Entry(Kargs.NewKargs(policy, e.image, remote, e.options), e.keys, Kargs.Args(remote))))
  }

  /** Every key with the value that it is read back with from the written entry. */
  function Reread(keys: Keys): Keys {
    map n | n in keys :: ReadBack(n, keys[n])
  }

  function Reboot(s: State): State {
    State(Base(s).(keys := Reread(Base(s).keys)), None)
  }

  // -- The calls themselves.

  method ComputeMergedOptions(policy: AddPolicy, current: Line, sources: Keys, target: Name, new_: Option<string>)
    returns (merged: Line)
    ensures merged == Merged(policy, current, sources, target, new_)
  {
    merged := current;
    if target in sources {
      var old_ := Words(sources[target]);
      WithoutNothing(current);
      assert ToSet(old_[..0]) == {};
      for i := 0 to |old_|
        invariant merged == Without(current, ToSet(old_[..i]))
      {
        RemoveExactIsWithout(current, old_[i], ToSet(old_[..i]));
        assert old_[..i + 1] == old_[..i] + [old_[i]];
        assert ToSet(old_[..i + 1]) == ToSet(old_[..i]) + {old_[i]};
        merged := RemoveExact(merged, old_[i]);
      }
      assert old_[..|old_|] == old_;
    }
    ghost var rest := merged;
    if new_.Some? && new_.value != "" {
      var args := Words(new_.value);
      assert args[0..] == args;
      for i := 0 to |args|
        invariant AddAll(policy, merged, args[i..]) == AddAll(policy, rest, args)
      {
        assert args[i..][0] == args[i] && args[i..][1..] == args[i + 1..];
        merged := Add(policy, merged, args[i]);
      }
      assert args[|args|..] == [];
    }
  }

  method UpdateSourceKeys(keys: Keys, sources: Keys, target: Name, new_: Option<string>) returns (out: Keys)
    ensures out == Rekeyed(keys, sources, target, new_)
  {
    out := ClearAll(keys, sources.Keys, "");
    out := SetAllBut(keys, sources, target, "", out);
    if new_.Some? {
      out := out[target := new_.value];
    }
  }

  /** Every known key set to the empty value. */
  method ClearAll<K(==), V>(keys: map<K, V>, known: set<K>, empty: V) returns (out: map<K, V>)
    ensures out == keys + map n | n in known :: empty
  {
    out := keys;
    var todo := known;
    while todo != {}
      invariant todo <= known && out.Keys == keys.Keys + (known - todo)
      invariant forall n :: n in out ==> out[n] == if n in known && n !in todo then empty else keys[n]
      decreases todo
    {
      var name :| name in todo;
      out := out[name := empty];
      todo := todo - {name};
    }
  }

  /** The keys that are kept, set again to their values. */
  method SetAllBut<K(==), V>(ghost keys: map<K, V>, sources: map<K, V>, target: K, empty: V, cleared: map<K, V>)
    returns (out: map<K, V>)
    requires cleared == keys + map n | n in sources.Keys :: empty
    ensures out == keys + map n | n in sources :: if n == target then empty else sources[n]
  {
    out := cleared;
    var todo := sources.Keys;
    while todo != {}
      invariant todo <= sources.Keys && out.Keys == cleared.Keys
      invariant forall n :: n in out ==>
        out[n] == if n !in sources then keys[n] else if n in todo || n == target then empty else sources[n]
      decreases todo
    {
      var name :| name in todo;
      if name != target {
        out := out[name := sources[name]];
      }
      todo := todo - {name};
    }
  }

  method DiscoverSources(booted: Entry, staged: Option<Entry>) returns (sources: Keys)
    ensures sources == Discover(State(booted, staged))
  {
    var read := Read(booted.keys);
    if staged.None? {
      return read;
    }
    sources := Probe(read.Keys, staged.value.keys);
    sources := InsertMissing(sources, NonEmpty(staged.value.keys));
    assert (map n | n in read.Keys && n in staged.value.keys :: staged.value.keys[n]) ==
           map n | n in read && n in staged.value.keys :: staged.value.keys[n];
  }

  /** The values that `keys` has for the wanted names. */
  method Probe<K(==), V>(wanted: set<K>, keys: map<K, V>) returns (out: map<K, V>)
    ensures out == map n | n in wanted && n in keys :: keys[n]
  {
    out := map[];
    var todo := wanted;
    while todo != {}
      invariant todo <= wanted
      invariant forall n :: n in out <==> n in wanted && n !in todo && n in keys
      invariant forall n :: n in out ==> out[n] == keys[n]
      decreases todo
    {
      var name :| name in todo;
      if name in keys {
        out := out[name := keys[name]];
      }
      todo := todo - {name};
    }
  }

  /** The entries of `more` inserted where `first` has none. */
  method InsertMissing<K(==), V>(first: map<K, V>, more: map<K, V>) returns (out: map<K, V>)
    ensures out == more + first
  {
    out := first;
    var todo := more.Keys;
    while todo != {}
      invariant todo <= more.Keys
      invariant forall n :: n in out <==> n in first || (n in more && n !in todo)
      invariant forall n :: n in out ==> out[n] == if n in first then first[n] else more[n]
      decreases todo
    {
      var name :| name in todo;
      if name !in out {
        out := out[name := more[name]];
      }
      todo := todo - {name};
    }
  }

  class Sysroot {
    var booted: Entry
    var staged: Option<Entry>

    ghost function Now(): State
      reads this
    {
      State(booted, staged)
    }

    /** Set or take away the arguments of one source. An invalid name changes nothing. */
    method SetOptionsForSource(policy: AddPolicy, source: string, new_: Option<string>) returns (ok: bool)
      modifies this`staged
      ensures ok == ValidSourceName(source)
      ensures Now() == if ok then Set(policy, old(Now()), source, new_) else old(Now())
    {
      ok := ValidSourceName(source);
      if !ok { return; }
      var base := if staged.Some? then staged.value else booted;
      var sources := DiscoverSources(booted, staged);
      var merged := ComputeMergedOptions(policy, base.options, sources, source, new_);
      if merged == base.options && SourceUnchanged(sources, source, new_) { return; }
      var keys := UpdateSourceKeys(booted.keys, sources, source, new_);
      staged := Some(Entry(merged, keys, base.image));
    }

    /** Stage a new image; what was staged before is replaced. */
    method UpgradeTo(policy: AddPolicy, remote: Option<Line>)
      modifies this`staged
      ensures Now() == Upgrade(policy, old(Now()), remote)
    {
      var kargs := Kargs.GetKargs(policy, booted.options, booted.image, remote);
      staged := Some(Entry(kargs, booted.keys, Kargs.Args(remote)));
    }
  }
}
