/** Boot entries as text: reading the source keys back, and finding the entry of a deployment.
    Entries are Type #1 Boot Loader Specification Entries: lines of a key, whitespace and a
    value. A value with line breaks in it is written as it is, so that only its first line
    belongs to its key and the others are lines of the entry. */
module BlsText {
  import opened Common
  import opened Text

  type Name = string

  /** The values of the `x-options-source-<name>` keys, by name. */
  type Keys = map<Name, string>

  predicate ValidSourceName(s: string) {
    s != [] && forall i :: 0 <= i < |s| ==> IsNameChar(s[i])
  }

  predicate IsNameChar(c: char) {
    'a' <= c <= 'z' || 'A' <= c <= 'Z' || '0' <= c <= '9' || c == '-' || c == '_'
  }

  const PREFIX := "x-options-source-"

  /** The source named on one line and its value, if the line sets one. */
  function ReadLine(line: string): Option<(Name, string)> {
    var l := Trim(line);
    if PREFIX <= l then ReadKey(l[|PREFIX|..]) else None
  }

  /** What follows the prefix: a name, whitespace and a value. */
  function ReadKey(rest: string): Option<(Name, string)> {
    var k := WordLength(rest);
    if k == |rest| then None
    else
      var value := Trim(rest[k + 1..]);
      if k == 0 || value == "" then None else Some((rest[..k], value))
  }

  function ReadLines(sources: Keys, lines: seq<string>): Keys
    decreases |lines|
  {
    if lines == [] then sources
    else
      var r := ReadLine(lines[0]);
      ReadLines(if r.Some? then sources[r.value.0 := r.value.1] else sources, lines[1..])
  }

  method ExtractSourceOptions(content: string) returns (sources: Keys)
    ensures sources == ReadLines(map[], Lines(content))
  {
    var lines := Lines(content);
    sources := map[];
    for i := 0 to |lines|
      invariant ReadLines(sources, lines[i..]) == ReadLines(map[], lines)
    {
      assert lines[i..][0] == lines[i] && lines[i..][1..] == lines[i + 1..];
      var line := Trim(lines[i]);
      if !(PREFIX <= line) { continue; }
      sources := InsertKey(sources, line[|PREFIX|..]);
    }
  }

  method InsertKey(sources: Keys, rest: string) returns (out: Keys)
    ensures var r := ReadKey(rest); out == if r.Some? then sources[r.value.0 := r.value.1] else sources
  {
    out := sources;
    var k := WordLength(rest);
    if k == |rest| { return; }
    var name, value := rest[..k], Trim(rest[k + 1..]);
    if name == "" || value == "" { return; }
    out := out[name := value];
  }

  // -- What reading a written value gives.

  /** The value in force for a name, empty if there is none. */
  function ValueOf(keys: Keys, n: Name): string {
    if n in keys then keys[n] else ""
  }

  /** The lines that a value makes in an entry; the first one stands behind the key. */
  function ValueLines(v: string): (ls: seq<string>)
    ensures ls != []
  {
    Lines(v + ['\n'])
  }

  /** What key `n` has after its value `v` was written and read back: the first line, trimmed,
      unless a later line sets the key again. */
  function ReadBack(n: Name, v: string): string {
    var ls := ValueLines(v);
    ValueOf(ReadLines(map[n := Trim(ls[0])], ls[1..]), n)
  }

  /** A later line of the value is itself a source key, of name `n`. */
  predicate Brings(v: string, n: Name) {
    exists l :: l in ValueLines(v)[1..] && ReadLine(l).Some? && ReadLine(l).value.0 == n
  }

  /** The value brings no other key along. */
  ghost predicate Contained(n: Name, v: string) {
    forall m :: m != n ==> !Brings(v, m)
  }

  /** What reading the keys of a written entry yields, key by key; empty ones are left out. */
  function Read(keys: Keys): Keys {
    map n | n in keys && ReadBack(n, keys[n]) != "" :: ReadBack(n, keys[n])
  }

  /** A value on one line is read back trimmed, and brings nothing along. */
  lemma OneLineReadsBack(n: Name, v: string)
    requires '\n' !in v
    ensures ReadBack(n, v) == Trim(v) && Contained(n, v)
  {
    LinesStep(v, []);
    assert v + ['\n'] + [] == v + ['\n'];
    assert ValueLines(v) == [StripCr(v)];
    TrimStripCr(v);
  }

  lemma TrimStripCr(l: string)
    ensures Trim(StripCr(l)) == Trim(l)
  {
    if StripCr(l) != l {
      var m := StripCr(l);
      assert l == m + ['\r'] && l[..|l| - 1] == m;
      TrimCommutes(l);
      TrimCommutes(m);
    }
  }

  ghost predicate Tidy(v: string) {
    Trim(v) == v && '\n' !in v
  }

  lemma ReadLineTidy(l: string)
    requires '\n' !in l
    ensures var r := ReadLine(l); r.Some? ==> r.value.1 != "" && Tidy(r.value.1)
  {
    TrimIsPart(l);
    var t := Trim(l);
    if PREFIX <= t {
      ReadKeyTidy(t[|PREFIX|..]);
    }
  }

  lemma ReadKeyTidy(rest: string)
    requires '\n' !in rest
    ensures var r := ReadKey(rest); r.Some? ==> r.value.1 != "" && Tidy(r.value.1)
  {
    var k := WordLength(rest);
    if k < |rest| {
      TrimIsPart(rest[k + 1..]);
      TrimTwice(rest[k + 1..]);
    }
  }

  lemma {:induction false} ReadLinesTidy(sources: Keys, lines: seq<string>, n: Name)
    requires Tidy(ValueOf(sources, n)) && forall l :: l in lines ==> '\n' !in l
    ensures Tidy(ValueOf(ReadLines(sources, lines), n))
    decreases |lines|
  {
    if lines != [] {
      ReadLineTidy(lines[0]);
      var r := ReadLine(lines[0]);
      ReadLinesTidy(if r.Some? then sources[r.value.0 := r.value.1] else sources, lines[1..], n);
    }
  }

  /** What was read back once is read back unchanged. */
  lemma ReadBackTwice(n: Name, v: string)
    ensures Tidy(ReadBack(n, v)) && ReadBack(n, ReadBack(n, v)) == ReadBack(n, v)
    ensures Contained(n, ReadBack(n, v))
  {
    var ls := ValueLines(v);
    LinesHaveNoBreak(v + ['\n']);
    TrimTwice(ls[0]);
    assert ls[0] in ls;
    TrimIsPart(ls[0]);
    ReadLinesTidy(map[n := Trim(ls[0])], ls[1..], n);
    OneLineReadsBack(n, ReadBack(n, v));
  }

  // -- Writing one key and reading it back.

  function KeyLine(n: Name, v: string): string {
    PREFIX + (n + [' '] + v)
  }

  /** A name that survives being written; every valid one does. */
  predicate ReadableName(n: Name) {
    IsWord(n) && !IsWhitespace(n[|n| - 1])
  }

  lemma ValidIsReadable(n: Name)
    requires ValidSourceName(n)
    ensures ReadableName(n)
  {
    assert forall i :: 0 <= i < |n| ==> IsNameChar(n[i]);
  }

  lemma StripPrefix(p: string, s: string)
    ensures p <= p + s && (p + s)[|p|..] == s
  {
  }

  lemma FirstWord(n: Name, v: string)
    requires IsWord(n)
    ensures WordLength(n + [' '] + v) == |n|
    ensures WordLength(n) == |n|
  {
    var rest := n + [' '] + v;
    assert rest[|n|] == ' ';
    assert forall i :: 0 <= i < |n| ==> rest[i] == n[i];
  }

  lemma ReadKeyBack(n: Name, v: string)
    requires IsWord(n)
    ensures Trim(v) != "" ==> ReadKey(n + [' '] + v) == Some((n, Trim(v)))
    ensures ReadKey(n) == None
  {
    var rest := n + [' '] + v;
    FirstWord(n, v);
    assert rest[..|n|] == n && rest[|n| + 1..] == v;
  }

  lemma TrimBehind(head: string, v: string)
    requires head != "" && !IsWhitespace(head[0]) && !IsWhitespace(head[|head| - 1])
    ensures Trim(head + [' '] + v) == if TrimEnd(v) == "" then head else head + [' '] + TrimEnd(v)
  {
    TrimEndAppend(head + [' '], v);
    TrimEndAppend(head, [' ']);
    assert TrimEnd([' ']) == "";
  }

  lemma KeyLineTrimmed(n: Name, v: string)
    requires ReadableName(n)
    ensures Trim(KeyLine(n, v)) == PREFIX + if TrimEnd(v) == "" then n else n + [' '] + TrimEnd(v)
  {
    PrefixIsPlain(n);
    TrimBehind(PREFIX + n, v);
    Regroup(PREFIX, n, v);
    Regroup(PREFIX, n, TrimEnd(v));
  }

  lemma PrefixIsPlain(n: Name)
    requires n != ""
    ensures PREFIX + n != "" && !IsWhitespace((PREFIX + n)[0]) && (PREFIX + n)[|PREFIX + n| - 1] == n[|n| - 1]
  {
  }

  lemma Regroup(p: string, n: string, v: string)
    ensures p + n + [' '] + v == p + (n + [' '] + v)
  {
  }

  /** A written key reads back trimmed; a blank or emptied key reads back as nothing. */
  lemma KeyLineReadsBack(n: Name, v: string)
    requires ReadableName(n)
    ensures ReadLine(KeyLine(n, v)) == if Trim(v) == "" then None else Some((n, Trim(v)))
  {
    KeyLineTrimmed(n, v);
    var e := TrimEnd(v);
    BlankEnd(v);
    ReadKeyBack(n, e);
    StripPrefix(PREFIX, if e == "" then n else n + [' '] + e);
  }

  lemma BlankEnd(v: string)
    ensures Trim(TrimEnd(v)) == Trim(v)
    ensures Trim(v) == "" <==> TrimEnd(v) == ""
  {
    TrimCommutes(v);
    assert Trim(TrimEnd(v)) == TrimEnd(TrimStart(TrimEnd(v))) == TrimEnd(Trim(v)) == Trim(v);
    if TrimEnd(v) != "" {
      EndNotBlank(TrimEnd(v));
    }
  }

  lemma {:induction false} EndNotBlank(s: string)
    requires s != "" && !IsWhitespace(s[|s| - 1])
    ensures TrimStart(s) != ""
  {
    if IsWhitespace(s[0]) {
      EndNotBlank(s[1..]);
    }
  }

  // -- Writing an entry and reading it back.

  function KeyLines(pairs: seq<(Name, string)>): seq<string> {
    if pairs == [] then [] else [KeyLine(pairs[0].0, pairs[0].1)] + KeyLines(pairs[1..])
  }

  function ToKeys(pairs: seq<(Name, string)>): Keys {
    if pairs == [] then map[] else ToKeys(pairs[1..])[pairs[0].0 := pairs[0].1]
  }

  lemma {:induction false} NotAmong(pairs: seq<(Name, string)>, n: Name)
    requires forall i :: 0 <= i < |pairs| ==> pairs[i].0 != n
    ensures n !in ToKeys(pairs)
    decreases |pairs|
  {
    if pairs != [] {
      NotAmong(pairs[1..], n);
    }
  }

  /** The lines of a text that was written piece by piece. */
  function AllLines(pieces: seq<string>): seq<string> {
    if pieces == [] then [] else Lines(pieces[0] + ['\n']) + AllLines(pieces[1..])
  }

  lemma {:induction false} LinesOfPieces(pieces: seq<string>)
    ensures Lines(Unlines(pieces)) == AllLines(pieces)
    decreases |pieces|
  {
    if pieces != [] {
      LinesOfPieces(pieces[1..]);
      LinesSplit(pieces[0], Unlines(pieces[1..]));
    }
  }

  lemma {:induction false} AllLinesConcat(a: seq<string>, b: seq<string>)
    ensures AllLines(a + b) == AllLines(a) + AllLines(b)
    decreases |a|
  {
    if a == [] {
      assert a + b == b;
    } else {
      assert (a + b)[1..] == a[1..] + b;
      AllLinesConcat(a[1..], b);
    }
  }

  lemma {:induction false} ReadLinesConcat(sources: Keys, a: seq<string>, b: seq<string>)
    ensures ReadLines(sources, a + b) == ReadLines(ReadLines(sources, a), b)
    decreases |a|
  {
    if a == [] {
      assert a + b == b;
    } else {
      var r := ReadLine(a[0]);
      assert (a + b)[1..] == a[1..] + b;
      ReadLinesConcat(if r.Some? then sources[r.value.0 := r.value.1] else sources, a[1..], b);
    }
  }

  /** What a name gets depends only on what it had and on the lines. */
  lemma {:induction false} ReadLinesAt(a: Keys, b: Keys, lines: seq<string>, n: Name)
    requires ValueOf(a, n) == ValueOf(b, n)
    ensures ValueOf(ReadLines(a, lines), n) == ValueOf(ReadLines(b, lines), n)
    decreases |lines|
  {
    if lines != [] {
      var r := ReadLine(lines[0]);
      if r.Some? {
        ReadLinesAt(a[r.value.0 := r.value.1], b[r.value.0 := r.value.1], lines[1..], n);
      } else {
        ReadLinesAt(a, b, lines[1..], n);
      }
    }
  }

  ghost predicate NoneNames(lines: seq<string>, n: Name) {
    forall l :: l in lines ==> ReadLine(l).None? || ReadLine(l).value.0 != n
  }

  lemma {:induction false} OtherLinesIgnored(sources: Keys, lines: seq<string>, n: Name)
    requires NoneNames(lines, n)
    ensures ValueOf(ReadLines(sources, lines), n) == ValueOf(sources, n)
    decreases |lines|
  {
    if lines != [] {
      var r := ReadLine(lines[0]);
      OtherLinesIgnored(if r.Some? then sources[r.value.0 := r.value.1] else sources, lines[1..], n);
    }
  }

  lemma ReadableUnbroken(n: Name)
    requires ReadableName(n)
    ensures '\n' !in PREFIX + n + [' ']
  {
    assert forall i :: 0 <= i < |n| ==> !IsAsciiWhitespace(n[i]);
    assert '\n' !in PREFIX;
  }

  lemma KeyLinesOf(n: Name, v: string)
    requires ReadableName(n)
    ensures Lines(KeyLine(n, v) + ['\n']) == [KeyLine(n, ValueLines(v)[0])] + ValueLines(v)[1..]
  {
    ReadableUnbroken(n);
    Regroup(PREFIX, n, v);
    Regroup(PREFIX, n, ValueLines(v)[0]);
    LinesBehind(PREFIX + n + [' '], v);
  }

  /** Reading one written key, at its own name. */
  lemma OwnKey(sources: Keys, n: Name, v: string)
    requires ReadableName(n) && ValueOf(sources, n) == ""
    ensures ValueOf(ReadLines(sources, Lines(KeyLine(n, v) + ['\n'])), n) == ReadBack(n, v)
  {
    var ls := ValueLines(v);
    KeyLinesOf(n, v);
    KeyLineReadsBack(n, ls[0]);
    var first := KeyLine(n, ls[0]);
    var next := if Trim(ls[0]) == "" then sources else sources[n := Trim(ls[0])];
    assert ([first] + ls[1..])[1..] == ls[1..];
    assert ReadLines(sources, [first] + ls[1..]) == ReadLines(next, ls[1..]);
    ReadLinesAt(next, map[n := Trim(ls[0])], ls[1..], n);
  }

  /** Reading one written key, at any name that it is not and that its value does not bring. */
  lemma OtherKey(sources: Keys, m: Name, v: string, n: Name)
    requires ReadableName(m) && m != n && !Brings(v, n)
    ensures ValueOf(ReadLines(sources, Lines(KeyLine(m, v) + ['\n'])), n) == ValueOf(sources, n)
  {
    var ls := ValueLines(v);
    KeyLinesOf(m, v);
    KeyLineReadsBack(m, ls[0]);
    OtherLinesIgnored(sources, [KeyLine(m, ls[0])] + ls[1..], n);
  }

  /** The keys to write, in any order. */
  ghost predicate Writable(pairs: seq<(Name, string)>) {
    && (forall i :: 0 <= i < |pairs| ==> ReadableName(pairs[i].0))
    && (forall i, j :: 0 <= i < j < |pairs| ==> pairs[i].0 != pairs[j].0)
  }

  /** No key but `n` itself has a value that brings `n`. */
  ghost predicate Untold(pairs: seq<(Name, string)>, n: Name) {
    forall i :: 0 <= i < |pairs| && pairs[i].0 != n ==> !Brings(pairs[i].1, n)
  }

  lemma {:induction false} KeysReadAt(sources: Keys, pairs: seq<(Name, string)>, n: Name)
    requires Writable(pairs) && Untold(pairs, n)
    requires n in ToKeys(pairs) ==> ValueOf(sources, n) == ""
    ensures ValueOf(ReadLines(sources, AllLines(KeyLines(pairs))), n) ==
            if n in ToKeys(pairs) then ReadBack(n, ToKeys(pairs)[n]) else ValueOf(sources, n)
    decreases |pairs|
  {
    if pairs != [] {
      var m, v, rest := pairs[0].0, pairs[0].1, pairs[1..];
      var block := Lines(KeyLine(m, v) + ['\n']);
      NotAmong(rest, m);
      assert KeyLines(pairs)[0] == KeyLine(m, v) && KeyLines(pairs)[1..] == KeyLines(rest);
      ReadLinesConcat(sources, block, AllLines(KeyLines(rest)));
      if m == n {
        OwnKey(sources, n, v);
      } else {
        OtherKey(sources, m, v, n);
      }
      KeysReadAt(ReadLines(sources, block), rest, n);
    }
  }

  /** The text of an entry with other lines before and after its source keys. */
  function EntryText(head: seq<string>, pairs: seq<(Name, string)>, tail: seq<string>): string {
    Unlines(head + KeyLines(pairs) + tail)
  }

  /** Lines of the entry that are no source keys. */
  ghost predicate OtherLines(lines: seq<string>) {
    forall l :: l in AllLines(lines) ==> ReadLine(l).None?
  }

  /** Round trip through text, at one name: however the keys are ordered and whatever their
      values are, a name that no other key's value brings reads back as its own value says. */
  lemma EntryReadsBackAt(head: seq<string>, pairs: seq<(Name, string)>, tail: seq<string>, n: Name)
    requires Writable(pairs) && OtherLines(head) && OtherLines(tail) && Untold(pairs, n)
    ensures ValueOf(ReadLines(map[], Lines(EntryText(head, pairs, tail))), n) == ValueOf(Read(ToKeys(pairs)), n)
  {
    var a, b, c := AllLines(head), AllLines(KeyLines(pairs)), AllLines(tail);
    LinesOfPieces(head + KeyLines(pairs) + tail);
    AllLinesConcat(head + KeyLines(pairs), tail);
    AllLinesConcat(head, KeyLines(pairs));
    ReadLinesConcat(map[], a + b, c);
    ReadLinesConcat(map[], a, b);
    OtherLinesIgnored(map[], a, n);
    KeysReadAt(ReadLines(map[], a), pairs, n);
    OtherLinesIgnored(ReadLines(map[], a + b), c, n);
  }

  ghost predicate Names(l: string, n: Name) {
    ReadLine(l).Some? && ReadLine(l).value.0 == n
  }

  /** A line that names `n` leaves it with a value, whatever follows. */
  lemma {:induction false} NamedIsSet(sources: Keys, lines: seq<string>, n: Name)
    requires ValueOf(sources, n) != "" || exists l :: l in lines && Names(l, n)
    ensures ValueOf(ReadLines(sources, lines), n) != ""
    decreases |lines|
  {
    if lines != [] {
      var r := ReadLine(lines[0]);
      var next := if r.Some? then sources[r.value.0 := r.value.1] else sources;
      if !Names(lines[0], n) && ValueOf(sources, n) == "" {
        var l :| l in lines && Names(l, n);
        assert l in lines[1..];
      }
      NamedIsSet(next, lines[1..], n);
    }
  }

  lemma {:induction false} BroughtLine(pairs: seq<(Name, string)>, i: nat, l: string)
    requires Writable(pairs) && i < |pairs| && l in ValueLines(pairs[i].1)[1..]
    ensures l in AllLines(KeyLines(pairs))
    decreases |pairs|
  {
    var n, v, rest := pairs[0].0, pairs[0].1, pairs[1..];
    assert KeyLines(pairs)[0] == KeyLine(n, v) && KeyLines(pairs)[1..] == KeyLines(rest);
    KeyLinesOf(n, v);
    if i > 0 {
      assert Writable(rest) && rest[i - 1] == pairs[i];
      BroughtLine(rest, i - 1, l);
    }
  }

  /** A name that is no key of the entry, exactly: it reads back as absent if and only if no value
      brings it along. */
  lemma AbsentIffUntold(head: seq<string>, pairs: seq<(Name, string)>, tail: seq<string>, n: Name)
    requires Writable(pairs) && OtherLines(head) && OtherLines(tail) && n !in ToKeys(pairs)
    ensures ValueOf(ReadLines(map[], Lines(EntryText(head, pairs, tail))), n) == "" <==> Untold(pairs, n)
  {
    if Untold(pairs, n) {
      EntryReadsBackAt(head, pairs, tail, n);
    } else {
      var i :| 0 <= i < |pairs| && pairs[i].0 != n && Brings(pairs[i].1, n);
      var l :| l in ValueLines(pairs[i].1)[1..] && ReadLine(l).Some? && ReadLine(l).value.0 == n;
      BroughtLine(pairs, i, l);
      LinesOfPieces(head + KeyLines(pairs) + tail);
      AllLinesConcat(head + KeyLines(pairs), tail);
      AllLinesConcat(head, KeyLines(pairs));
      assert l in Lines(EntryText(head, pairs, tail)) && Names(l, n);
      NamedIsSet(map[], Lines(EntryText(head, pairs, tail)), n);
    }
  }

  lemma {:induction false} ReadValuesNonEmpty(sources: Keys, lines: seq<string>)
    requires forall n :: n in sources ==> sources[n] != ""
    ensures forall n :: n in ReadLines(sources, lines) ==> ReadLines(sources, lines)[n] != ""
    decreases |lines|
  {
    if lines != [] {
      var r := ReadLine(lines[0]);
      ReadValuesNonEmpty(if r.Some? then sources[r.value.0 := r.value.1] else sources, lines[1..]);
    }
  }

  lemma SameByValue(a: Keys, b: Keys)
    requires forall n :: n in a ==> a[n] != ""
    requires forall n :: n in b ==> b[n] != ""
    requires forall n :: ValueOf(a, n) == ValueOf(b, n)
    ensures a == b
  {
    forall n ensures n in a <==> n in b {
      assert ValueOf(a, n) == ValueOf(b, n);
    }
    forall n | n in a ensures a[n] == b[n] {
      assert ValueOf(a, n) == ValueOf(b, n);
    }
  }

  /** Round trip through text: where no value brings another key along, an entry reads back as
      the reading of its keys. */
  lemma EntryTextRoundTrip(head: seq<string>, pairs: seq<(Name, string)>, tail: seq<string>)
    requires Writable(pairs) && OtherLines(head) && OtherLines(tail)
    requires forall i :: 0 <= i < |pairs| ==> Contained(pairs[i].0, pairs[i].1)
    ensures ReadLines(map[], Lines(EntryText(head, pairs, tail))) == Read(ToKeys(pairs))
  {
    var read := ReadLines(map[], Lines(EntryText(head, pairs, tail)));
    ReadValuesNonEmpty(map[], Lines(EntryText(head, pairs, tail)));
    forall n ensures ValueOf(read, n) == ValueOf(Read(ToKeys(pairs)), n) {
      EntryReadsBackAt(head, pairs, tail, n);
    }
    SameByValue(read, Read(ToKeys(pairs)));
  }

  /** A value can bring another key along: a later line of it that is a key line sets that key. */
  lemma LaterLineSetsOther(n: Name, first: string, m: Name, w: string)
    requires ReadableName(n) && ReadableName(m) && m != n
    requires '\n' !in first && '\n' !in w && Trim(w) != ""
    ensures var v := first + ['\n'] + KeyLine(m, w);
            && Brings(v, m)
            && ValueOf(ReadLines(map[], Lines(EntryText([], [(n, v)], []))), m) == Trim(w)
            && m !in Read(map[n := v])
  {
    var l, v := KeyLine(m, w), first + ['\n'] + KeyLine(m, w);
    TwoLines(first, m, w);
    KeyLineReadsBack(m, w);
    TrimStripCr(l);
    assert ReadLine(StripCr(l)) == Some((m, Trim(w)));
    assert ValueLines(v)[1..] == [StripCr(l)] && StripCr(l) in ValueLines(v)[1..];
    KeyLinesOf(n, v);
    assert KeyLines([(n, v)]) == [KeyLine(n, v)];
    assert [] + [KeyLine(n, v)] + [] == [KeyLine(n, v)];
    LinesOfPieces([KeyLine(n, v)]);
    assert AllLines([KeyLine(n, v)]) == [KeyLine(n, ValueLines(v)[0]), StripCr(l)];
    ReadTwo(KeyLine(n, ValueLines(v)[0]), StripCr(l), m);
  }

  lemma TwoLines(first: string, m: Name, w: string)
    requires ReadableName(m) && '\n' !in first && '\n' !in w
    ensures ValueLines(first + ['\n'] + KeyLine(m, w)) == [StripCr(first), StripCr(KeyLine(m, w))]
  {
    var l := KeyLine(m, w);
    ReadableUnbroken(m);
    Regroup(PREFIX, m, w);
    assert '\n' !in l;
    assert first + ['\n'] + l + ['\n'] == first + ['\n'] + (l + ['\n']);
    LinesStep(first, l + ['\n']);
    LinesStep(l, []);
    assert l + ['\n'] + [] == l + ['\n'];
  }

  lemma ReadTwo(a: string, b: string, m: Name)
    requires ReadLine(b).Some? && ReadLine(b).value.0 == m
    ensures ValueOf(ReadLines(map[], [a, b]), m) == ReadLine(b).value.1
  {
    var r := ReadLine(a);
    var next: Keys := if r.Some? then map[r.value.0 := r.value.1] else map[];
    assert [a, b][1..] == [b] && [b][1..] == [];
    assert ReadLines(next, [b]) == next[m := ReadLine(b).value.1];
  }

  // -- The entry of a deployment.

  datatype Deployment = Deployment(stateroot: string, bootcsum: string, bootserial: string)

  function MatchSuffix(d: Deployment): string {
    "/" + d.stateroot + "/" + d.bootcsum + "/" + d.bootserial
  }

  ghost predicate SlashFree(d: Deployment) {
    '/' !in d.stateroot && '/' !in d.bootcsum && '/' !in d.bootserial
  }

  /** An `ostree=` argument that names the deployment. */
  predicate ArgMatches(arg: string, d: Deployment) {
    "ostree=" <= arg && EndsWith(arg[|"ostree="|..], MatchSuffix(d))
  }

  predicate EntryMatches(content: string, d: Deployment) {
    exists line :: line in Lines(content) && "options " <= line && exists arg :: arg in Words(line) && ArgMatches(arg, d)
  }

  /** What follows the last slash is determined by the whole. */
  lemma LastPartUnique(x: string, c: string, y: string, d: string)
    requires '/' !in c && '/' !in d
    requires EndsWith(x, "/" + c) && EndsWith(y, "/" + d) && x == y
    ensures c == d
  {
    var p, q := |x| - |c| - 1, |y| - |d| - 1;
    assert x[p..] == "/" + c && y[q..] == "/" + d;
    assert x[p] == '/' && y[q] == '/';
    assert forall i :: p < i < |x| ==> x[i] == c[i - p - 1];
    assert forall i :: q < i < |y| ==> y[i] == d[i - q - 1];
    assert p == q;
    assert c == x[p..][1..] && d == y[q..][1..];
  }

  lemma DropLastPart(x: string, a: string, c: string)
    requires EndsWith(x, a + "/" + c)
    ensures EndsWith(x, "/" + c) && EndsWith(x[..|x| - |c| - 1], a)
  {
    var k := |x| - |a + "/" + c|;
    assert x[k..] == a + "/" + c;
    assert x[k..][|a|..] == "/" + c && x[k + |a|..] == x[k..][|a|..];
    assert x[k..][..|a|] == a && x[..|x| - |c| - 1][k..] == x[k..][..|a|];
  }

  /** A path matches at most one deployment whose parts hold no slash. */
  lemma MatchIsUnique(path: string, d: Deployment, e: Deployment)
    requires SlashFree(d) && SlashFree(e)
    requires EndsWith(path, MatchSuffix(d)) && EndsWith(path, MatchSuffix(e))
    ensures d == e
  {
    var d1, e1 := "/" + d.stateroot, "/" + e.stateroot;
    var d2, e2 := d1 + "/" + d.bootcsum, e1 + "/" + e.bootcsum;
    DropLastPart(path, d2, d.bootserial);
    DropLastPart(path, e2, e.bootserial);
    LastPartUnique(path, d.bootserial, path, e.bootserial);
    var rest := path[..|path| - |d.bootserial| - 1];
    DropLastPart(rest, d1, d.bootcsum);
    DropLastPart(rest, e1, e.bootcsum);
    LastPartUnique(rest, d.bootcsum, rest, e.bootcsum);
    var first := rest[..|rest| - |d.bootcsum| - 1];
    LastPartUnique(first, d.stateroot, first, e.stateroot);
  }

  /** An entry with one `ostree=` argument on its options lines matches at most one deployment. */
  lemma EntryMatchesOneDeployment(content: string, only: string, d: Deployment, e: Deployment)
    requires SlashFree(d) && SlashFree(e)
    requires forall line, arg :: line in Lines(content) && "options " <= line && arg in Words(line) && "ostree=" <= arg ==> arg == only
    requires EntryMatches(content, d) && EntryMatches(content, e)
    ensures d == e
  {
    MatchIsUnique(only[|"ostree="|..], d, e);
  }

  // -- The right entry matches.

  /** An argument names a deployment exactly if it is `ostree=`, any path, and the three parts. */
  lemma ArgMatchesIff(arg: string, d: Deployment)
    ensures ArgMatches(arg, d) <==>
            exists path: string :: arg == "ostree=" + (path + "/" + d.stateroot + "/" + d.bootcsum + "/" + d.bootserial)
  {
    var parts := "/" + d.stateroot + "/" + d.bootcsum + "/" + d.bootserial;
    if "ostree=" <= arg {
      EndsWithIff(arg[|"ostree="|..], parts);
      StripPrefix("ostree=", arg[|"ostree="|..]);
      assert arg == "ostree=" + arg[|"ostree="|..];
    }
    if ArgMatches(arg, d) {
      var path: string :| arg[|"ostree="|..] == path + parts;
      PartsBehind(path, d);
    }
    if path: string :| arg == "ostree=" + (path + "/" + d.stateroot + "/" + d.bootcsum + "/" + d.bootserial) {
      PartsBehind(path, d);
      StripPrefix("ostree=", path + parts);
    }
  }

  lemma PartsBehind(path: string, d: Deployment)
    ensures path + "/" + d.stateroot + "/" + d.bootcsum + "/" + d.bootserial ==
            path + ("/" + d.stateroot + "/" + d.bootcsum + "/" + d.bootserial)
  {
  }

  function OstreeArg(path: string, d: Deployment): string {
    "ostree=" + (path + "/" + d.stateroot + "/" + d.bootcsum + "/" + d.bootserial)
  }

  /** The entry of a deployment is found: whatever other lines and arguments it has. */
  lemma WrittenEntryMatches(before: seq<string>, args: seq<string>, after: seq<string>, path: string, d: Deployment)
    requires forall l :: l in before + after ==> '\n' !in l
    requires forall w :: w in args ==> IsWord(w)
    requires OstreeArg(path, d) in args
    ensures EntryMatches(Unlines(before + ["options " + JoinWords(args)] + after), d)
  {
    var arg, line := OstreeArg(path, d), "options " + JoinWords(args);
    var lines := before + [line] + after;
    OptionsLine(args);
    LinesOfPieces(lines);
    AllLinesConcat(before + [line], after);
    AllLinesConcat(before, [line]);
    assert AllLines([line]) == Lines(line + ['\n']) + [];
    LinesOne(line);
    assert StripCr(line) == line;
    assert line in Lines(Unlines(lines));
    ArgMatchesIff(arg, d);
    assert arg in Words(line);
  }

  lemma OptionsLine(args: seq<string>)
    requires args != [] && forall w :: w in args ==> IsWord(w)
    ensures var line := "options " + JoinWords(args);
            '\n' !in line && StripCr(line) == line && Words(line) == ["options"] + args
  {
    var line := "options " + JoinWords(args);
    JoinIsPlain(args);
    assert line[|line| - 1] == JoinWords(args)[|JoinWords(args)| - 1];
    assert "options " == "options" + [' '];
    assert IsWord("options");
    WordThenSpace("options", JoinWords(args));
    WordsOfJoin(args);
  }

  lemma {:induction false} JoinIsPlain(ws: seq<string>)
    requires ws != [] && forall w :: w in ws ==> IsWord(w)
    ensures var s := JoinWords(ws); s != "" && '\n' !in s && s[|s| - 1] != '\r'
    decreases |ws|
  {
    assert ws[0] in ws;
    if |ws| > 1 {
      JoinIsPlain(ws[1..]);
    }
  }

  /** An entry whose only `ostree=` argument names one deployment matches that one and no other. */
  lemma EntryMatchesIff(content: string, line: string, path: string, d: Deployment, e: Deployment)
    requires SlashFree(d) && SlashFree(e)
    requires line in Lines(content) && "options " <= line && OstreeArg(path, e) in Words(line)
    requires forall l, arg :: l in Lines(content) && "options " <= l && arg in Words(l) && "ostree=" <= arg ==> arg == OstreeArg(path, e)
    ensures EntryMatches(content, d) <==> d == e
  {
    ArgMatchesIff(OstreeArg(path, e), e);
    assert EntryMatches(content, e);
    if EntryMatches(content, d) {
      EntryMatchesOneDeployment(content, OstreeArg(path, e), d, e);
    }
  }

  // -- Names, keys and the end of the text.

  /** A name is valid exactly if it is not empty and of ASCII letters, digits, hyphens and
      underscores. */
  lemma ValidNameIff(s: string)
    ensures ValidSourceName(s) <==>
            s != "" && forall i :: 0 <= i < |s| ==>
              var c := s[i] as int; 0x61 <= c <= 0x7A || 0x41 <= c <= 0x5A || 0x30 <= c <= 0x39 || c == 0x2D || c == 0x5F
  {
  }

  /** A key line as it stands in an entry, its name followed by any separator. */
  lemma WrittenKeyReads(n: Name, c: char, v: string)
    requires ReadableName(n) && c in SEPARATORS && Trim(v) != ""
    ensures ReadLine("x-options-source-" + n + [c] + v) == Some((n, Trim(v)))
  {
    var e := TrimEnd(v);
    BlankEnd(v);
    PrefixIsPlain(n);
    TrimBehindAny(PREFIX + n, c, v);
    RegroupAny(PREFIX, n, c, e);
    StripPrefix(PREFIX, n + [c] + e);
    KeyBehind(n, c, e);
  }

  lemma TrimBehindAny(head: string, c: char, v: string)
    requires head != "" && !IsWhitespace(head[0]) && TrimEnd(v) != ""
    ensures Trim(head + [c] + v) == head + [c] + TrimEnd(v)
  {
    TrimEndAppend(head + [c], v);
  }

  lemma RegroupAny(p: string, n: string, c: char, v: string)
    ensures p + n + [c] + v == p + (n + [c] + v)
  {
  }

  lemma KeyBehind(n: Name, c: char, e: string)
    requires IsWord(n) && c in SEPARATORS && Trim(e) != ""
    ensures ReadKey(n + [c] + e) == Some((n, Trim(e)))
  {
    var rest := n + [c] + e;
    assert rest[|n|] == c;
    assert forall i :: 0 <= i < |n| ==> rest[i] == n[i];
    assert WordLength(rest) == |n|;
    assert rest[..|n|] == n && rest[|n| + 1..] == e;
  }

  /** Reading a text whose last line has no line feed. */
  lemma ReadLast(a: string, l: string)
    requires AtLineEnd(a) && l != "" && '\n' !in l
    ensures ReadLines(map[], Lines(a + l)) == ReadLines(ReadLines(map[], Lines(a)), [l])
  {
    LinesAppend(a, l);
    LastLine(l);
    ReadLinesConcat(map[], Lines(a), [l]);
  }

  lemma SeparatorIff(c: char)
    ensures IsAsciiWhitespace(c) <==> c in SEPARATORS
  {
    if c !in SEPARATORS {
      NotSeparator(c);
    }
  }

  ghost predicate PlainName(n: Name) {
    n != "" && forall i :: 0 <= i < |n| ==> n[i] !in SEPARATORS
  }

  lemma PlainNameIff(n: Name)
    ensures PlainName(n) <==> IsWord(n)
  {
    forall c ensures IsAsciiWhitespace(c) <==> c in SEPARATORS { SeparatorIff(c); }
  }

  lemma ReadKeyIff(rest: string, n: Name, v: string)
    ensures ReadKey(rest) == Some((n, v)) <==>
            PlainName(n) && v != "" && exists c: char, w: string :: c in SEPARATORS && rest == n + [c] + w && Trim(w) == v
  {
    PlainNameIff(n);
    if ReadKey(rest) == Some((n, v)) {
      var k := WordLength(rest);
      SeparatorIff(rest[k]);
      assert rest == n + [rest[k]] + rest[k + 1..];
    }
    if c: char, w: string :| PlainName(n) && v != "" && c in SEPARATORS && rest == n + [c] + w && Trim(w) == v {
      KeyBehind(n, c, w);
    }
  }

  /** A line sets a source exactly if it reads, trimmed, as the prefix, a name without whitespace,
      one whitespace character, and a value that is not blank. */
  lemma ReadLineIff(l: string, n: Name, v: string)
    ensures ReadLine(l) == Some((n, v)) <==>
            PlainName(n) && v != "" &&
            exists c: char, w: string :: c in SEPARATORS && Trim(l) == "x-options-source-" + (n + [c] + w) && Trim(w) == v
  {
    var t := Trim(l);
    if PREFIX <= t {
      ReadKeyIff(t[|PREFIX|..], n, v);
      assert t == PREFIX + t[|PREFIX|..];
    }
    if ReadLine(l) == Some((n, v)) {
      var c: char, w: string :| c in SEPARATORS && t[|PREFIX|..] == n + [c] + w && Trim(w) == v;
      assert t == PREFIX + (n + [c] + w);
    }
    if c: char, w: string :| PlainName(n) && v != "" && c in SEPARATORS && t == PREFIX + (n + [c] + w) && Trim(w) == v {
      StripPrefix(PREFIX, n + [c] + w);
    }
  }

  /** A later line overrides the earlier ones. */
  lemma LaterLineWins(sources: Keys, lines: seq<string>, l: string)
    ensures ReadLines(sources, lines + [l]) ==
            var before := ReadLines(sources, lines);
            if ReadLine(l).Some? then before[ReadLine(l).value.0 := ReadLine(l).value.1] else before
  {
    ReadLinesConcat(sources, lines, [l]);
    assert [l][1..] == [];
  }
}
