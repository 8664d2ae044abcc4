/** The string operations of the text formats: whitespace, lines, words and trimming. */
module Text {

  predicate IsAsciiWhitespace(c: char) {
    c == ' ' || c == '\t' || c == '\n' || c == '\r' || c as int == 0x0C
  }

  /** The Unicode White_Space property, which trimming uses. */
  predicate IsWhitespace(c: char) {
    var n := c as int;
    || 0x09 <= n <= 0x0D || n == 0x20 || n == 0x85 || n == 0xA0 || n == 0x1680
    || 0x2000 <= n <= 0x200A || n == 0x2028 || n == 0x2029 || n == 0x202F || n == 0x205F || n == 0x3000
  }

  function TrimStart(s: string): (r: string)
    ensures r != [] ==> !IsWhitespace(r[0])
    ensures s != [] && !IsWhitespace(s[0]) ==> r == s
  {
    if s != [] && IsWhitespace(s[0]) then TrimStart(s[1..]) else s
  }

  function TrimEnd(s: string): (r: string)
    ensures r <= s
    ensures r != [] ==> !IsWhitespace(r[|r| - 1])
    ensures s != [] && !IsWhitespace(s[|s| - 1]) ==> r == s
  {
    if s != [] && IsWhitespace(s[|s| - 1]) then TrimEnd(s[..|s| - 1]) else s
  }

  function Trim(s: string): string {
    TrimEnd(TrimStart(s))
  }

  /** Trimming after other text trims the end, or leaves the other text trimmed. */
  lemma {:induction false} TrimEndAppend(a: string, s: string)
    ensures TrimEnd(a + s) == if TrimEnd(s) == "" then TrimEnd(a) else a + TrimEnd(s)
    decreases |s|
  {
    if s == [] {
      assert a + s == a;
    } else {
      var t := s[..|s| - 1];
      assert (a + s)[|a + s| - 1] == s[|s| - 1];
      if IsWhitespace(s[|s| - 1]) {
        assert (a + s)[..|a + s| - 1] == a + t;
        TrimEndAppend(a, t);
      }
    }
  }

  /** The two ends can be trimmed in either order. */
  lemma {:induction false} TrimCommutes(s: string)
    ensures TrimStart(TrimEnd(s)) == Trim(s)
    decreases |s|
  {
    if s != [] {
      assert s == [s[0]] + s[1..];
      TrimEndAppend([s[0]], s[1..]);
      if IsWhitespace(s[0]) {
        TrimCommutes(s[1..]);
        assert TrimEnd([s[0]]) == "";
        if TrimEnd(s[1..]) != "" {
          assert TrimEnd(s)[1..] == TrimEnd(s[1..]);
        }
      } else {
        assert TrimEnd(s) != "" && TrimEnd(s)[0] == s[0];
      }
    }
  }

  lemma TrimTwice(s: string)
    ensures Trim(Trim(s)) == Trim(s)
  {
    TrimCommutes(s);
    var t := TrimEnd(s);
    assert Trim(s) == TrimStart(t);
  }

  lemma {:induction false} TrimStartIsPart(s: string)
    ensures exists k :: 0 <= k <= |s| && TrimStart(s) == s[k..]
  {
    if s != [] && IsWhitespace(s[0]) {
      TrimStartIsPart(s[1..]);
      var k :| 0 <= k <= |s[1..]| && TrimStart(s[1..]) == s[1..][k..];
      assert s[1..][k..] == s[k + 1..];
    } else {
      assert s == s[0..];
    }
  }

  lemma TrimIsPart(s: string)
    ensures forall c :: c in Trim(s) ==> c in s
  {
    TrimStartIsPart(s);
  }

  /** The code points with the Unicode property White_Space. */
  const WHITE_SPACE := {0x09, 0x0A, 0x0B, 0x0C, 0x0D, 0x20, 0x85, 0xA0, 0x1680,
                        0x2000, 0x2001, 0x2002, 0x2003, 0x2004, 0x2005, 0x2006, 0x2007, 0x2008, 0x2009, 0x200A,
                        0x2028, 0x2029, 0x202F, 0x205F, 0x3000}

  ghost predicate White(c: char) {
    c as int in WHITE_SPACE
  }

  ghost predicate AllWhite(s: string) {
    forall i :: 0 <= i < |s| ==> White(s[i])
  }

  lemma WhiteIff(c: char)
    ensures White(c) <==> IsWhitespace(c)
  {
  }

  lemma {:induction false} TrimStartExact(s: string) returns (a: string)
    ensures s == a + TrimStart(s) && AllWhite(a)
  {
    a := "";
    if s != [] && IsWhitespace(s[0]) {
      var b := TrimStartExact(s[1..]);
      a := [s[0]] + b;
      WhiteIff(s[0]);
      assert s == [s[0]] + s[1..];
    }
  }

  lemma {:induction false} TrimEndExact(s: string) returns (b: string)
    ensures s == TrimEnd(s) + b && AllWhite(b)
  {
    b := "";
    if s != [] && IsWhitespace(s[|s| - 1]) {
      var a := TrimEndExact(s[..|s| - 1]);
      b := a + [s[|s| - 1]];
      WhiteIff(s[|s| - 1]);
      assert s == s[..|s| - 1] + [s[|s| - 1]];
    }
  }

  lemma TrimEnds(s: string)
    ensures var t := Trim(s); t != "" ==> !IsWhitespace(t[0]) && !IsWhitespace(t[|t| - 1])
  {
    var r := TrimStart(s);
    assert TrimEnd(r) <= r;
  }

  /** Trimming takes whitespace off both ends, and nothing else, until there is none. */
  lemma TrimExact(s: string) returns (a: string, b: string)
    ensures s == a + Trim(s) + b && AllWhite(a) && AllWhite(b)
    ensures var t := Trim(s); t != "" ==> !White(t[0]) && !White(t[|t| - 1])
  {
    a := TrimStartExact(s);
    b := TrimEndExact(TrimStart(s));
    assert a + (Trim(s) + b) == a + Trim(s) + b;
    TrimEnds(s);
    var t := Trim(s);
    if t != "" {
      WhiteIff(t[0]);
      WhiteIff(t[|t| - 1]);
    }
  }

  // -- Lines.

  /** Index of the first `c`, or the length. */
  function IndexOf(s: string, c: char): (k: nat)
    ensures k <= |s| && (k < |s| ==> s[k] == c)
    ensures forall i :: 0 <= i < k ==> s[i] != c
  {
    if s == [] || s[0] == c then 0 else 1 + IndexOf(s[1..], c)
  }

  function StripCr(s: string): string {
    if s != [] && s[|s| - 1] == '\r' then s[..|s| - 1] else s
  }

  /** Lines end at a line feed, which is dropped together with one carriage return before it.
      A last line without a line feed is kept as it is. */
  function Lines(s: string): seq<string>
    decreases |s|
  {
    if s == [] then []
    else
      var k := IndexOf(s, '\n');
      if k == |s| then [s] else [StripCr(s[..k])] + Lines(s[k + 1..])
  }

  function Unlines(lines: seq<string>): string {
    if lines == [] then [] else lines[0] + ['\n'] + Unlines(lines[1..])
  }

  lemma UnlinesConcat(a: seq<string>, b: seq<string>)
    ensures Unlines(a + b) == Unlines(a) + Unlines(b)
  {
    if a == [] {
      assert a + b == b;
    } else {
      assert (a + b)[1..] == a[1..] + b;
      UnlinesConcat(a[1..], b);
    }
  }

  lemma IndexOfAppend(s: string, c: char, rest: string)
    requires c !in s
    ensures IndexOf(s + [c] + rest, c) == |s|
  {
    var k := IndexOf(s + [c] + rest, c);
    assert (s + [c] + rest)[|s|] == c;
    assert forall i :: 0 <= i < |s| ==> (s + [c] + rest)[i] == s[i];
  }

  lemma LinesStep(l: string, rest: string)
    requires '\n' !in l
    ensures Lines(l + ['\n'] + rest) == [StripCr(l)] + Lines(rest)
  {
    var s := l + ['\n'] + rest;
    IndexOfAppend(l, '\n', rest);
    assert s[..|l|] == l && s[|l| + 1..] == rest;
  }

  /** Reading back written lines costs each of them one trailing carriage return. */
  lemma {:induction false} LinesOfUnlines(lines: seq<string>)
    requires forall l :: l in lines ==> '\n' !in l
    ensures Lines(Unlines(lines)) == seq(|lines|, i requires 0 <= i < |lines| => StripCr(lines[i]))
    decreases |lines|
  {
    if lines != [] {
      LinesOfUnlines(lines[1..]);
      LinesStep(lines[0], Unlines(lines[1..]));
    }
  }

  lemma FirstBreak(t: string) returns (a: string, b: string)
    requires '\n' in t
    ensures '\n' !in a && t == a + ['\n'] + b && |b| < |t|
  {
    var k := IndexOf(t, '\n');
    a, b := t[..k], t[k + 1..];
  }

  lemma Reassociate<T>(a: seq<T>, b: seq<T>, c: seq<T>, d: seq<T>, e: seq<T>)
    ensures (a + b + c) + d + e == a + b + (c + d + e)
    ensures (a + b + c) + d == a + b + (c + d)
    ensures e + (a + b + c) == (e + a) + b + c
  {
  }

  /** Lines of a text that ends in a line feed and goes on after it. */
  lemma {:induction false} LinesSplit(l: string, rest: string)
    ensures Lines(l + ['\n'] + rest) == Lines(l + ['\n']) + Lines(rest)
    decreases |l|
  {
    if '\n' !in l {
      LinesStep(l, rest);
      LinesOne(l);
    } else {
      var a, b := FirstBreak(l);
      LinesSplit(b, rest);
      Reassociate(a, ['\n'], b, ['\n'], rest);
      LinesStep(a, b + ['\n'] + rest);
      LinesStep(a, b + ['\n']);
      Reassociate([StripCr(a)], [], Lines(b + ['\n']), Lines(rest), []);
      assert [StripCr(a)] + [] == [StripCr(a)];
    }
  }

  lemma LinesOne(l: string)
    requires '\n' !in l
    ensures Lines(l + ['\n']) == [StripCr(l)]
  {
    LinesStep(l, []);
    assert l + ['\n'] + [] == l + ['\n'];
  }

  lemma StripCrBehind(head: string, a: string)
    requires head != "" && head[|head| - 1] != '\r'
    ensures StripCr(head + a) == head + StripCr(a)
  {
  }

  /** Text put in front of the first line. */
  lemma LinesBehind(head: string, s: string)
    requires '\n' !in head && head != "" && head[|head| - 1] != '\r'
    ensures Lines(s + ['\n']) != []
    ensures var ls := Lines(s + ['\n']); Lines(head + s + ['\n']) == [head + ls[0]] + ls[1..]
  {
    var t := s + ['\n'];
    assert t[|s|] == '\n';
    assert head + s + ['\n'] == head + t;
    var a, b := FirstBreak(t);
    Reassociate(a, ['\n'], b, [], head);
    LinesBehindBreak(head, a, b);
  }

  lemma LinesBehindBreak(head: string, a: string, b: string)
    requires '\n' !in head && head != "" && head[|head| - 1] != '\r' && '\n' !in a
    ensures Lines(a + ['\n'] + b) != []
    ensures var ls := Lines(a + ['\n'] + b); Lines((head + a) + ['\n'] + b) == [head + ls[0]] + ls[1..]
  {
    LinesStep(a, b);
    LinesStep(head + a, b);
    StripCrBehind(head, a);
    HeadAndTail(StripCr(a), Lines(b));
  }

  lemma HeadAndTail<T>(x: T, s: seq<T>)
    ensures ([x] + s)[0] == x && ([x] + s)[1..] == s
  {
  }

  lemma {:induction false} LinesHaveNoBreak(s: string)
    ensures forall l :: l in Lines(s) ==> '\n' !in l
    decreases |s|
  {
    if s != [] {
      var k := IndexOf(s, '\n');
      assert '\n' !in s[..k];
      if k < |s| {
        LinesHaveNoBreak(s[k + 1..]);
        assert '\n' !in StripCr(s[..k]);
      } else {
        assert s[..k] == s;
      }
    }
  }

  /** A last line without a line feed is a line, as it is. */
  lemma LastLine(l: string)
    requires l != "" && '\n' !in l
    ensures Lines(l) == [l]
  {
    assert IndexOf(l, '\n') == |l|;
  }

  /** `a` ends where a line ends. */
  predicate AtLineEnd(a: string) {
    a == "" || a[|a| - 1] == '\n'
  }

  lemma LinesAppend(a: string, s: string)
    requires AtLineEnd(a)
    ensures Lines(a + s) == Lines(a) + Lines(s)
  {
    if a == "" {
      assert a + s == s;
    } else {
      var b := a[..|a| - 1];
      assert a == b + ['\n'];
      LinesSplit(b, s);
    }
  }

  /** Apart from carriage returns, writing the lines gives the text back; a last line gets the
      line feed that it lacked. */
  lemma {:induction false} UnlinesOfLines(s: string)
    requires '\r' !in s
    ensures Unlines(Lines(s)) == if AtLineEnd(s) then s else s + ['\n']
    decreases |s|
  {
    if '\n' in s {
      var a, b := FirstBreak(s);
      UnlinesOfLines(b);
      BreakGivesBack(a, b);
    } else if s != "" {
      LastLine(s);
      UnlinesHead(s, []);
      assert [s] == [s] + [];
    }
  }

  lemma BreakGivesBack(a: string, b: string)
    requires '\n' !in a && '\r' !in a
    requires Unlines(Lines(b)) == if AtLineEnd(b) then b else b + ['\n']
    ensures var s := a + ['\n'] + b; Unlines(Lines(s)) == if AtLineEnd(s) then s else s + ['\n']
  {
    var s := a + ['\n'] + b;
    LinesStep(a, b);
    assert StripCr(a) == a;
    UnlinesHead(a, Lines(b));
    EndOfBreak(a, b);
  }

  lemma EndOfBreak(a: string, b: string)
    ensures var s := a + ['\n'] + b; (AtLineEnd(s) <==> AtLineEnd(b)) && a + ['\n'] + (b + ['\n']) == s + ['\n']
  {
    var s := a + ['\n'] + b;
    assert b != "" ==> s[|s| - 1] == b[|b| - 1];
    assert b == "" ==> s[|s| - 1] == '\n';
  }

  lemma UnlinesHead(l: string, rest: seq<string>)
    ensures Unlines([l] + rest) == l + ['\n'] + Unlines(rest)
  {
    assert ([l] + rest)[1..] == rest;
  }

  // -- Words.

  /** Length of the leading run without whitespace. */
  function WordLength(s: string): (k: nat)
    ensures k <= |s|
    ensures forall i :: 0 <= i < k ==> !IsAsciiWhitespace(s[i])
    ensures k < |s| ==> IsAsciiWhitespace(s[k])
  {
    if s == [] || IsAsciiWhitespace(s[0]) then 0 else 1 + WordLength(s[1..])
  }

  function Words(s: string): seq<string>
    decreases |s|
  {
    if s == [] then []
    else if IsAsciiWhitespace(s[0]) then Words(s[1..])
    else var k := WordLength(s); assert k > 0; [s[..k]] + Words(s[k..])
  }

  predicate IsWord(w: string) {
    w != [] && forall i :: 0 <= i < |w| ==> !IsAsciiWhitespace(w[i])
  }

  lemma {:induction false} WordsAreWords(s: string)
    ensures forall w :: w in Words(s) ==> IsWord(w)
    decreases |s|
  {
    if s != [] {
      if IsAsciiWhitespace(s[0]) {
        WordsAreWords(s[1..]);
      } else {
        WordsAreWords(s[WordLength(s)..]);
      }
    }
  }

  /** What separates words: space, tab, line feed, carriage return and form feed. */
  const SEPARATORS := [' ', '\t', '\n', '\r', 0x0C as char]

  /** Words end at separators, and only there. */
  lemma {:induction false} WordsOfSeparated(a: string, c: char, b: string)
    requires c in SEPARATORS
    ensures Words(a + [c] + b) == Words(a) + Words(b)
    decreases |a|
  {
    var s := a + [c] + b;
    if a == [] {
      assert s[1..] == b;
    } else if IsAsciiWhitespace(a[0]) {
      assert s[1..] == a[1..] + [c] + b;
      WordsOfSeparated(a[1..], c, b);
    } else {
      var k := WordLength(a);
      SameFirstWord(a, c, b);
      WordsOfSeparated(a[k..], c, b);
    }
  }

  lemma SameFirstWord(a: string, c: char, b: string)
    requires IsAsciiWhitespace(c)
    ensures var s, k := a + [c] + b, WordLength(a);
            WordLength(s) == k && s[..k] == a[..k] && s[k..] == a[k..] + [c] + b
  {
    var s, k := a + [c] + b, WordLength(a);
    assert s[k] == if k < |a| then a[k] else c;
    assert forall i :: 0 <= i < k ==> s[i] == a[i];
    assert WordLength(s) == k;
  }

  lemma OneWord(w: string)
    requires w != "" && forall i :: 0 <= i < |w| ==> w[i] !in SEPARATORS
    ensures Words(w) == [w]
  {
    forall i | 0 <= i < |w| ensures !IsAsciiWhitespace(w[i]) {
      NotSeparator(w[i]);
    }
    WordThenSpace(w, []);
  }

  lemma NotSeparator(c: char)
    requires c !in SEPARATORS
    ensures !IsAsciiWhitespace(c)
  {
    assert SEPARATORS[0] == ' ' && SEPARATORS[1] == '\t' && SEPARATORS[2] == '\n' && SEPARATORS[3] == '\r';
    assert SEPARATORS[4] == 0x0C as char;
  }

  lemma {:induction false} WordsBeforeSpace(s: string, c: char)
    requires IsAsciiWhitespace(c)
    ensures Words(s + [c]) == Words(s)
    decreases |s|
  {
    var t := s + [c];
    if s == [] {
      assert t[1..] == [];
    } else if IsAsciiWhitespace(s[0]) {
      assert t[1..] == s[1..] + [c];
      WordsBeforeSpace(s[1..], c);
    } else {
      var k := WordLength(s);
      assert t[k] == if k < |s| then s[k] else c;
      assert forall i :: 0 <= i < k ==> t[i] == s[i];
      assert WordLength(t) == k;
      assert t[..k] == s[..k] && t[k..] == s[k..] + [c];
      WordsBeforeSpace(s[k..], c);
    }
  }

  lemma {:induction false} WordsOfTrimEnd(s: string)
    requires forall i :: 0 <= i < |s| && IsWhitespace(s[i]) ==> IsAsciiWhitespace(s[i])
    ensures Words(TrimEnd(s)) == Words(s)
  {
    if s != [] && IsWhitespace(s[|s| - 1]) {
      var t := s[..|s| - 1];
      WordsOfTrimEnd(t);
      assert s == t + [s[|s| - 1]];
      WordsBeforeSpace(t, s[|s| - 1]);
    }
  }

  /** Where all whitespace is ASCII whitespace, trimming loses no word. */
  lemma {:induction false} WordsOfTrim(s: string)
    requires forall i :: 0 <= i < |s| && IsWhitespace(s[i]) ==> IsAsciiWhitespace(s[i])
    ensures Words(Trim(s)) == Words(s)
  {
    if s != [] && IsWhitespace(s[0]) {
      WordsOfTrim(s[1..]);
    } else {
      WordsOfTrimEnd(s);
    }
  }

  /** Words with one space between them. */
  function JoinWords(ws: seq<string>): string {
    if ws == [] then [] else if |ws| == 1 then ws[0] else ws[0] + [' '] + JoinWords(ws[1..])
  }

  lemma WordThenSpace(w: string, rest: string)
    requires IsWord(w)
    ensures Words(w + [' '] + rest) == [w] + Words(rest)
    ensures Words(w) == [w]
  {
    var s := w + [' '] + rest;
    assert s[|w|] == ' ';
    assert forall i :: 0 <= i < |w| ==> s[i] == w[i];
    assert WordLength(s) == |w|;
    assert s[..|w|] == w && s[|w|..] == [' '] + rest && ([' '] + rest)[1..] == rest;
    assert WordLength(w) == |w| && w[..|w|] == w && w[|w|..] == [];
  }

  lemma {:induction false} WordsOfJoin(ws: seq<string>)
    requires forall w :: w in ws ==> IsWord(w)
    ensures Words(JoinWords(ws)) == ws
    decreases |ws|
  {
    if |ws| == 1 {
      WordThenSpace(ws[0], []);
    } else if |ws| > 1 {
      WordsOfJoin(ws[1..]);
      WordThenSpace(ws[0], JoinWords(ws[1..]));
    }
  }

  predicate Contains(s: string, sub: string) {
    exists k :: 0 <= k <= |s| && sub <= s[k..]
  }

  predicate EndsWith(s: string, suffix: string) {
    |suffix| <= |s| && s[|s| - |suffix|..] == suffix
  }

  /** The pieces between separators; one more than there are separators. */
  function SplitOn(s: string, c: char): (r: seq<string>)
    ensures r != []
    decreases |s|
  {
    var k := IndexOf(s, c);
    if k == |s| then [s] else [s[..k]] + SplitOn(s[k + 1..], c)
  }

  lemma ContainsIff(s: string, sub: string)
    ensures Contains(s, sub) <==> exists a: string, b: string :: s == a + sub + b
  {
    if Contains(s, sub) {
      var k :| 0 <= k <= |s| && sub <= s[k..];
      assert s == s[..k] + sub + s[k + |sub|..];
    }
    if a: string, b: string :| s == a + sub + b {
      assert s[|a|..] == sub + b;
      assert sub <= s[|a|..];
    }
  }

  lemma EndsWithIff(s: string, suffix: string)
    ensures EndsWith(s, suffix) <==> exists a: string :: s == a + suffix
  {
    if EndsWith(s, suffix) {
      var k := |s| - |suffix|;
      assert s == s[..k] + suffix;
    }
    if a: string :| s == a + suffix {
      assert s[|a|..] == suffix;
    }
  }

  function JoinOn(pieces: seq<string>, c: char): string
    requires pieces != []
  {
    if |pieces| == 1 then pieces[0] else pieces[0] + [c] + JoinOn(pieces[1..], c)
  }

  /** Splitting undoes joining. */
  lemma {:induction false} SplitOfJoin(pieces: seq<string>, c: char)
    requires pieces != [] && forall p :: p in pieces ==> c !in p
    ensures SplitOn(JoinOn(pieces, c), c) == pieces
    decreases |pieces|
  {
    var s, first := JoinOn(pieces, c), pieces[0];
    assert first in pieces;
    if |pieces| == 1 {
      assert IndexOf(s, c) == |s|;
    } else {
      SplitOfJoin(pieces[1..], c);
      IndexOfAppend(first, c, JoinOn(pieces[1..], c));
      assert s[..|first|] == first && s[|first| + 1..] == JoinOn(pieces[1..], c);
    }
  }
}
