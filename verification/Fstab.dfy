/** Adding `ro` to the root entry of /etc/fstab, and the boot-time scan that decides whether to
    do it. */
module Fstab {
  import opened Common
  import opened Text

  const ANACONDA_STAMP := "Created by anaconda"
  const EDITED_STAMP := "Updated by bootc-fstab-edit.service"
  const STAMP_LINE := "# " + EDITED_STAMP

  predicate IsComment(line: string) {
    line != [] && line[0] == '#'
  }

  predicate HasRo(options: string) {
    "ro" in SplitOn(options, ',')
  }

  /** A root entry with options that is not a comment and does not carry `ro`. */
  predicate NeedsEdit(line: string) {
    var parts := Words(line);
    !IsComment(line) && |parts| > 3 && parts[1] == "/" && !HasRo(parts[3])
  }

  function EditedFields(line: string): seq<string>
    requires |Words(line)| > 3
  {
    var parts := Words(line);
    parts[3 := parts[3] + ",ro"]
  }

  /** The lines that take the place of one line. */
  function EditLine(line: string): seq<string> {
    if NeedsEdit(line) then [STAMP_LINE, JoinWords(EditedFields(line))] else [line]
  }

  function EditLines(lines: seq<string>): seq<string> {
    if lines == [] then [] else EditLine(lines[0]) + EditLines(lines[1..])
  }

  function Rewrite(text: string): string {
    Unlines(EditLines(Lines(text)))
  }

  predicate AnyEdited(text: string) {
    exists l :: l in Lines(text) && NeedsEdit(l)
  }

  // -- The rewriter.

  lemma {:induction false} JoinSnoc(ws: seq<string>, w: string)
    ensures JoinWords(ws + [w]) == JoinWords(ws) + (if ws == [] then w else [' '] + w)
    decreases |ws|
  {
    if ws == [] {
      assert ws + [w] == [w];
    } else {
      assert (ws + [w])[1..] == ws[1..] + [w];
      JoinSnoc(ws[1..], w);
      if |ws| == 1 {
        assert ws[1..] + [w] == [w];
        assert ws[0] + [' '] + w == ws[0] + ([' '] + w);
      } else {
        assert ws[0] + [' '] + (JoinWords(ws[1..]) + ([' '] + w)) == (ws[0] + [' '] + JoinWords(ws[1..])) + ([' '] + w);
      }
    }
  }

  /** The fields, the options among them replaced, with single spaces between. */
  method WriteParts(parts: seq<string>, options: string, w: string) returns (out: string)
    requires |parts| > 3
    ensures out == w + JoinWords(parts[3 := options])
  {
    out := w;
    var optionsIdx := 3;
    ghost var fields := parts[3 := options];
    assert fields[..0] == [] && w + JoinWords([]) == w;
    for i := 0 to |parts|
      invariant out == w + JoinWords(fields[..i])
    {
      assert fields[..i + 1] == fields[..i] + [fields[i]];
      JoinSnoc(fields[..i], fields[i]);
      if i > 0 { out := out + [' ']; }
      out := out + if i == optionsIdx then options else parts[i];
      assert out == w + JoinWords(fields[..i + 1]);
    }
    assert fields[..|parts|] == fields;
  }

  method EditFstabLine(line: string, w: string) returns (edited: bool, out: string)
    ensures edited == NeedsEdit(line)
    ensures out == if edited then w + Unlines(EditLine(line)) else w
  {
    out := w;
    if IsComment(line) { return false, out; }
    var parts := Words(line);
    var pathIdx, optionsIdx := 1, 3;
    if pathIdx >= |parts| || optionsIdx >= |parts| { return false, out; }
    if parts[pathIdx] != "/" { return false, out; }
    if HasRo(parts[optionsIdx]) { return false, out; }
    out := out + (STAMP_LINE + ['\n']);
    out := WriteParts(parts, parts[optionsIdx] + ",ro", out);
    out := out + ['\n'];
    edited := true;
    TwoLines(STAMP_LINE, JoinWords(EditedFields(line)));
    Regroup(w, STAMP_LINE + ['\n'], JoinWords(EditedFields(line)), ['\n']);
  }

  lemma Regroup(a: string, b: string, c: string, d: string)
    ensures a + b + c + d == a + (b + c + d)
  {
  }

  lemma TwoLines(a: string, b: string)
    ensures Unlines([a, b]) == a + ['\n'] + b + ['\n']
    ensures Unlines([a]) == a + ['\n']
  {
    assert [a, b][1..] == [b] && [b][1..] == [] && [a][1..] == [];
    assert Unlines([b]) == b + ['\n'] + [];
  }

  /** One line of the input, edited or as it is. */
  method WriteLine(line: string, w: string) returns (out: string)
    ensures out == w + Unlines(EditLine(line))
  {
    var edited;
    edited, out := EditFstabLine(line, w);
    if !edited {
      TwoLines(line, "");
      out := out + (line + ['\n']);
    }
  }

  method FixupEtcFstab(text: string) returns (out: string)
    ensures out == Rewrite(text)
  {
    var lines := Lines(text);
    out := [];
    assert lines[0..] == lines;
    for i := 0 to |lines|
      invariant out + Unlines(EditLines(lines[i..])) == Rewrite(text)
    {
      assert lines[i..][0] == lines[i] && lines[i..][1..] == lines[i + 1..];
      UnlinesConcat(EditLine(lines[i]), EditLines(lines[i + 1..]));
      Regroup(out, Unlines(EditLine(lines[i])), Unlines(EditLines(lines[i + 1..])), []);
      out := WriteLine(lines[i], out);
    }
    assert lines[|lines|..] == [] && out + [] == out;
  }

  // -- The scan at boot.

  predicate Scanned(text: string) {
    && (forall l :: l in Lines(text) ==> !Contains(l, EDITED_STAMP))
    && (exists l :: l in Lines(text) && Contains(l, ANACONDA_STAMP))
  }

  /** Whether the unit that runs the rewriter is generated. */
  method FstabGenerator(ostreeBooted: bool, fstab: Option<string>) returns (emit: bool)
    ensures emit <==> ostreeBooted && fstab.Some? && Scanned(fstab.value)
  {
    if !ostreeBooted { return false; }
    if fstab.Some? {
      var fromAnaconda := false;
      var lines := Lines(fstab.value);
      for i := 0 to |lines|
        invariant forall j :: 0 <= j < i ==> !Contains(lines[j], EDITED_STAMP)
        invariant fromAnaconda <==> exists j :: 0 <= j < i && Contains(lines[j], ANACONDA_STAMP)
      {
        if Contains(lines[i], EDITED_STAMP) { return false; }
        if Contains(lines[i], ANACONDA_STAMP) { fromAnaconda := true; }
      }
      return fromAnaconda;
    }
    return false;
  }

  // -- What the edit does to one line.

  lemma {:induction false} SplitOnLast(a: string, c: char, b: string)
    requires c !in b
    ensures b in SplitOn(a + [c] + b, c)
    decreases |a|
  {
    var s := a + [c] + b;
    var k := IndexOf(a, c);
    if k == |a| {
      IndexOfAppend(a, c, b);
      assert s[|a| + 1..] == b;
      assert IndexOf(b, c) == |b|;
      assert SplitOn(b, c) == [b];
      assert b in [s[..|a|]] + [b];
    } else {
      assert a == a[..k] + [c] + a[k + 1..];
      IndexOfAppend(a[..k], c, a[k + 1..] + [c] + b);
      assert s == a[..k] + [c] + (a[k + 1..] + [c] + b);
      assert s[k + 1..] == a[k + 1..] + [c] + b;
      SplitOnLast(a[k + 1..], c, b);
    }
  }

  /** The edited entry has the fields of the old one, with `ro` among its options. */
  lemma EditedEntry(line: string)
    requires NeedsEdit(line)
    ensures Words(EditLine(line)[1]) == Words(line)[3 := Words(line)[3] + ",ro"]
    ensures HasRo(Words(EditLine(line)[1])[3])
    ensures !NeedsEdit(EditLine(line)[0]) && !NeedsEdit(EditLine(line)[1])
  {
    var parts, fields := Words(line), EditedFields(line);
    WordsAreWords(line);
    forall w | w in fields ensures IsWord(w) {
      assert parts[3] in parts;
    }
    WordsOfJoin(fields);
    SplitOnLast(parts[3], ',', "ro");
    assert parts[3] + ",ro" == parts[3] + [','] + "ro";
  }

  lemma StripCrSameEntry(l: string)
    ensures NeedsEdit(StripCr(l)) <==> NeedsEdit(l)
  {
    if StripCr(l) != l {
      var s := StripCr(l);
      assert l == s + ['\r'];
      WordsBeforeSpace(s, '\r');
    }
  }

  lemma {:induction false} JoinEnd(ws: seq<string>)
    requires ws != [] && forall w :: w in ws ==> IsWord(w)
    ensures JoinWords(ws) != [] && !IsAsciiWhitespace(JoinWords(ws)[|JoinWords(ws)| - 1])
    decreases |ws|
  {
    if |ws| > 1 {
      JoinEnd(ws[1..]);
    } else {
      assert ws[0] in ws;
    }
  }

  lemma EditedKeepsNoCr(line: string)
    requires NeedsEdit(line)
    ensures forall l :: l in EditLine(line) ==> StripCr(l) == l
  {
    WordsAreWords(line);
    var fields := EditedFields(line);
    forall w | w in fields ensures IsWord(w) {
      assert Words(line)[3] in Words(line);
    }
    JoinEnd(fields);
  }

  lemma {:induction false} JoinNoBreak(ws: seq<string>)
    requires forall w :: w in ws ==> IsWord(w)
    ensures '\n' !in JoinWords(ws)
    decreases |ws|
  {
    if |ws| == 1 {
      assert ws[0] in ws;
    } else if |ws| > 1 {
      assert ws[0] in ws;
      JoinNoBreak(ws[1..]);
    }
  }

  lemma EditLineNoBreak(line: string)
    requires '\n' !in line
    ensures forall l :: l in EditLine(line) ==> '\n' !in l
  {
    if NeedsEdit(line) {
      WordsAreWords(line);
      var fields := EditedFields(line);
      forall w | w in fields ensures IsWord(w) {
        assert Words(line)[3] in Words(line);
      }
      JoinNoBreak(fields);
    }
  }

  // -- Whole texts.

  /** Every other line stays in place and order. */
  lemma {:induction false} EditLinesLocal(a: seq<string>, l: string, b: seq<string>)
    ensures EditLines(a + [l] + b) == EditLines(a) + EditLine(l) + EditLines(b)
    decreases |a|
  {
    if a == [] {
      assert a + [l] + b == [l] + b;
      assert ([l] + b)[1..] == b;
      assert EditLines(a) + EditLine(l) == EditLine(l);
    } else {
      assert (a + [l] + b)[1..] == a[1..] + [l] + b;
      EditLinesLocal(a[1..], l, b);
      assert EditLine(a[0]) + (EditLines(a[1..]) + EditLine(l) + EditLines(b)) ==
             (EditLine(a[0]) + EditLines(a[1..])) + EditLine(l) + EditLines(b);
    }
  }

  lemma {:induction false} EditLinesFrom(lines: seq<string>, m: string)
    ensures m in EditLines(lines) <==> exists l :: l in lines && m in EditLine(l)
    decreases |lines|
  {
    if lines != [] {
      EditLinesFrom(lines[1..], m);
      assert lines == [lines[0]] + lines[1..];
      if m in EditLine(lines[0]) {
        assert lines[0] in lines;
      }
    }
  }

  lemma {:induction false} NothingToEdit(lines: seq<string>)
    requires forall l :: l in lines ==> !NeedsEdit(l)
    ensures EditLines(lines) == lines
    decreases |lines|
  {
    if lines != [] {
      assert lines[0] in lines;
      NothingToEdit(lines[1..]);
    }
  }

  ghost function StripAll(lines: seq<string>): seq<string> {
    seq(|lines|, i requires 0 <= i < |lines| => StripCr(lines[i]))
  }

  lemma RewrittenLines(text: string)
    ensures Lines(Rewrite(text)) == StripAll(EditLines(Lines(text)))
  {
    var lines := Lines(text);
    LinesHaveNoBreak(text);
    forall m | m in EditLines(lines) ensures '\n' !in m {
      EditLinesFrom(lines, m);
      var l :| l in lines && m in EditLine(l);
      EditLineNoBreak(l);
    }
    LinesOfUnlines(EditLines(lines));
  }

  /** After the rewrite, every root entry with options that is not a comment carries `ro`. */
  lemma RewrittenIsReadOnly(text: string)
    ensures forall l :: l in Lines(Rewrite(text)) ==> !NeedsEdit(l)
  {
    RewrittenLines(text);
    var out := EditLines(Lines(text));
    forall l | l in Lines(Rewrite(text)) ensures !NeedsEdit(l) {
      var i :| 0 <= i < |out| && l == StripCr(out[i]);
      WrittenNeedsNoEdit(Lines(text), out[i]);
      StripCrSameEntry(out[i]);
    }
  }

  lemma WrittenNeedsNoEdit(lines: seq<string>, l: string)
    requires l in EditLines(lines)
    ensures !NeedsEdit(l)
  {
    EditLinesFrom(lines, l);
    var src :| src in lines && l in EditLine(src);
    if NeedsEdit(src) {
      EditedEntry(src);
      assert l == EditLine(src)[0] || l == EditLine(src)[1];
    }
  }

  /** The line with the given fields and what stands before them: it is edited exactly if it has
      four fields, the second is `/`, it does not start with a hash sign, and `ro` is none of the
      comma-separated options in the fourth. Then the stamp and the fields are written. */
  lemma EditedExactly(pad: string, fields: seq<string>, options: seq<string>)
    requires forall w :: w in fields ==> IsWord(w)
    requires forall i :: 0 <= i < |pad| ==> pad[i] in SEPARATORS
    requires options != [] && forall o :: o in options ==> ',' !in o
    requires |fields| > 3 ==> fields[3] == JoinOn(options, ',')
    ensures var line := pad + JoinWords(fields);
            EditLine(line) ==
            if && |fields| > 3 && fields[1] == "/" && "ro" !in options
               && (pad != "" || !("#" <= fields[0]))
            then ["# Updated by bootc-fstab-edit.service", JoinWords(fields[3 := fields[3] + ",ro"])]
            else [line]
  {
    var line := pad + JoinWords(fields);
    WordsBehindPad(pad, JoinWords(fields));
    WordsOfJoin(fields);
    CommentExactly(pad, fields);
    if |fields| > 3 {
      SplitOfJoin(options, ',');
    }
    StampSpelled();
  }

  lemma StampSpelled()
    ensures STAMP_LINE == "# Updated by bootc-fstab-edit.service"
  {
  }

  lemma CommentExactly(pad: string, fields: seq<string>)
    requires forall w :: w in fields ==> IsWord(w)
    requires forall i :: 0 <= i < |pad| ==> pad[i] in SEPARATORS
    ensures fields != [] ==> (IsComment(pad + JoinWords(fields)) <==> pad == "" && "#" <= fields[0])
  {
    var line := pad + JoinWords(fields);
    if fields != [] {
      assert fields[0] in fields;
      FirstOfJoin(fields);
      if pad != "" {
        PadIsNoComment(pad[0]);
        assert line[0] == pad[0];
      } else {
        assert line == JoinWords(fields);
      }
    }
  }

  lemma PadIsNoComment(c: char)
    requires c in SEPARATORS
    ensures c != '#'
  {
  }

  lemma FirstOfJoin(ws: seq<string>)
    requires ws != [] && ws[0] != ""
    ensures JoinWords(ws) != "" && JoinWords(ws)[0] == ws[0][0]
  {
  }

  lemma {:induction false} WordsBehindPad(pad: string, s: string)
    requires forall i :: 0 <= i < |pad| ==> pad[i] in SEPARATORS
    ensures Words(pad + s) == Words(s)
    decreases |pad|
  {
    if pad == "" {
      assert pad + s == s;
    } else {
      WordsBehindPad(pad[1..], s);
      WordsOfSeparated("", pad[0], pad[1..] + s);
      assert pad + s == "" + [pad[0]] + (pad[1..] + s);
    }
  }

  /** The rewrite of a text whose last line has no line feed. */
  lemma RewriteLast(a: string, l: string)
    requires AtLineEnd(a) && l != "" && '\n' !in l
    ensures Rewrite(a + l) == Rewrite(a) + Unlines(EditLine(l))
  {
    LinesAppend(a, l);
    LastLine(l);
    EditLinesLocal(Lines(a), l, []);
    assert Lines(a) + [l] + [] == Lines(a) + [l];
    assert EditLines(Lines(a)) + EditLine(l) + EditLines([]) == EditLines(Lines(a)) + EditLine(l);
    UnlinesConcat(EditLines(Lines(a)), EditLine(l));
  }

  /** A text without carriage returns in which nothing is to be edited stays as it is; a last line
      gets the line feed that it lacked. */
  lemma RewriteOfNothing(text: string)
    requires !AnyEdited(text) && '\r' !in text
    ensures Rewrite(text) == if AtLineEnd(text) then text else text + ['\n']
  {
    NothingToEdit(Lines(text));
    UnlinesOfLines(text);
  }

  // -- Idempotence.

  lemma {:induction false} StripShortens(lines: seq<string>)
    ensures |Unlines(StripAll(lines))| <= |Unlines(lines)|
    ensures Unlines(StripAll(lines)) == Unlines(lines) <==> forall l :: l in lines ==> StripCr(l) == l
    decreases |lines|
  {
    if lines != [] {
      var rest := lines[1..];
      StripShortens(rest);
      assert StripAll(lines)[1..] == StripAll(rest);
      assert lines == [lines[0]] + rest;
      if StripCr(lines[0]) == lines[0] {
        ConcatCancel(lines[0] + ['\n'], Unlines(StripAll(rest)), Unlines(rest));
      } else {
        assert lines[0] in lines;
        assert |Unlines(StripAll(lines))| < |Unlines(lines)|;
      }
    }
  }

  lemma ConcatCancel(a: string, b: string, c: string)
    ensures a + b == a + c <==> b == c
  {
    assert (a + b)[|a|..] == b && (a + c)[|a|..] == c;
  }

  /** The rewrite is idempotent exactly on texts none of whose lines, as read, both ends in a
      carriage return and is left alone: reading takes away one carriage return per pass. */
  lemma IdempotentIff(text: string)
    ensures Rewrite(Rewrite(text)) == Rewrite(text) <==>
            forall l :: l in Lines(text) && !NeedsEdit(l) ==> StripCr(l) == l
  {
    var lines := Lines(text);
    var out := EditLines(lines);
    RewrittenLines(text);
    RewrittenIsReadOnly(text);
    NothingToEdit(StripAll(out));
    StripShortens(out);
    assert Rewrite(Rewrite(text)) == Unlines(StripAll(out));
    if forall l :: l in lines && !NeedsEdit(l) ==> StripCr(l) == l {
      forall m | m in out ensures StripCr(m) == m {
        EditLinesFrom(lines, m);
        var l :| l in lines && m in EditLine(l);
        if NeedsEdit(l) {
          EditedKeepsNoCr(l);
        }
      }
    }
    forall l | l in lines && !NeedsEdit(l) ensures l in out {
      assert l in EditLine(l);
      EditLinesFrom(lines, l);
    }
  }

  lemma RewriteOneLine(l: string)
    requires '\n' !in l && !NeedsEdit(l)
    ensures Rewrite(l + ['\n']) == StripCr(l) + ['\n']
  {
    StripCrSameEntry(l);
    LinesStep(l, "");
    assert l + ['\n'] + "" == l + ['\n'];
    NothingToEdit([StripCr(l)]);
    TwoLines(StripCr(l), "");
  }

  /** Any line left alone, followed by two carriage returns, loses one on each of two passes. */
  lemma CarriageReturnsWearOff(l: string)
    requires '\n' !in l && !NeedsEdit(l)
    ensures var text := l + ['\r'] + ['\r'] + ['\n'];
            Rewrite(text) == l + ['\r'] + ['\n'] && Rewrite(Rewrite(text)) == l + ['\n'] != Rewrite(text)
  {
    var l1 := l + ['\r'];
    var l2 := l1 + ['\r'];
    assert StripCr(l1) == l && StripCr(l2) == l1;
    StripCrSameEntry(l1);
    StripCrSameEntry(l2);
    RewriteOneLine(l2);
    RewriteOneLine(l1);
    assert |l1 + ['\n']| > |l + ['\n']|;
  }

  // -- The scan after the rewrite.

  lemma ContainsStripCr(l: string, sub: string)
    requires sub != [] && sub[|sub| - 1] != '\r'
    ensures Contains(StripCr(l), sub) <==> Contains(l, sub)
  {
    var s := StripCr(l);
    if Contains(s, sub) {
      var k :| 0 <= k <= |s| && sub <= s[k..];
      assert sub <= l[k..];
    }
    if Contains(l, sub) {
      var k :| 0 <= k <= |l| && sub <= l[k..];
      assert l[k..][|sub| - 1] == l[k + |sub| - 1] == sub[|sub| - 1];
      assert k + |sub| <= |s|;
      assert sub <= s[k..];
    }
  }

  lemma EditedIsStamped(text: string)
    requires AnyEdited(text)
    ensures !Scanned(Rewrite(text))
  {
    var lines := Lines(text);
    var out := EditLines(lines);
    RewrittenLines(text);
    var l :| l in lines && NeedsEdit(l);
    assert STAMP_LINE in EditLine(l);
    EditLinesFrom(lines, STAMP_LINE);
    var i :| 0 <= i < |out| && out[i] == STAMP_LINE;
    StampIsKept();
    assert Lines(Rewrite(text))[i] == STAMP_LINE;
  }

  lemma StampIsKept()
    ensures StripCr(STAMP_LINE) == STAMP_LINE && Contains(STAMP_LINE, EDITED_STAMP)
  {
    assert EDITED_STAMP <= STAMP_LINE[2..];
  }

  lemma UneditedScansAlike(text: string)
    requires !AnyEdited(text)
    ensures Scanned(Rewrite(text)) <==> Scanned(text)
  {
    var lines := Lines(text);
    RewrittenLines(text);
    NothingToEdit(lines);
    forall i | 0 <= i < |lines|
      ensures Contains(StripCr(lines[i]), EDITED_STAMP) <==> Contains(lines[i], EDITED_STAMP)
      ensures Contains(StripCr(lines[i]), ANACONDA_STAMP) <==> Contains(lines[i], ANACONDA_STAMP)
    {
      ContainsStripCr(lines[i], EDITED_STAMP);
      ContainsStripCr(lines[i], ANACONDA_STAMP);
    }
    SomeAgree(lines, StripAll(lines), l => Contains(l, EDITED_STAMP));
    SomeAgree(lines, StripAll(lines), l => Contains(l, ANACONDA_STAMP));
  }

  /** The scan asks for the rewriter again exactly if it did before and the rewriter found
      nothing to edit; once a line was edited it never asks again. */
  lemma ScanAfterRewrite(text: string)
    ensures Scanned(Rewrite(text)) <==> Scanned(text) && !AnyEdited(text)
  {
    if AnyEdited(text) {
      EditedIsStamped(text);
    } else {
      UneditedScansAlike(text);
    }
  }

  ghost predicate Mentions(l: string, stamp: string) {
    exists a: string, b: string :: l == a + stamp + b
  }

  /** The scan of a text asks for the rewriter exactly if no line mentions the one stamp and some
      line mentions the other; the line without a line feed at the end counts. */
  lemma ScannedExactly(a: string, l: string)
    requires AtLineEnd(a) && '\n' !in l
    ensures Scanned(a + l) <==>
            var lines := if l == "" then Lines(a) else Lines(a) + [l];
            && (forall x :: x in lines ==> !Mentions(x, "Updated by bootc-fstab-edit.service"))
            && (exists x :: x in lines && Mentions(x, "Created by anaconda"))
  {
    LinesAppend(a, l);
    if l != "" {
      LastLine(l);
    }
    assert Lines(a) + [] == Lines(a);
    forall x
      ensures Contains(x, EDITED_STAMP) <==> Mentions(x, "Updated by bootc-fstab-edit.service")
      ensures Contains(x, ANACONDA_STAMP) <==> Mentions(x, "Created by anaconda")
    {
      ContainsIff(x, EDITED_STAMP);
      ContainsIff(x, ANACONDA_STAMP);
    }
  }

  ghost predicate SomeOf<T>(s: seq<T>, p: T -> bool) {
    exists x :: x in s && p(x)
  }

  lemma SomeAgree<T>(a: seq<T>, b: seq<T>, p: T -> bool)
    requires |a| == |b| && forall i :: 0 <= i < |a| ==> (p(b[i]) <==> p(a[i]))
    ensures SomeOf(a, p) <==> SomeOf(b, p)
  {
    if SomeOf(a, p) {
      var i :| 0 <= i < |a| && p(a[i]);
      assert b[i] in b && p(b[i]);
    }
    if SomeOf(b, p) {
      var i :| 0 <= i < |b| && p(b[i]);
      assert a[i] in a && p(a[i]);
    }
  }
}
