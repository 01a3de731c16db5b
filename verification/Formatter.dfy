// The source formatter: line endings, tabs, trailing spaces and blank runs are
// brought to one canonical form, and formatting that form changes nothing.
module Formatter {
  /******* Text as lines *******/

  function Split(s: string): (ls: seq<string>)
    ensures |ls| > 0
  {
    if s == "" then [""]
    else
      var front := Split(s[..|s| - 1]);
      var c := s[|s| - 1];
      if c == '\n' then front + [""] else front[..|front| - 1] + [front[|front| - 1] + [c]]
  }

  // CRLF becomes LF, then every CR left becomes LF.
  function DropCrLf(s: string): string {
    if |s| < 2 then s
    else if s[0] == '\r' && s[1] == '\n' then ['\n'] + DropCrLf(s[2..])
    else [s[0]] + DropCrLf(s[1..])
  }

  function CrToLf(s: string): string {
    if s == "" then "" else [if s[0] == '\r' then '\n' else s[0]] + CrToLf(s[1..])
  }

  function Normalised(s: string): string {
    CrToLf(DropCrLf(s))
  }

  function Untab(line: string): string {
    if line == "" then "" else (if line[0] == '\t' then "    " else [line[0]]) + Untab(line[1..])
  }

  function Trim(line: string): string {
    if line != "" && (line[|line| - 1] == ' ' || line[|line| - 1] == '\t') then Trim(line[..|line| - 1]) else line
  }

  function Clean(line: string): string {
    Trim(Untab(line))
  }

  /******* Documents *******/

  // A line that is not blank, and whether a blank line stands before it.
  datatype Entry = Entry(gap: bool, text: string)
  datatype Gathered = Gathered(doc: seq<Entry>, blank: bool)

  function Step(g: Gathered, line: string): Gathered {
    var text := Clean(line);
    if text == "" then Gathered(g.doc, true)
    else Gathered(g.doc + [Entry(g.doc != [] && g.blank, text)], false)
  }

  function Gather(lines: seq<string>): Gathered {
    if lines == [] then Gathered([], false) else Step(Gather(lines[..|lines| - 1]), lines[|lines| - 1])
  }

  // Without the final newline.
  function Open(doc: seq<Entry>): string {
    if doc == [] then ""
    else
      var front := doc[..|doc| - 1];
      var e := doc[|doc| - 1];
      Open(front) + (if e.gap then "\n" else "") + (if front != [] then "\n" else "") + e.text
  }

  function Print(doc: seq<Entry>): string {
    if doc == [] then "" else Open(doc) + "\n"
  }

  function Format(src: string): string {
    Print(Gather(Split(Normalised(src))).doc)
  }

  lemma OpenMore(doc: seq<Entry>, e: Entry)
    ensures Open(doc + [e]) == Open(doc) + (if e.gap then "\n" else "") + (if doc != [] then "\n" else "") + e.text
  {
    assert (doc + [e])[..|doc|] == doc;
  }

  // The formatter's loop over the lines.
  method FormatText(src: string) returns (out: string)
    ensures out == Format(src)
  {
    hide Clean, Split, Normalised;
    var lines := Split(Normalised(src));
    var emitted, blankRun := false, 0;
    out := "";
    var i := 0;
    while i < |lines|
      invariant 0 <= i <= |lines| && blankRun >= 0
      invariant var g := Gather(lines[..i]); out == Open(g.doc) && emitted == (g.doc != []) && g.blank == (blankRun > 0)
    {
      assert lines[..i + 1][..i] == lines[..i];
      ghost var g := Gather(lines[..i]);
      var line := Clean(lines[i]);
      if line == "" {
        blankRun := blankRun + 1;
      } else {
        OpenMore(g.doc, Entry(g.doc != [] && g.blank, line));
        if emitted && blankRun > 0 {
          out := out + "\n";
        }
        if emitted {
          out := out + "\n";
        }
        out := out + line;
        blankRun, emitted := 0, true;
      }
      i := i + 1;
    }
    assert lines[..|lines|] == lines;
    if emitted {
      out := out + "\n";
    }
  }

  /******* Canonical lines and documents *******/

  predicate Plain(c: char) {
    c != '\n' && c != '\r' && c != '\t'
  }

  predicate CleanLine(t: string) {
    t != "" && t[|t| - 1] != ' ' && forall i :: 0 <= i < |t| ==> Plain(t[i])
  }

  predicate Canonical(doc: seq<Entry>) {
    (forall i :: 0 <= i < |doc| ==> CleanLine(doc[i].text)) && (doc != [] ==> !doc[0].gap)
  }

  // The lines of a printed document, before the last newline.
  function LinesOf(doc: seq<Entry>): seq<string> {
    if doc == [] then []
    else LinesOf(doc[..|doc| - 1]) + (if doc[|doc| - 1].gap then [""] else []) + [doc[|doc| - 1].text]
  }

  lemma CanonicalFront(doc: seq<Entry>)
    requires Canonical(doc) && doc != []
    ensures Canonical(doc[..|doc| - 1]) && CleanLine(doc[|doc| - 1].text) && (|doc| == 1 ==> !doc[0].gap)
  {
  }

  /******* What normalising and cleaning give *******/

  lemma {:induction false} NoCr(s: string)
    ensures forall i :: 0 <= i < |CrToLf(s)| ==> CrToLf(s)[i] != '\r'
  {
    if s != "" {
      NoCr(s[1..]);
    }
  }

  lemma {:induction false} NormalisedKeeps(s: string)
    requires forall i :: 0 <= i < |s| ==> s[i] != '\r'
    ensures DropCrLf(s) == s && CrToLf(s) == s
  {
    if s != "" {
      NormalisedKeeps(s[1..]);
      assert s == [s[0]] + s[1..];
    }
  }

  lemma {:induction false} UntabPlain(line: string)
    requires forall i :: 0 <= i < |line| ==> line[i] != '\n' && line[i] != '\r'
    ensures forall i :: 0 <= i < |Untab(line)| ==> Plain(Untab(line)[i])
  {
    if line != "" {
      UntabPlain(line[1..]);
    }
  }

  lemma {:induction false} UntabKeeps(line: string)
    requires forall i :: 0 <= i < |line| ==> line[i] != '\t'
    ensures Untab(line) == line
  {
    if line != "" {
      UntabKeeps(line[1..]);
      assert line == [line[0]] + line[1..];
    }
  }

  lemma {:induction false} TrimCleans(line: string)
    requires forall i :: 0 <= i < |line| ==> Plain(line[i])
    ensures Trim(line) == "" || CleanLine(Trim(line))
  {
    if line != "" && line[|line| - 1] == ' ' {
      TrimCleans(line[..|line| - 1]);
    }
  }

  lemma CleanCleans(line: string)
    requires forall i :: 0 <= i < |line| ==> line[i] != '\n' && line[i] != '\r'
    ensures Clean(line) == "" || CleanLine(Clean(line))
  {
    UntabPlain(line);
    TrimCleans(Untab(line));
  }

  lemma CleanKeeps(t: string)
    requires CleanLine(t)
    ensures Clean(t) == t
  {
    UntabKeeps(t);
  }

  lemma {:induction false} SplitLines(s: string)
    ensures forall k, i :: 0 <= k < |Split(s)| && 0 <= i < |Split(s)[k]| ==> Split(s)[k][i] != '\n' && Split(s)[k][i] in s
  {
    if s != "" {
      var front := s[..|s| - 1];
      SplitLines(front);
      assert s == front + [s[|s| - 1]];
    }
  }

  lemma {:induction false} GatherCanonical(lines: seq<string>)
    requires forall k, i :: 0 <= k < |lines| && 0 <= i < |lines[k]| ==> lines[k][i] != '\n' && lines[k][i] != '\r'
    ensures Canonical(Gather(lines).doc)
  {
    if lines != [] {
      GatherCanonical(lines[..|lines| - 1]);
      CleanCleans(lines[|lines| - 1]);
    }
  }

  lemma FormatCanonical(src: string)
    ensures Canonical(Gather(Split(Normalised(src))).doc)
  {
    var s := Normalised(src);
    NoCr(DropCrLf(src));
    SplitLines(s);
    GatherCanonical(Split(s));
  }

  /******* Printing and gathering are inverse *******/

  lemma SplitChar(s: string, c: char)
    requires c != '\n'
    ensures Split(s + [c]) == Split(s)[..|Split(s)| - 1] + [Split(s)[|Split(s)| - 1] + [c]]
  {
    assert (s + [c])[..|s|] == s;
  }

  lemma {:induction false} SplitMore(s: string, t: string)
    requires forall i :: 0 <= i < |t| ==> t[i] != '\n'
    ensures Split(s + t) == Split(s)[..|Split(s)| - 1] + [Split(s)[|Split(s)| - 1] + t]
  {
    hide Split;
    var ls := Split(s);
    var last := ls[|ls| - 1];
    if t == "" {
      assert s + t == s && last + t == last;
    } else {
      var front := t[..|t| - 1];
      var c := t[|t| - 1];
      assert t == front + [c];
      SplitMore(s, front);
      assert s + t == (s + front) + [c];
      SplitChar(s + front, c);
      var ms := Split(s + front);
      assert ms == ls[..|ls| - 1] + [last + front];
      assert ms[..|ms| - 1] == ls[..|ls| - 1] && ms[|ms| - 1] == last + front;
      assert (last + front) + [c] == last + t;
    }
  }

  lemma SplitNewline(s: string)
    ensures Split(s + "\n") == Split(s) + [""]
  {
    assert (s + "\n")[..|s + "\n"| - 1] == s;
  }

  lemma SplitStep(o: string, gap: bool, t: string)
    requires forall i :: 0 <= i < |t| ==> t[i] != '\n'
    ensures Split(o + (if gap then "\n" else "") + "\n" + t) == Split(o) + (if gap then [""] else []) + [t]
  {
    hide Split;
    var a := o + (if gap then "\n" else "");
    assert !gap ==> a == o;
    var ls := Split(o) + (if gap then [""] else []);
    SplitNewline(o);
    assert Split(a) == ls;
    SplitNewline(a);
    SplitMore(a + "\n", t);
    assert (ls + [""])[..|ls|] == ls;
    assert "" + t == t;
  }

  lemma {:induction false} SplitOpen(doc: seq<Entry>)
    requires Canonical(doc) && doc != []
    ensures Split(Open(doc)) == LinesOf(doc)
  {
    var front := doc[..|doc| - 1];
    var e := doc[|doc| - 1];
    CanonicalFront(doc);
    if front == [] {
      SplitMore("", e.text);
      assert "" + e.text == e.text;
      assert Open(doc) == e.text;
    } else {
      SplitOpen(front);
      hide Split, Canonical;
      SplitStep(Open(front), e.gap, e.text);
    }
  }

  lemma GatherMore(lines: seq<string>, line: string)
    ensures Gather(lines + [line]) == Step(Gather(lines), line)
  {
    assert (lines + [line])[..|lines|] == lines;
  }

  lemma StepKnown(g: Gathered, t: string)
    requires CleanLine(t)
    ensures Step(g, "") == Gathered(g.doc, true)
    ensures Step(g, t) == Gathered(g.doc + [Entry(g.doc != [] && g.blank, t)], false)
  {
    CleanKeeps(t);
  }

  lemma LinesUnfold(doc: seq<Entry>)
    ensures LinesOf([]) == [] && Gather([]) == Gathered([], false)
    ensures doc != [] ==>
      LinesOf(doc) == LinesOf(doc[..|doc| - 1]) + (if doc[|doc| - 1].gap then [""] else []) + [doc[|doc| - 1].text]
  {
  }

  lemma {:induction false} GatherLines(doc: seq<Entry>)
    requires Canonical(doc)
    ensures Gather(LinesOf(doc)) == Gathered(doc, false)
  {
    hide *;
    LinesUnfold(doc);
    if doc != [] {
      var front := doc[..|doc| - 1];
      var e := doc[|doc| - 1];
      CanonicalFront(doc);
      GatherLines(front);
      var a := LinesOf(front);
      StepKnown(Gather(a), e.text);
      StepKnown(Gathered(front, true), e.text);
      GatherMore(a, "");
      GatherMore(if e.gap then a + [""] else a, e.text);
      assert a + [] == a;
      assert front + [e] == doc;
    }
  }

  lemma {:induction false} OpenHasNoCr(doc: seq<Entry>)
    requires Canonical(doc)
    ensures forall i :: 0 <= i < |Open(doc)| ==> Open(doc)[i] != '\r' && Open(doc)[i] != '\t'
  {
    if doc != [] {
      CanonicalFront(doc);
      OpenHasNoCr(doc[..|doc| - 1]);
    }
  }

  lemma PrintThenGather(doc: seq<Entry>)
    requires Canonical(doc)
    ensures Gather(Split(Normalised(Print(doc)))).doc == doc
  {
    var s := Print(doc);
    OpenHasNoCr(doc);
    NormalisedKeeps(s);
    if doc != [] {
      SplitNewline(Open(doc));
      SplitOpen(doc);
      GatherLines(doc);
      var ls := LinesOf(doc);
      assert (ls + [""])[..|ls|] == ls;
      assert Clean("") == "";
    } else {
      assert Split("") == [""];
      assert [""][..0] == [];
      assert Clean("") == "";
    }
  }

  // Formatting what is formatted changes nothing.
  lemma FormatIdempotent(src: string)
    ensures Format(Format(src)) == Format(src)
  {
    FormatCanonical(src);
    PrintThenGather(Gather(Split(Normalised(src))).doc);
  }

  /******* The shape of the output *******/

  predicate Tidy(out: string) {
    && (forall i :: 0 <= i < |out| ==> out[i] != '\r' && out[i] != '\t')
    && (forall i :: 0 <= i < |out| && out[i] == ' ' ==> i + 1 < |out| && out[i + 1] != '\n')
    && (out != "" ==> out[0] != '\n' && out[|out| - 1] == '\n' && |out| > 1 && out[|out| - 2] != '\n')
    && (forall i :: 0 <= i < |out| - 2 ==> !(out[i] == '\n' && out[i + 1] == '\n' && out[i + 2] == '\n'))
  }

  // Open(doc) is such a text without its last newline.
  predicate TidyOpen(out: string) {
    && (forall i :: 0 <= i < |out| ==> out[i] != '\r' && out[i] != '\t')
    && (forall i :: 0 <= i < |out| - 1 && out[i] == ' ' ==> out[i + 1] != '\n')
    && (out != "" ==> out[0] != '\n' && out[|out| - 1] != '\n' && out[|out| - 1] != ' ')
    && (forall i :: 0 <= i < |out| - 2 ==> !(out[i] == '\n' && out[i + 1] == '\n' && out[i + 2] == '\n'))
  }

  lemma {:induction false} OpenTidy(doc: seq<Entry>)
    requires Canonical(doc)
    ensures TidyOpen(Open(doc)) && (doc != [] ==> Open(doc) != "")
  {
    if doc != [] {
      var front := doc[..|doc| - 1];
      var e := doc[|doc| - 1];
      CanonicalFront(doc);
      OpenTidy(front);
      var sep := (if e.gap then "\n" else "") + (if front != [] then "\n" else "");
      assert Open(doc) == Open(front) + sep + e.text;
      TidyJoin(Open(front), sep, e.text);
    }
  }

  lemma TidyJoin(a: string, sep: string, t: string)
    requires TidyOpen(a) && CleanLine(t) && (sep == "" || sep == "\n" || sep == "\n\n") && (sep == "" <==> a == "")
    ensures TidyOpen(a + sep + t)
  {
    var out := a + sep + t;
    var n := |a| + |sep|;
    JoinedParts(a, sep, t);
    JoinedSpaces(a, n, out);
    JoinedBreaks(a, n, out);
    JoinedEdges(a, n, t, out);
    hide *;
    TidyIntro(out);
  }

  lemma JoinedParts(a: string, sep: string, t: string)
    requires CleanLine(t) && (sep == "" || sep == "\n" || sep == "\n\n")
    ensures var out := a + sep + t; var n := |a| + |sep|;
      && n < |out| && out[|out| - 1] == t[|t| - 1] && n <= |a| + 2
      && (forall i :: 0 <= i < |a| ==> out[i] == a[i])
      && (forall i :: |a| <= i < n ==> out[i] == '\n')
      && (forall i :: n <= i < |out| ==> Plain(out[i]))
  {
    var out, n := a + sep + t, |a| + |sep|;
    assert forall i :: n <= i < |out| ==> out[i] == t[i - n];
  }

  // No carriage return or tab anywhere; the first and last characters.
  predicate Edges(out: string) {
    && (forall i :: 0 <= i < |out| ==> out[i] != '\r' && out[i] != '\t')
    && (out != "" ==> out[0] != '\n' && out[|out| - 1] != '\n' && out[|out| - 1] != ' ')
  }

  lemma JoinedEdges(a: string, n: nat, t: string, out: string)
    requires TidyOpen(a) && CleanLine(t) && |a| <= n < |out| && (n == |a| <==> a == "") && out[|out| - 1] == t[|t| - 1]
    requires forall i :: 0 <= i < |a| ==> out[i] == a[i]
    requires forall i :: |a| <= i < n ==> out[i] == '\n'
    requires forall i :: n <= i < |out| ==> Plain(out[i])
    ensures Edges(out)
  {
    forall i | 0 <= i < |out|
      ensures out[i] != '\r' && out[i] != '\t'
    {
    }
    if a == "" {
      assert Plain(out[0]);
    }
    assert Plain(out[|out| - 1]);
  }

  lemma TidyIntro(out: string)
    requires Edges(out)
    requires forall i :: 0 <= i < |out| - 1 && out[i] == ' ' ==> out[i + 1] != '\n'
    requires forall i :: 0 <= i < |out| - 2 ==> !(out[i] == '\n' && out[i + 1] == '\n' && out[i + 2] == '\n')
    ensures TidyOpen(out)
  {
  }

  lemma JoinedSpaces(a: string, n: nat, out: string)
    requires TidyOpen(a) && |a| <= n < |out|
    requires forall i :: 0 <= i < |a| ==> out[i] == a[i]
    requires forall i :: |a| <= i < n ==> out[i] == '\n'
    requires forall i :: n <= i < |out| ==> Plain(out[i])
    ensures forall i :: 0 <= i < |out| - 1 && out[i] == ' ' ==> out[i + 1] != '\n'
  {
    forall i | 0 <= i < |out| - 1 && out[i] == ' '
      ensures out[i + 1] != '\n'
    {
      if i < |a| - 1 {
        assert a[i + 1] == out[i + 1];
      }
    }
  }

  lemma JoinedBreaks(a: string, n: nat, out: string)
    requires TidyOpen(a) && |a| <= n <= |a| + 2 && n < |out|
    requires forall i :: 0 <= i < |a| ==> out[i] == a[i]
    requires forall i :: n <= i < |out| ==> Plain(out[i])
    ensures forall i :: 0 <= i < |out| - 2 ==> !(out[i] == '\n' && out[i + 1] == '\n' && out[i + 2] == '\n')
  {
    forall i | 0 <= i < |out| - 2
      ensures !(out[i] == '\n' && out[i + 1] == '\n' && out[i + 2] == '\n')
    {
      if i + 2 < |a| {
        assert a[i] == out[i] && a[i + 1] == out[i + 1] && a[i + 2] == out[i + 2];
      } else if i + 2 >= n {
        assert Plain(out[i + 2]);
      } else {
        assert a != "" ==> out[|a| - 1] == a[|a| - 1];
      }
    }
  }

  lemma FormatTidy(src: string)
    ensures Tidy(Format(src))
  {
    var doc := Gather(Split(Normalised(src))).doc;
    FormatCanonical(src);
    OpenTidy(doc);
    if doc != [] {
      TidyEnd(Open(doc));
    }
  }

  lemma TidyEnd(o: string)
    requires TidyOpen(o) && o != ""
    ensures Tidy(o + "\n")
  {
    var out := o + "\n";
    assert forall i :: 0 <= i < |o| ==> out[i] == o[i];
  }

  /******* No content is lost *******/

  function NonBlank(lines: seq<string>): seq<string> {
    if lines == [] then []
    else
      var last := Clean(lines[|lines| - 1]);
      NonBlank(lines[..|lines| - 1]) + if last == "" then [] else [last]
  }

  function Texts(doc: seq<Entry>): seq<string> {
    seq(|doc|, i requires 0 <= i < |doc| => doc[i].text)
  }

  lemma {:induction false} GatherTexts(lines: seq<string>)
    ensures Texts(Gather(lines).doc) == NonBlank(lines)
  {
    if lines != [] {
      GatherTexts(lines[..|lines| - 1]);
    }
  }

  // The lines that are not blank, cleaned, are the same before and after.
  lemma FormatKeepsLines(src: string)
    ensures NonBlank(Split(Normalised(Format(src)))) == NonBlank(Split(Normalised(src)))
  {
    var doc := Gather(Split(Normalised(src))).doc;
    FormatCanonical(src);
    PrintThenGather(doc);
    GatherTexts(Split(Normalised(src)));
    GatherTexts(Split(Normalised(Format(src))));
  }
}
