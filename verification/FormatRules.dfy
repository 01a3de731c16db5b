// What the formatter does to line ends, tabs, blanks and blank lines, each
// said of the text itself.
module FormatRules {
  import opened Formatter

  predicate Blanks(s: string) {
    forall i :: 0 <= i < |s| ==> s[i] == ' ' || s[i] == '\t'
  }

  predicate EndsBare(s: string) {
    s == "" || (s[|s| - 1] != ' ' && s[|s| - 1] != '\t')
  }

  predicate Without(s: string, c: char) {
    forall i :: 0 <= i < |s| ==> s[i] != c
  }

  /******* Trailing blanks *******/

  lemma {:induction false} TrimSplits(line: string) returns (rest: string)
    ensures line == Trim(line) + rest && Blanks(rest) && EndsBare(Trim(line))
  {
    if EndsBare(line) {
      rest := "";
    } else {
      var front := line[..|line| - 1];
      rest := TrimSplits(front);
      rest := rest + [line[|line| - 1]];
      assert line == front + [line[|line| - 1]];
    }
  }

  lemma LastBlank(line: string, t: string, u: string)
    requires t <= line && u <= line && |t| < |u| && Blanks(line[|t|..])
    ensures !EndsBare(u)
  {
    assert u[|u| - 1] == line[|t|..][|u| - 1 - |t|];
  }

  // A line is trimmed to t exactly when it is t and then blanks, and t does not
  // end in one.
  lemma TrimIff(line: string, t: string)
    ensures Trim(line) == t <==> t <= line && Blanks(line[|t|..]) && EndsBare(t)
  {
    var rest := TrimSplits(line);
    var u := Trim(line);
    assert line[|u|..] == rest;
    if t <= line && Blanks(line[|t|..]) && EndsBare(t) {
      if |t| < |u| {
        LastBlank(line, t, u);
      } else if |u| < |t| {
        LastBlank(line, u, t);
      }
      assert u == line[..|u|] && t == line[..|t|];
    }
  }

  /******* Tabs *******/

  function Join(parts: seq<string>, sep: string): string {
    if parts == [] then "" else if |parts| == 1 then parts[0] else parts[0] + sep + Join(parts[1..], sep)
  }

  lemma {:induction false} UntabMore(a: string, b: string)
    requires Without(a, '\t')
    ensures Untab(a + b) == a + Untab(b)
  {
    if a == "" {
      assert a + b == b;
    } else {
      UntabMore(a[1..], b);
      assert (a + b)[1..] == a[1..] + b;
    }
  }

  // Each tab becomes four spaces, and all between them stays.
  lemma {:induction false} UntabIs(parts: seq<string>)
    requires forall k :: 0 <= k < |parts| ==> Without(parts[k], '\t')
    ensures Untab(Join(parts, "\t")) == Join(parts, "    ")
  {
    if |parts| == 1 {
      UntabKeeps(parts[0]);
    } else if parts != [] {
      var rest := Join(parts[1..], "\t");
      UntabIs(parts[1..]);
      UntabMore(parts[0], "\t" + rest);
      assert parts[0] + "\t" + rest == parts[0] + ("\t" + rest);
      assert ("\t" + rest)[1..] == rest;
    }
  }

  lemma {:induction false} TabParts(line: string) returns (parts: seq<string>)
    ensures parts != [] && Join(parts, "\t") == line && forall k :: 0 <= k < |parts| ==> Without(parts[k], '\t')
  {
    if line == "" {
      parts := [""];
    } else {
      var ps := TabParts(line[1..]);
      if line[0] == '\t' {
        parts := [""] + ps;
        assert parts[1..] == ps;
      } else {
        parts := [[line[0]] + ps[0]] + ps[1..];
        assert |ps| > 1 ==> parts[1..] == ps[1..];
      }
      assert line == [line[0]] + line[1..];
    }
  }

  /******* Line ends *******/

  datatype Ending = Lf | CrLf | Cr

  function Mark(e: Ending): string {
    match e
    case Lf => "\n"
    case CrLf => "\r\n"
    case Cr => "\r"
  }

  predicate OneLine(s: string) {
    Without(s, '\n') && Without(s, '\r')
  }

  datatype Ended = Ended(line: string, ending: Ending)

  // Lines with their endings, and what follows the last of them.
  function Text(ls: seq<Ended>, last: string): string {
    if ls == [] then last else ls[0].line + Mark(ls[0].ending) + Text(ls[1..], last)
  }

  // A CR does not stand before an LF of its own.
  predicate Apart(ls: seq<Ended>) {
    forall k :: 0 <= k < |ls| - 1 && ls[k].ending.Cr? ==> !(ls[k + 1].line == "" && ls[k + 1].ending.Lf?)
  }

  predicate Proper(ls: seq<Ended>, last: string) {
    OneLine(last) && Apart(ls) && forall k :: 0 <= k < |ls| ==> OneLine(ls[k].line)
  }

  function LinesOnly(ls: seq<Ended>): seq<string> {
    if ls == [] then [] else [ls[0].line] + LinesOnly(ls[1..])
  }

  lemma CharDropped(c: char, s: string)
    requires c != '\r'
    ensures DropCrLf([c] + s) == [c] + DropCrLf(s)
  {
    assert ([c] + s)[1..] == s;
    if s == "" {
      assert [c] + s == [c] && DropCrLf(s) == s;
    }
  }

  lemma {:induction false} DropMore(a: string, b: string)
    requires OneLine(a)
    ensures DropCrLf(a + b) == a + DropCrLf(b)
  {
    if a == "" {
      assert a + b == b;
    } else {
      DropMore(a[1..], b);
      hide DropCrLf;
      CharDropped(a[0], a[1..] + b);
      assert a + b == [a[0]] + (a[1..] + b);
      assert [a[0]] + (a[1..] + DropCrLf(b)) == a + DropCrLf(b);
    }
  }

  lemma {:induction false} LfMore(a: string, b: string)
    requires OneLine(a)
    ensures CrToLf(a + b) == a + CrToLf(b)
  {
    if a == "" {
      assert a + b == b;
    } else {
      LfMore(a[1..], b);
      assert (a + b)[1..] == a[1..] + b;
    }
  }

  lemma MarkDropped(e: Ending, rest: string)
    requires e.Cr? ==> rest == "" || rest[0] != '\n'
    ensures Normalised(Mark(e) + rest) == "\n" + Normalised(rest)
  {
    var s := Mark(e) + rest;
    match e
    case Lf =>
      assert s[1..] == rest && s[0] == '\n';
      assert DropCrLf(s) == "\n" + DropCrLf(rest);
      assert ("\n" + DropCrLf(rest))[1..] == DropCrLf(rest);
    case CrLf =>
      assert s[2..] == rest && s[0] == '\r' && s[1] == '\n';
      assert DropCrLf(s) == "\n" + DropCrLf(rest);
      assert ("\n" + DropCrLf(rest))[1..] == DropCrLf(rest);
    case Cr =>
      assert s[1..] == rest && s[0] == '\r';
      assert DropCrLf(s) == "\r" + DropCrLf(rest);
      assert ("\r" + DropCrLf(rest))[1..] == DropCrLf(rest);
  }

  lemma TextStarts(ls: seq<Ended>, last: string)
    requires OneLine(last) && forall k :: 0 <= k < |ls| ==> OneLine(ls[k].line)
    requires ls != [] ==> !(ls[0].line == "" && ls[0].ending.Lf?)
    ensures Text(ls, last) == "" || Text(ls, last)[0] != '\n'
  {
  }

  // Every CRLF, LF and CR ends a line, and what stands between them is kept.
  lemma {:induction false} NormalisedIs(ls: seq<Ended>, last: string)
    requires Proper(ls, last)
    ensures Normalised(Text(ls, last)) == Join(LinesOnly(ls) + [last], "\n")
  {
    if ls == [] {
      NormalisedKeeps(last);
    } else {
      var line, mark, rest := ls[0].line, Mark(ls[0].ending), Text(ls[1..], last);
      NormalisedIs(ls[1..], last);
      if ls[0].ending.Cr? {
        TextStarts(ls[1..], last);
      }
      MarkDropped(ls[0].ending, rest);
      NormalisedMore(line, mark + rest);
      hide *;
      TextUnfold(ls, last);
      JoinedLines(ls, last);
      Assoc(line, mark, rest);
      Assoc(line, "\n", Normalised(rest));
    }
  }

  lemma Assoc(a: string, b: string, c: string)
    ensures a + b + c == a + (b + c)
  {
  }

  lemma JoinedLines(ls: seq<Ended>, last: string)
    requires ls != []
    ensures Join(LinesOnly(ls) + [last], "\n") == ls[0].line + "\n" + Join(LinesOnly(ls[1..]) + [last], "\n")
  {
    var all, others := LinesOnly(ls) + [last], LinesOnly(ls[1..]) + [last];
    assert all == [ls[0].line] + others;
    assert all[1..] == others;
  }

  lemma NormalisedMore(a: string, b: string)
    requires OneLine(a)
    ensures Normalised(a + b) == a + Normalised(b)
  {
    DropMore(a, b);
    LfMore(a, DropCrLf(b));
  }

  lemma SplitLast(s: string, ls: seq<string>, t: string)
    requires Split(s) == ls && Without(t, '\n')
    ensures Split(s + "\n" + t) == ls + [t]
  {
    SplitNewline(s);
    SplitMore(s + "\n", t);
    hide Split;
    assert "" + t == t;
    assert (ls + [""])[..|ls|] == ls;
  }

  lemma {:induction false} SplitJoin(parts: seq<string>)
    requires parts != [] && forall k :: 0 <= k < |parts| ==> Without(parts[k], '\n')
    ensures Split(Join(parts, "\n")) == parts
  {
    var n := |parts|;
    if n == 1 {
      SplitMore("", parts[0]);
      assert "" + parts[0] == parts[0];
    } else {
      JoinLast(parts, "\n");
      var before := Join(parts[..n - 1], "\n");
      SplitJoin(parts[..n - 1]);
      hide Split, Join;
      SplitLast(before, parts[..n - 1], parts[n - 1]);
    }
  }

  lemma {:induction false} JoinLast(parts: seq<string>, sep: string)
    requires |parts| > 1
    ensures Join(parts, sep) == Join(parts[..|parts| - 1], sep) + sep + parts[|parts| - 1]
  {
    var n := |parts|;
    if n > 2 {
      JoinLast(parts[1..], sep);
      assert parts[1..][..n - 2] == parts[..n - 1][1..];
    }
  }

  lemma {:induction false} LinesPlain(ls: seq<Ended>)
    requires forall k :: 0 <= k < |ls| ==> OneLine(ls[k].line)
    ensures |LinesOnly(ls)| == |ls| && forall k :: 0 <= k < |ls| ==> LinesOnly(ls)[k] == ls[k].line
  {
    if ls != [] {
      LinesPlain(ls[1..]);
    }
  }

  // The lines that are read are those of the text.
  lemma LinesRead(ls: seq<Ended>, last: string)
    requires Proper(ls, last)
    ensures Split(Normalised(Text(ls, last))) == LinesOnly(ls) + [last]
  {
    NormalisedIs(ls, last);
    LinesPlain(ls);
    SplitJoin(LinesOnly(ls) + [last]);
  }

  // Every text is such lines.
  lemma {:induction false} EveryText(s: string) returns (ls: seq<Ended>, last: string)
    ensures Text(ls, last) == s && Proper(ls, last)
  {
    if s == "" {
      ls, last := [], "";
      ProperLast(last);
    } else {
      hide Text, Apart, Proper;
      var c := s[0];
      var ms, end := EveryText(s[1..]);
      assert s == [c] + s[1..];
      TextUnfold(ms, end);
      ProperParts(ms, end);
      if c == '\n' {
        ls, last := [Ended("", Lf)] + ms, end;
        TextCons(Ended("", Lf), ms, end);
        ProperCons(Ended("", Lf), ms, end);
      } else if c == '\r' && ms != [] && ms[0] == Ended("", Lf) {
        ls, last := [Ended("", CrLf)] + ms[1..], end;
        TextCons(Ended("", CrLf), ms[1..], end);
        ProperCons(Ended("", CrLf), ms[1..], end);
      } else if c == '\r' {
        ls, last := [Ended("", Cr)] + ms, end;
        TextCons(Ended("", Cr), ms, end);
        ProperCons(Ended("", Cr), ms, end);
      } else if ms == [] {
        ls, last := [], [c] + end;
        TextUnfold(ls, last);
        ProperLast(last);
      } else {
        var first := Ended([c] + ms[0].line, ms[0].ending);
        ls, last := [first] + ms[1..], end;
        TextCons(first, ms[1..], end);
        ProperCons(first, ms[1..], end);
      }
    }
  }

  lemma ProperLast(last: string)
    requires OneLine(last)
    ensures Proper([], last)
  {
  }

  lemma ProperParts(ls: seq<Ended>, last: string)
    requires Proper(ls, last)
    ensures OneLine(last)
    ensures ls != [] ==> OneLine(ls[0].line) && Proper(ls[1..], last)
    ensures |ls| > 1 && ls[0].ending.Cr? ==> ls[1] != Ended("", Lf)
  {
  }

  lemma ProperCons(e: Ended, ls: seq<Ended>, last: string)
    requires Proper(ls, last) && OneLine(e.line) && (e.ending.Cr? && ls != [] ==> ls[0] != Ended("", Lf))
    ensures Proper([e] + ls, last)
  {
  }

  lemma TextCons(e: Ended, ls: seq<Ended>, last: string)
    ensures Text([e] + ls, last) == e.line + Mark(e.ending) + Text(ls, last)
  {
    assert ([e] + ls)[1..] == ls;
  }

  lemma TextUnfold(ls: seq<Ended>, last: string)
    ensures ls == [] ==> Text(ls, last) == last
    ensures ls != [] ==> Text(ls, last) == ls[0].line + Mark(ls[0].ending) + Text(ls[1..], last)
  {
  }

  /******* Blank lines *******/

  // The lines that are not blank, by their number.
  function Kept(lines: seq<string>, i: nat): seq<nat>
    requires i <= |lines|
  {
    if i == 0 then [] else Kept(lines, i - 1) + if Blanks(lines[i - 1]) then [] else [i - 1]
  }

  lemma BlanksJoin(a: string, b: string)
    ensures Blanks(a + b) <==> Blanks(a) && Blanks(b)
  {
    var s := a + b;
    assert forall k :: 0 <= k < |a| ==> s[k] == a[k];
    assert forall k :: 0 <= k < |b| ==> s[|a| + k] == b[k];
  }

  lemma {:induction false} UntabBlanks(line: string)
    ensures Blanks(Untab(line)) <==> Blanks(line)
  {
    if line != "" {
      UntabBlanks(line[1..]);
      var head := if line[0] == '\t' then "    " else [line[0]];
      BlanksJoin(head, Untab(line[1..]));
      BlanksJoin([line[0]], line[1..]);
      assert line == [line[0]] + line[1..];
    }
  }

  lemma CleanedAway(line: string)
    ensures Clean(line) == "" <==> Blanks(line)
  {
    UntabBlanks(line);
    TrimIff(Untab(line), "");
    var u := Untab(line);
    assert u[0..] == u;
  }

  predicate Gathers(lines: seq<string>, i: nat, doc: seq<Entry>)
    requires i <= |lines|
  {
    var kept := Kept(lines, i);
    && |doc| == |kept|
    && (forall k :: 0 <= k < |kept| ==> kept[k] < i && doc[k].text == Clean(lines[kept[k]]))
    && (forall k :: 0 <= k < |kept| ==> (doc[k].gap <==> k > 0 && kept[k - 1] + 1 < kept[k]))
  }

  lemma GathersSame(lines: seq<string>, i: nat, doc: seq<Entry>)
    requires i < |lines| && Gathers(lines, i, doc) && Kept(lines, i + 1) == Kept(lines, i)
    ensures Gathers(lines, i + 1, doc)
  {
  }

  // The next line is blank, or is kept.
  lemma GathersMore(lines: seq<string>, i: nat, g: Gathered)
    requires i < |lines| && Gathers(lines, i, g.doc) && (g.blank <==> i > 0 && Blanks(lines[i - 1]))
    ensures Gathers(lines, i + 1, Step(g, lines[i]).doc)
  {
    hide Blanks, Clean;
    CleanedAway(lines[i]);
    var kept := Kept(lines, i);
    if kept != [] {
      LastKept(lines, i);
    }
    if !Blanks(lines[i]) {
      var e := Entry(g.doc != [] && g.blank, Clean(lines[i]));
      assert Step(g, lines[i]).doc == g.doc + [e] && Kept(lines, i + 1) == kept + [i];
      assert e.gap <==> kept != [] && kept[|kept| - 1] + 1 < i;
    } else {
      assert kept + [] == kept && Kept(lines, i + 1) == kept && Step(g, lines[i]).doc == g.doc;
      GathersSame(lines, i, g.doc);
    }
  }

  // What is gathered after the first i lines, and whether the last of them is
  // blank.
  lemma {:induction false} GatherIs(lines: seq<string>, i: nat)
    requires i <= |lines|
    ensures var g := Gather(lines[..i]);
      Gathers(lines, i, g.doc) && (g.blank <==> i > 0 && Blanks(lines[i - 1]))
  {
    if i > 0 {
      GatherIs(lines, i - 1);
      hide *;
      GatheredNext(lines, i - 1);
      GathersMore(lines, i - 1, Gather(lines[..i - 1]));
    } else {
      assert lines[..0] == [];
    }
  }

  lemma GatheredNext(lines: seq<string>, i: nat)
    requires i < |lines|
    ensures Gather(lines[..i + 1]) == Step(Gather(lines[..i]), lines[i])
    ensures Gather(lines[..i + 1]).blank <==> Blanks(lines[i])
  {
    assert lines[..i + 1][..i] == lines[..i];
    CleanedAway(lines[i]);
  }

  lemma {:induction false} LastKept(lines: seq<string>, i: nat)
    requires i <= |lines| && Kept(lines, i) != []
    ensures var last := Kept(lines, i)[|Kept(lines, i)| - 1]; last < i && (last == i - 1 <==> !Blanks(lines[i - 1]))
  {
    if Blanks(lines[i - 1]) {
      LastKept(lines, i - 1);
    }
  }

  // The lines that stay are those with something besides blanks, in order; one
  // blank line stands between two of them exactly when one did before.
  lemma FormatIs(src: string)
    ensures exists doc :: Format(src) == Print(doc) && Gathers(Split(Normalised(src)), |Split(Normalised(src))|, doc)
  {
    var lines := Split(Normalised(src));
    GatherIs(lines, |lines|);
    assert lines[..|lines|] == lines;
    assert Format(src) == Print(Gather(lines).doc);
  }
}
