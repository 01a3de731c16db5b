// Editor positions (line, UTF-16 column) and byte offsets in a UTF-8 text, as
// the Language Server Protocol 3.17 defines Position with its default
// PositionEncodingKind.
module Positions {
  import opened Utf8

  datatype Option<+T> = None | Some(value: T)
  datatype Position = Position(line: int, character: int)
  datatype Range = Range(start: Position, end: Position)

  const NL: Byte := 10

  /******* Lines and columns *******/

  function Newlines(text: seq<Byte>, o: nat): nat
    requires o <= |text|
  {
    if o == 0 then 0 else Newlines(text, o - 1) + if text[o - 1] == NL then 1 else 0
  }

  // Where the line of offset o begins.
  function LineStart(text: seq<Byte>, o: nat): (s: nat)
    requires o <= |text|
    ensures s <= o
  {
    if o == 0 then 0 else if text[o - 1] == NL then o else LineStart(text, o - 1)
  }

  // UTF-16 units from i until o is reached or passed.
  function Columns(text: seq<Byte>, i: nat, o: nat): (c: nat)
    requires o <= |text|
    ensures i < o ==> c > 0
    decreases |text| - i
  {
    if i >= o then 0
    else
      var r := Decode(text, i);
      Units(r.code) + Columns(text, i + r.size, o)
  }

  // o is a rune boundary, counted from i.
  predicate Boundary(text: seq<Byte>, i: nat, o: nat)
    requires o <= |text|
    decreases |text| - i
  {
    i == o || (i < o && Boundary(text, i + Decode(text, i).size, o))
  }

  function ToPosition(text: seq<Byte>, offset: int): Position {
    if offset < 0 then Position(0, 0)
    else
      var o := if offset > |text| then |text| else offset;
      Position(Newlines(text, o), Columns(text, LineStart(text, o), o))
  }

  // The offset `units` columns after off, on the same line.
  function Seek(text: seq<Byte>, off: nat, units: int): (r: Option<nat>)
    requires off <= |text|
    ensures r.Some? ==> off <= r.value <= |text|
    decreases |text| - off
  {
    if units == 0 then Some(off)
    else if off == |text| || text[off] == NL then None
    else
      var r := Decode(text, off);
      if units < Units(r.code) then None else Seek(text, off + r.size, units - Units(r.code))
  }

  // Where line k begins; None if there are fewer newlines.
  function LineAt(text: seq<Byte>, k: nat): (r: Option<nat>)
    ensures r.Some? ==> r.value <= |text|
  {
    if k == 0 then Some(0) else AfterNewlines(text, 0, k)
  }

  function AfterNewlines(text: seq<Byte>, i: nat, k: nat): (r: Option<nat>)
    requires i <= |text| && k > 0
    ensures r.Some? ==> i < r.value <= |text|
    decreases |text| - i
  {
    if i == |text| then None
    else if text[i] == NL then (if k == 1 then Some(i + 1) else AfterNewlines(text, i + 1, k - 1))
    else AfterNewlines(text, i + 1, k)
  }

  // -1 for a position that is not in the text.
  function ToOffset(text: seq<Byte>, p: Position): int {
    if p.line < 0 || p.character < 0 then -1
    else
      match LineAt(text, p.line)
      case Some(start) =>
        var r := Seek(text, start, p.character);
        if r.Some? then r.value else -1
      case None =>
        if p.line == Newlines(text, |text|) + 1 && p.character == 0 && |text| > 0 && text[|text| - 1] == NL then |text| else -1
  }

  /******* The loops *******/

  method PositionToByteOffset(text: seq<Byte>, p: Position) returns (offset: int)
    ensures offset == ToOffset(text, p)
  {
    if p.line < 0 || p.character < 0 {
      return -1;
    }
    var line, lineStart, i := 0, 0, 0;
    while i < |text| && line != p.line
      invariant 0 <= i <= |text| && 0 <= line <= p.line && line == Newlines(text, i) && lineStart <= i
      invariant line < p.line ==> LineAt(text, p.line) == AfterNewlines(text, i, p.line - line)
      invariant line == p.line ==> LineAt(text, p.line) == Some(lineStart)
    {
      if text[i] == NL {
        line := line + 1;
        lineStart := i + 1;
      }
      i := i + 1;
    }
    if line != p.line {
      if p.line == line + 1 && p.character == 0 && |text| > 0 && text[|text| - 1] == NL {
        return |text|;
      }
      return -1;
    }
    var col, off := 0, lineStart;
    while off < |text| && text[off] != NL
      invariant lineStart <= off <= |text|
      invariant Seek(text, lineStart, p.character) == if col <= p.character then Seek(text, off, p.character - col) else None
      decreases |text| - off
    {
      if col == p.character {
        return off;
      }
      var r := Decode(text, off);
      col := col + Units(r.code);
      off := off + r.size;
    }
    if col == p.character {
      return off;
    }
    return -1;
  }

  method ByteOffsetToPosition(text: seq<Byte>, offset: int) returns (p: Position)
    ensures p == ToPosition(text, offset)
  {
    if offset < 0 {
      return Position(0, 0);
    }
    var o := if offset > |text| then |text| else offset;
    var line, lineStart := 0, 0;
    for i := 0 to o
      invariant line == Newlines(text, i) && lineStart == LineStart(text, i)
    {
      if text[i] == NL {
        line := line + 1;
        lineStart := i + 1;
      }
    }
    var col, i := 0, lineStart;
    while i < o
      invariant lineStart <= i && i <= |text|
      invariant Columns(text, lineStart, o) == col + Columns(text, i, o)
      decreases |text| - i
    {
      var r := Decode(text, i);
      col := col + Units(r.code);
      i := i + r.size;
    }
    return Position(line, col);
  }

  /******* Lines *******/

  predicate NoNewline(text: seq<Byte>, i: nat, j: nat) {
    j <= |text| && forall k :: i <= k < j ==> text[k] != NL
  }

  lemma {:induction false} LineStartClear(text: seq<Byte>, o: nat)
    requires o <= |text|
    ensures NoNewline(text, LineStart(text, o), o)
    ensures LineStart(text, LineStart(text, o)) == LineStart(text, o) && Newlines(text, LineStart(text, o)) == Newlines(text, o)
  {
    if o > 0 && text[o - 1] != NL {
      LineStartClear(text, o - 1);
    }
  }

  lemma {:induction false} SameLine(text: seq<Byte>, s: nat, o: nat)
    requires s <= o <= |text| && NoNewline(text, s, o) && LineStart(text, s) == s
    ensures LineStart(text, o) == s && Newlines(text, o) == Newlines(text, s)
  {
    if s < o {
      SameLine(text, s, o - 1);
    }
  }

  lemma {:induction false} NewlinesGrow(text: seq<Byte>, i: nat, j: nat)
    requires i <= j <= |text|
    ensures Newlines(text, i) <= Newlines(text, j)
  {
    if i < j {
      NewlinesGrow(text, i, j - 1);
    }
  }

  // A found line begins after exactly k newlines.
  lemma {:induction false} AfterNewlinesCounts(text: seq<Byte>, i: nat, k: nat)
    requires i <= |text| && k > 0
    ensures var r := AfterNewlines(text, i, k);
      && (r.Some? ==> LineStart(text, r.value) == r.value && Newlines(text, r.value) == Newlines(text, i) + k)
      && (r.None? <==> Newlines(text, |text|) < Newlines(text, i) + k)
    decreases |text| - i
  {
    if i < |text| {
      if text[i] == NL && k == 1 {
        NewlinesGrow(text, i + 1, |text|);
      } else if text[i] == NL {
        AfterNewlinesCounts(text, i + 1, k - 1);
      } else {
        AfterNewlinesCounts(text, i + 1, k);
      }
    }
  }

  lemma LineAtCounts(text: seq<Byte>, k: nat)
    ensures var r := LineAt(text, k);
      && (r.Some? ==> LineStart(text, r.value) == r.value && Newlines(text, r.value) == k)
      && (r.None? <==> Newlines(text, |text|) < k)
  {
    if k > 0 {
      AfterNewlinesCounts(text, 0, k);
    }
  }

  // Two line beginnings after as many newlines are the same.
  lemma StartUnique(text: seq<Byte>, s: nat, t: nat)
    requires s <= t <= |text| && LineStart(text, s) == s && LineStart(text, t) == t && Newlines(text, s) == Newlines(text, t)
    ensures s == t
  {
    if s < t {
      NewlinesGrow(text, s, t - 1);
    }
  }

  lemma LineOfOffset(text: seq<Byte>, o: nat)
    requires o <= |text|
    ensures LineAt(text, Newlines(text, o)) == Some(LineStart(text, o))
  {
    LineStartClear(text, o);
    NewlinesGrow(text, o, |text|);
    LineAtCounts(text, Newlines(text, o));
    var s := LineStart(text, o);
    var t := LineAt(text, Newlines(text, o)).value;
    if s <= t {
      StartUnique(text, s, t);
    } else {
      StartUnique(text, t, s);
    }
  }

  /******* Columns *******/

  lemma {:induction false} SeekColumns(text: seq<Byte>, i: nat, o: nat)
    requires i <= o <= |text| && Boundary(text, i, o) && NoNewline(text, i, o)
    ensures Seek(text, i, Columns(text, i, o)) == Some(o)
    decreases |text| - i
  {
    if i < o {
      SeekColumns(text, i + Decode(text, i).size, o);
    }
  }

  lemma {:induction false} SeekFinds(text: seq<Byte>, i: nat, units: nat)
    requires i <= |text| && Seek(text, i, units).Some?
    ensures var o := Seek(text, i, units).value;
      Columns(text, i, o) == units && NoNewline(text, i, o) && Boundary(text, i, o)
    decreases |text| - i
  {
    if units > 0 {
      var r := Decode(text, i);
      SeekFinds(text, i + r.size, units - Units(r.code));
      var o := Seek(text, i, units).value;
      forall k | i <= k < o
        ensures text[k] != NL
      {
      }
    }
  }

  /******* The round trips *******/

  // An offset on a rune boundary is found again from its position.
  lemma OffsetRoundTrip(text: seq<Byte>, o: nat)
    requires o <= |text| && Boundary(text, LineStart(text, o), o)
    ensures ToOffset(text, ToPosition(text, o)) == o
  {
    LineOfOffset(text, o);
    LineStartClear(text, o);
    SeekColumns(text, LineStart(text, o), o);
  }

  // A position that is accepted is found again from its offset exactly when
  // its line is no further than the newlines in the text; the one position
  // beyond that is accepted, the start of a line after a final newline's line,
  // is not.
  lemma PositionRoundTripIff(text: seq<Byte>, p: Position)
    requires ToOffset(text, p) >= 0
    ensures ToPosition(text, ToOffset(text, p)) == p <==> p.line <= Newlines(text, |text|)
    ensures var o := ToOffset(text, p); o <= |text| && Boundary(text, LineStart(text, o), o)
  {
    LineAtCounts(text, p.line);
    var o := ToOffset(text, p);
    if LineAt(text, p.line).Some? {
      var s := LineAt(text, p.line).value;
      SeekFinds(text, s, p.character);
      SameLine(text, s, o);
    } else {
      assert LineStart(text, o) == o;
    }
  }

  // That one position: in a text that is one newline, line 2 is accepted as the
  // end of the text, which is on line 1.
  lemma LineBeyondIsLost()
    ensures var text, p := [NL], Position(2, 0);
      ToOffset(text, p) == 1 && ToPosition(text, 1) == Position(1, 0)
  {
    var text: seq<Byte> := [NL];
    LineAtCounts(text, 2);
    PositionRoundTripIff(text, Position(1, 0));
  }

  /******* Edits *******/

  function ApplyEdit(text: seq<Byte>, r: Range, newText: seq<Byte>): seq<Byte> {
    var a := ToOffset(text, r.start);
    var b := ToOffset(text, r.end);
    if 0 <= a <= b <= |text| then text[..a] + newText + text[b..] else text + newText
  }

  method ApplyRangeEdit(text: seq<Byte>, r: Range, newText: seq<Byte>) returns (out: seq<Byte>)
    ensures out == ApplyEdit(text, r, newText)
  {
    var a := PositionToByteOffset(text, r.start);
    var b := PositionToByteOffset(text, r.end);
    if a < 0 || b < 0 || a > |text| || b > |text| || a > b {
      return text + newText;
    }
    return text[..a] + newText + text[b..];
  }

  // An edit given by the positions of two boundaries replaces exactly the
  // bytes between them.
  lemma EditIsSplice(text: seq<Byte>, a: nat, b: nat, newText: seq<Byte>)
    requires a <= b <= |text| && Boundary(text, LineStart(text, a), a) && Boundary(text, LineStart(text, b), b)
    ensures ApplyEdit(text, Range(ToPosition(text, a), ToPosition(text, b)), newText) == text[..a] + newText + text[b..]
  {
    OffsetRoundTrip(text, a);
    OffsetRoundTrip(text, b);
  }

  /******* Documents *******/

  datatype Change = Change(range: Option<Range>, text: seq<Byte>)
  datatype Document = Document(version: int, text: seq<Byte>, language: string)

  function ApplyChanges(text: seq<Byte>, changes: seq<Change>): seq<Byte> {
    if changes == [] then text
    else
      var before := ApplyChanges(text, changes[..|changes| - 1]);
      var c := changes[|changes| - 1];
      if c.range.None? then c.text else ApplyEdit(before, c.range.value, c.text)
  }

  class DocStore {
    var docs: map<string, Document>

    constructor ()
      ensures docs == map[]
    {
      docs := map[];
    }

    method Open(uri: string, language: string, text: seq<Byte>, version: int)
      modifies this
      ensures docs == old(docs)[uri := Document(version, text, language)]
    {
      docs := docs[uri := Document(version, text, language)];
    }

    method Close(uri: string)
      modifies this
      ensures docs == old(docs) - {uri}
    {
      docs := docs - {uri};
    }

    // Changes are applied in order, each to the result of the one before.
    method Apply(uri: string, version: int, changes: seq<Change>) returns (doc: Option<Document>)
      modifies this
      ensures uri !in old(docs) ==> doc == None && docs == old(docs)
      ensures uri in old(docs) ==>
        && doc == Some(Document(version, ApplyChanges(old(docs)[uri].text, changes), old(docs)[uri].language))
        && docs == old(docs)[uri := doc.value]
    {
      if uri !in docs {
        return None;
      }
      var text := docs[uri].text;
      var i := 0;
      while i < |changes|
        invariant 0 <= i <= |changes| && docs == old(docs) && text == ApplyChanges(docs[uri].text, changes[..i])
      {
        assert changes[..i + 1][..i] == changes[..i];
        if changes[i].range.None? {
          text := changes[i].text;
        } else {
          text := ApplyRangeEdit(text, changes[i].range.value, changes[i].text);
        }
        i := i + 1;
      }
      assert changes[..|changes|] == changes;
      doc := Some(Document(version, text, docs[uri].language));
      docs := docs[uri := doc.value];
    }
  }
}
