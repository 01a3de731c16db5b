// UTF-8 (section 3 of RFC 3629) and UTF-16 (section 2.1 of RFC 2781) as
// encoders, and what decoding and the position arithmetic are to them.
module Encodings {
  import opened Utf8
  import opened Positions

  type Unit = u: int | 0 <= u < 0x10000

  // A Unicode scalar value.
  type Scalar = c: int | 0 <= c < 0xD800 || 0xE000 <= c <= 0x10FFFF

  function Utf8Of(c: Scalar): (s: seq<Byte>)
    ensures 1 <= |s| <= 4
  {
    if c <= 0x7F then [c]
    else if c <= 0x7FF then [0xC0 + c / 0x40, 0x80 + c % 0x40]
    else if c <= 0xFFFF then [0xE0 + c / 0x1000, 0x80 + c / 0x40 % 0x40, 0x80 + c % 0x40]
    else [0xF0 + c / 0x40000, 0x80 + c / 0x1000 % 0x40, 0x80 + c / 0x40 % 0x40, 0x80 + c % 0x40]
  }

  // Beyond the first 65536 scalars, a high and a low surrogate.
  function Utf16Of(c: Scalar): seq<Unit> {
    if c < 0x10000 then [c] else [0xD800 + (c - 0x10000) / 0x400, 0xDC00 + (c - 0x10000) % 0x400]
  }

  function Utf8Text(cs: seq<Scalar>): seq<Byte> {
    if cs == [] then [] else Utf8Of(cs[0]) + Utf8Text(cs[1..])
  }

  function Utf16Text(cs: seq<Scalar>): seq<Unit> {
    if cs == [] then [] else Utf16Of(cs[0]) + Utf16Text(cs[1..])
  }

  /******* Decoding *******/

  predicate Stands(text: seq<Byte>, i: nat, s: seq<Byte>) {
    i + |s| <= |text| && forall k :: 0 <= k < |s| ==> text[i + k] == s[k]
  }

  lemma LastDigit(h: nat, l: nat)
    requires l < 64
    ensures (h * 64 + l) / 64 == h && (h * 64 + l) % 64 == l
  {
  }

  lemma DividedTwice(c: nat)
    ensures c / 0x1000 == c / 64 / 64 && c / 0x40000 == c / 64 / 64 / 64
  {
  }

  // A number in base 64, and its digits again.
  lemma Digits(g: nat, h: nat, m: nat, l: nat)
    requires h < 64 && m < 64 && l < 64
    ensures var c := g * 0x40000 + h * 0x1000 + m * 0x40 + l;
      c % 0x40 == l && c / 0x40 % 0x40 == m && c / 0x1000 % 0x40 == h && c / 0x40000 == g
  {
    DividedTwice(g * 0x40000 + h * 0x1000 + m * 0x40 + l);
    LastDigit((g * 64 + h) * 64 + m, l);
    LastDigit(g * 64 + h, m);
    LastDigit(g, h);
  }

  lemma DigitsMake(c: nat)
    ensures c == c / 0x40 * 0x40 + c % 0x40
    ensures c == c / 0x1000 * 0x1000 + c / 0x40 % 0x40 * 0x40 + c % 0x40
    ensures c == c / 0x40000 * 0x40000 + c / 0x1000 % 0x40 * 0x1000 + c / 0x40 % 0x40 * 0x40 + c % 0x40
  {
    DividedTwice(c);
    Divided(c);
    Divided(c / 64);
    Divided(c / 64 / 64);
  }

  lemma Divided(c: nat)
    ensures c == c / 64 * 64 + c % 64
  {
  }

  // The bytes of a scalar are decoded to it.
  lemma DecodeEncoded(text: seq<Byte>, i: nat, c: Scalar)
    requires Stands(text, i, Utf8Of(c))
    ensures Decode(text, i) == Rune(c, |Utf8Of(c)|)
  {
    var s := Utf8Of(c);
    DigitsMake(c);
    assert text[i] == s[0];
    if c > 0x7F {
      assert text[i + 1] == s[1];
    }
    if c > 0x7FF {
      assert text[i + 2] == s[2];
    }
    if c > 0xFFFF {
      assert text[i + 3] == s[3];
    }
  }

  // The answer for bytes that are no scalar's is the replacement character with
  // size one; any other answer is read from the bytes of a scalar.
  lemma DecodedIff(text: seq<Byte>, i: nat)
    requires i < |text|
    ensures var r := Decode(text, i);
      || (Stands(text, i, Utf8Of(r.code)) && r.size == |Utf8Of(r.code)|)
      || (r == Rune(0xFFFD, 1) && forall c: Scalar :: !Stands(text, i, Utf8Of(c)))
  {
    var r := Decode(text, i);
    if r == INVALID {
      assert |Utf8Of(0xFFFD)| == 3;
      forall c: Scalar
        ensures !Stands(text, i, Utf8Of(c))
      {
        if Stands(text, i, Utf8Of(c)) {
          DecodeEncoded(text, i, c);
          assert false;
        }
      }
    } else {
      DecodedBytes(text, i);
    }
  }

  lemma DecodedBytes(text: seq<Byte>, i: nat)
    requires i < |text| && Decode(text, i) != INVALID
    ensures var r := Decode(text, i); Stands(text, i, Utf8Of(r.code)) && r.size == |Utf8Of(r.code)|
  {
    var r := Decode(text, i);
    if r.size == 2 {
      var b: int, c: int := text[i], text[i + 1];
      LastDigit(b - 0xC0, c - 0x80);
      assert r.code == (b - 0xC0) * 0x40 + (c - 0x80);
      assert Utf8Of(r.code) == [b, c];
    } else if r.size == 3 {
      DecodedThree(text, i);
    } else if r.size == 4 {
      DecodedFour(text, i);
    }
  }

  lemma DecodedThree(text: seq<Byte>, i: nat)
    requires i < |text| && Decode(text, i).size == 3
    ensures Utf8Of(Decode(text, i).code) == [text[i], text[i + 1], text[i + 2]]
  {
    var b: int, c: int, d: int := text[i], text[i + 1], text[i + 2];
    Digits(0, b - 0xE0, c - 0x80, d - 0x80);
    var code: int := Decode(text, i).code;
    assert code == (b - 0xE0) * 0x1000 + (c - 0x80) * 0x40 + (d - 0x80);
    assert 0x800 <= code < 0x10000;
    Quotient(code);
  }

  lemma Quotient(c: nat)
    requires c < 0x10000
    ensures c / 0x1000 % 0x40 == c / 0x1000
  {
  }

  lemma DecodedFour(text: seq<Byte>, i: nat)
    requires i < |text| && Decode(text, i).size == 4
    ensures Utf8Of(Decode(text, i).code) == [text[i], text[i + 1], text[i + 2], text[i + 3]]
  {
    var b: int, c: int, d: int, e: int := text[i], text[i + 1], text[i + 2], text[i + 3];
    Digits(b - 0xF0, c - 0x80, d - 0x80, e - 0x80);
    var code: int := Decode(text, i).code;
    assert code == (b - 0xF0) * 0x40000 + (c - 0x80) * 0x1000 + (d - 0x80) * 0x40 + (e - 0x80);
    assert code >= 0x10000;
  }

  /******* Positions *******/

  lemma UnitsIsLength(c: Scalar)
    ensures Units(c) == |Utf16Of(c)|
  {
  }

  lemma StandsFront(text: seq<Byte>, i: nat, s: seq<Byte>, t: seq<Byte>)
    requires Stands(text, i, s + t)
    ensures Stands(text, i, s) && Stands(text, i + |s|, t)
  {
    var st := s + t;
    assert forall k :: 0 <= k < |s| ==> s[k] == st[k];
    assert forall k :: 0 <= k < |t| ==> t[k] == st[|s| + k];
  }

  lemma StandsInside(text: seq<Byte>, i: nat, s: seq<Byte>)
    requires Stands(text, i, s)
    ensures i + |s| <= |text|
  {
  }

  lemma TextSplits(cs: seq<Scalar>)
    requires cs != []
    ensures Utf8Text(cs) == Utf8Of(cs[0]) + Utf8Text(cs[1..]) && Utf8Of(cs[0]) != []
    ensures |Utf16Text(cs)| == |Utf16Of(cs[0])| + |Utf16Text(cs[1..])|
  {
  }

  lemma ColumnsStep(text: seq<Byte>, i: nat, o: nat)
    requires i < o <= |text|
    ensures var r := Decode(text, i);
      && Columns(text, i, o) == Units(r.code) + Columns(text, i + r.size, o)
      && (Boundary(text, i + r.size, o) ==> Boundary(text, i, o))
  {
  }

  // Columns count the units of the UTF-16 text.
  lemma {:induction false} ColumnsAreUnits(text: seq<Byte>, i: nat, cs: seq<Scalar>)
    requires Stands(text, i, Utf8Text(cs))
    ensures var o := i + |Utf8Text(cs)|; Columns(text, i, o) == |Utf16Text(cs)| && Boundary(text, i, o)
    decreases |cs|
  {
    hide *;
    if cs == [] {
      NoScalars(text, i);
    } else {
      var s := Utf8Of(cs[0]);
      TextSplits(cs);
      StandsFront(text, i, s, Utf8Text(cs[1..]));
      ColumnsAreUnits(text, i + |s|, cs[1..]);
      DecodeEncoded(text, i, cs[0]);
      UnitsIsLength(cs[0]);
      StandsInside(text, i, Utf8Text(cs));
      ColumnsStep(text, i, i + |Utf8Text(cs)|);
    }
  }

  lemma NoScalars(text: seq<Byte>, i: nat)
    requires Stands(text, i, Utf8Text([]))
    ensures Utf8Text([]) == [] && Utf16Text([]) == [] && Columns(text, i, i) == 0 && Boundary(text, i, i) && i <= |text|
  {
  }

  lemma {:induction false} NoNewlineBytes(cs: seq<Scalar>)
    requires forall k :: 0 <= k < |cs| ==> cs[k] != '\n' as int
    ensures forall k :: 0 <= k < |Utf8Text(cs)| ==> Utf8Text(cs)[k] != NL
  {
    if cs != [] {
      NoNewlineBytes(cs[1..]);
      OneScalarBytes(cs[0]);
      assert forall k :: 0 <= k < |cs| - 1 ==> cs[1..][k] == cs[k + 1];
    }
  }

  lemma OneScalarBytes(c: Scalar)
    requires c != 10
    ensures forall k :: 0 <= k < |Utf8Of(c)| ==> Utf8Of(c)[k] != NL
  {
  }

  function LineFeeds(text: seq<Byte>, o: nat): set<nat>
    requires o <= |text|
  {
    set k: nat | k < o && text[k] as int == '\n' as int
  }

  lemma {:induction false} NewlinesCount(text: seq<Byte>, o: nat)
    requires o <= |text|
    ensures Newlines(text, o) == |LineFeeds(text, o)|
  {
    if o == 0 {
      assert LineFeeds(text, o) == {};
    } else {
      NewlinesCount(text, o - 1);
      assert LineFeeds(text, o) == LineFeeds(text, o - 1) + if text[o - 1] == NL then {o - 1} else {};
    }
  }

  // The line that begins at s begins with the scalars cs: their end is at the
  // column that is their length in UTF-16, and is found again from there.
  lemma PositionIsUnits(text: seq<Byte>, s: nat, cs: seq<Scalar>)
    requires s == 0 || (s <= |text| && text[s - 1] as int == '\n' as int)
    requires Stands(text, s, Utf8Text(cs)) && forall k :: 0 <= k < |cs| ==> cs[k] != '\n' as int
    ensures var o := s + |Utf8Text(cs)|;
      var p := Position(|LineFeeds(text, s)|, |Utf16Text(cs)|);
      ToPosition(text, o) == p && ToOffset(text, p) == o
  {
    hide Decode, Boundary, Columns, Seek, LineAt, Utf8Text, Utf16Text, LineFeeds;
    var line := Utf8Text(cs);
    var o := s + |line|;
    ColumnsAreUnits(text, s, cs);
    NoNewlineBytes(cs);
    assert forall k :: s <= k < o ==> text[k] == line[k - s];
    SameLine(text, s, o);
    NewlinesCount(text, s);
    OffsetRoundTrip(text, o);
  }
}
