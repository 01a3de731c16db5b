// Tokens of a source text, as a function of its bytes: what the scanner finds
// when it reports nothing.
module Lexing {
  import opened Utf8

  datatype Option<+T> = None | Some(value: T)

  // Which runes are letters and digits, and the reserved words with their
  // kinds.
  datatype Lexicon = Lexicon(letter: int -> bool, digit: int -> bool, keywords: map<seq<Byte>, string>)

  predicate AsciiLetter(c: int) {
    65 <= c <= 90 || 97 <= c <= 122
  }

  // What Unicode says of ASCII, of the replacement character and of the
  // byte-order mark.
  predicate Sane(lx: Lexicon) {
    && (forall c :: 0 <= c < 128 ==> (lx.letter(c) <==> AsciiLetter(c)))
    && (forall c :: 0 <= c < 128 ==> (lx.digit(c) <==> 48 <= c <= 57))
    && !lx.letter(0xFFFD) && !lx.digit(0xFFFD) && !lx.letter(0xFEFF)
  }

  predicate IdentStart(lx: Lexicon, r: int) {
    r == UNDERSCORE || lx.letter(r)
  }

  predicate IdentContinue(lx: Lexicon, r: int) {
    r == UNDERSCORE || lx.letter(r) || lx.digit(r)
  }

  // An operator or bracket is identified by its spelling.
  datatype Kind = Ident | Keyword(name: string) | Int | Float | Str | RawStr | CStr | Char | Punct(spelling: seq<Byte>)

  datatype Token = Token(kind: Kind, text: seq<Byte>)

  const TAB: Byte := 9
  const LF: Byte := 10
  const CR: Byte := 13
  const SPACE: Byte := 32
  const QUOTE: Byte := 34
  const HASH: Byte := 35
  const APOSTROPHE: Byte := 39
  const STAR: Byte := 42
  const PLUS: Byte := 43
  const MINUS: Byte := 45
  const DOT: Byte := 46
  const SLASH: Byte := 47
  const ZERO: Byte := 48
  const EQUALS: Byte := 61
  const GREATER: Byte := 62
  const BACKSLASH: Byte := 92
  const UNDERSCORE: Byte := 95
  const LETTER_C: Byte := 99
  const LETTER_R: Byte := 114
  const LETTER_U: Byte := 117
  const LBRACE: Byte := 123
  const RBRACE: Byte := 125

  // The byte at i, or 0 past the end.
  function Peek(src: seq<Byte>, i: nat): Byte {
    if i < |src| then src[i] else 0
  }

  // One byte on; a CR takes the LF that follows it along.
  function Next(src: seq<Byte>, i: nat): (j: nat)
    requires i < |src|
    ensures i < j <= |src|
  {
    if src[i] == CR && i + 1 < |src| && src[i + 1] == LF then i + 2 else i + 1
  }

  // One rune on.
  function NextRune(src: seq<Byte>, i: nat): (j: nat)
    requires i < |src|
    ensures i < j <= |src|
  {
    if src[i] == CR then Next(src, i) else i + Decode(src, i).size
  }

  /******* Trivia *******/

  // The end of a line comment: the line feed, or the end of the text.
  function LineEnd(src: seq<Byte>, i: nat): (j: nat)
    requires i <= |src|
    ensures i <= j <= |src|
    decreases |src| - i
  {
    if i < |src| && src[i] != LF then LineEnd(src, Next(src, i)) else i
  }

  // The end of a block comment, inside `depth` of them.
  function BlockEnd(src: seq<Byte>, i: nat, depth: nat): (r: Option<nat>)
    requires i <= |src|
    ensures r.Some? ==> i <= r.value <= |src|
    decreases |src| - i
  {
    if depth == 0 then Some(i)
    else if i >= |src| then None
    else if src[i] == SLASH && Peek(src, i + 1) == STAR then BlockEnd(src, i + 2, depth + 1)
    else if src[i] == STAR && Peek(src, i + 1) == SLASH then BlockEnd(src, i + 2, depth - 1)
    else BlockEnd(src, Next(src, i), depth)
  }

  predicate Blank(b: Byte) {
    b == SPACE || b == TAB || b == LF || b == CR
  }

  predicate CommentStart(src: seq<Byte>, i: nat) {
    Peek(src, i) == SLASH && (Peek(src, i + 1) == SLASH || Peek(src, i + 1) == STAR)
  }

  // Where the next token begins. None: a block comment is not closed.
  function Trivia(src: seq<Byte>, i: nat): (r: Option<nat>)
    requires i <= |src|
    ensures r.Some? ==> i <= r.value <= |src| && (r.value < |src| ==> !Blank(src[r.value]) && !CommentStart(src, r.value))
    decreases |src| - i
  {
    if i == |src| then Some(i)
    else if Blank(src[i]) then Trivia(src, Next(src, i))
    else if src[i] == SLASH && Peek(src, i + 1) == SLASH then Trivia(src, LineEnd(src, Next(src, i)))
    else if src[i] == SLASH && Peek(src, i + 1) == STAR then
      var j := BlockEnd(src, i + 2, 1);
      if j.None? then None else Trivia(src, j.value)
    else Some(i)
  }

  /******* Words and strings *******/

  function WordEnd(lx: Lexicon, src: seq<Byte>, i: nat): (j: nat)
    requires i <= |src|
    ensures i <= j <= |src|
    decreases |src| - i
  {
    if i < |src| && IdentContinue(lx, Decode(src, i).code) then WordEnd(lx, src, NextRune(src, i)) else i
  }

  // The end of a string body, its closing quote included.
  function Quoted(src: seq<Byte>, i: nat): (r: Option<nat>)
    requires i <= |src|
    ensures r.Some? ==> i < r.value <= |src|
    decreases |src| - i
  {
    if i == |src| then None
    else if src[i] == QUOTE then Some(i + 1)
    else if src[i] == BACKSLASH then (if i + 1 < |src| then Quoted(src, Next(src, i + 1)) else None)
    else Quoted(src, Next(src, i))
  }

  function Hashes(src: seq<Byte>, i: nat): (n: nat)
    requires i <= |src|
    ensures i + n <= |src| && forall k :: i <= k < i + n ==> src[k] == HASH
    ensures Peek(src, i + n) != HASH
    decreases |src| - i
  {
    if i < |src| && src[i] == HASH then 1 + Hashes(src, i + 1) else 0
  }

  predicate HashesAt(src: seq<Byte>, i: nat, n: nat) {
    i + n <= |src| && forall k :: i <= k < i + n ==> src[k] == HASH
  }

  // At an `r`: hashes and an opening quote follow.
  predicate RawOpener(src: seq<Byte>, i: nat)
    requires i < |src|
  {
    Peek(src, i + 1 + Hashes(src, i + 1)) == QUOTE
  }

  // The end of a raw string body closed by a quote and n hashes.
  function RawEnd(src: seq<Byte>, i: nat, n: nat): (r: Option<nat>)
    requires i <= |src|
    ensures r.Some? ==> i + n < r.value <= |src|
    decreases |src| - i
  {
    if i == |src| then None
    else if src[i] == QUOTE && HashesAt(src, i + 1, n) then Some(i + 1 + n)
    else RawEnd(src, Next(src, i), n)
  }

  // The first closing brace, or the end of the text.
  function ToBrace(src: seq<Byte>, i: nat): (j: nat)
    requires i <= |src|
    ensures i <= j <= |src|
    decreases |src| - i
  {
    if i < |src| && src[i] != RBRACE then ToBrace(src, Next(src, i)) else i
  }

  // The character after an opening apostrophe: where its closing one must be.
  function CharBody(src: seq<Byte>, i: nat): (r: Option<nat>)
    requires i <= |src|
    ensures r.Some? ==> i < r.value <= |src|
  {
    if i == |src| then None
    else if src[i] != BACKSLASH then Some(NextRune(src, i))
    else if i + 1 == |src| then None
    else
      var j := Next(src, i + 1);
      if src[i + 1] == LETTER_U && j < |src| && src[j] == LBRACE then
        var k := ToBrace(src, j + 1);
        if k < |src| then Some(k + 1) else Some(k)
      else Some(j)
  }

  function CharEnd(src: seq<Byte>, i: nat): (r: Option<nat>)
    requires i <= |src|
    ensures r.Some? ==> i < r.value <= |src|
  {
    var c := CharBody(src, i);
    if c.None? || Peek(src, c.value) != APOSTROPHE then None else Some(c.value + 1)
  }

  /******* Numbers *******/

  predicate Digit(base: nat, b: Byte) {
    || 48 <= b < 48 + (if base < 10 then base else 10)
    || (base == 16 && (97 <= b <= 102 || 65 <= b <= 70))
  }

  function DigitsEnd(src: seq<Byte>, i: nat, base: nat): (j: nat)
    requires i <= |src| && base <= 16
    ensures i <= j <= |src|
    decreases |src| - i
  {
    if i < |src| && (src[i] == UNDERSCORE || Digit(base, src[i])) then DigitsEnd(src, i + 1, base) else i
  }

  function SuffixEnd(lx: Lexicon, src: seq<Byte>, i: nat): (j: nat)
    requires i <= |src|
    ensures i <= j <= |src|
  {
    if i < |src| && IdentStart(lx, Decode(src, i).code) then WordEnd(lx, src, i) else i
  }

  // The base a prefix such as 0x names; 10 if there is none.
  function Base(b: Byte): nat {
    if b == 120 || b == 88 then 16 else if b == 111 || b == 79 then 8 else if b == 98 || b == 66 then 2 else 10
  }

  predicate Prefixed(src: seq<Byte>, i: nat) {
    Peek(src, i) == ZERO && i + 1 < |src| && Base(src[i + 1]) != 10
  }

  // A decimal point counts only when a digit follows.
  function FractionEnd(src: seq<Byte>, i: nat): (j: nat)
    requires i <= |src|
    ensures i <= j <= |src|
  {
    if i < |src| && src[i] == DOT && Digit(10, Peek(src, i + 1)) then DigitsEnd(src, i + 1, 10) else i
  }

  function ExponentEnd(src: seq<Byte>, i: nat): (j: nat)
    requires i <= |src|
    ensures i <= j <= |src|
  {
    if i < |src| && (src[i] == 101 || src[i] == 69) then
      DigitsEnd(src, if Peek(src, i + 1) == PLUS || Peek(src, i + 1) == MINUS then i + 2 else i + 1, 10)
    else i
  }

  datatype Lexed = Tok(kind: Kind, end: nat) | Bad

  function Number(lx: Lexicon, src: seq<Byte>, i: nat): (r: Lexed)
    requires i < |src| && Digit(10, src[i])
    ensures r.Tok? && i < r.end <= |src|
  {
    if Prefixed(src, i) then Tok(Int, SuffixEnd(lx, src, DigitsEnd(src, i + 2, Base(src[i + 1]))))
    else
      var a := DigitsEnd(src, i, 10);
      var b := FractionEnd(src, a);
      var c := ExponentEnd(src, b);
      Tok(if a < c then Float else Int, SuffixEnd(lx, src, c))
  }

  /******* Operators *******/

  // Longest match first; 0 if no operator begins here.
  function PunctLength(src: seq<Byte>, i: nat): (n: nat)
    requires i < |src|
    ensures n <= 3 && i + n <= |src|
  {
    var b, c, d := src[i], Peek(src, i + 1), Peek(src, i + 2);
    // ( ) [ ] { } , ; @ # ~
    if b in {40, 41, 91, 93, 123, 125, 44, 59, 64, 35, 126} then 1
    // : ::
    else if b == 58 then (if c == 58 then 2 else 1)
    // . .. ..=
    else if b == 46 then (if c == 46 && d == EQUALS then 3 else if c == 46 then 2 else 1)
    // ? ?.
    else if b == 63 then (if c == 46 then 2 else 1)
    // - -> -=  and  = == =>
    else if b == MINUS || b == EQUALS then (if c == GREATER || c == EQUALS then 2 else 1)
    // < << <<= <=  and  > >> >>= >=
    else if b == 60 || b == GREATER then (if c == b && d == EQUALS then 3 else if c == b || c == EQUALS then 2 else 1)
    // ! + * / % ^ , each alone or before =
    else if b in {33, 43, 42, 47, 37, 94} then (if c == EQUALS then 2 else 1)
    // & && &=  and  | || |=
    else if b == 38 || b == 124 then (if c == b || c == EQUALS then 2 else 1)
    else 0
  }

  /******* Tokens *******/

  function Word(lx: Lexicon, src: seq<Byte>, i: nat): (r: Lexed)
    requires i < |src| && IdentStart(lx, Decode(src, i).code)
    ensures r.Tok? && i < r.end <= |src|
  {
    var e := WordEnd(lx, src, NextRune(src, i));
    var text := src[i..e];
    Tok(if text in lx.keywords then Keyword(lx.keywords[text]) else Ident, e)
  }

  function LexOne(lx: Lexicon, src: seq<Byte>, i: nat): (r: Lexed)
    requires i < |src|
    ensures r.Tok? ==> i < r.end <= |src|
  {
    var b := src[i];
    if b >= 0x80 || IdentStart(lx, b) then
      if b == LETTER_R && RawOpener(src, i) then
        var n := Hashes(src, i + 1);
        var e := RawEnd(src, i + 2 + n, n);
        if e.None? then Bad else Tok(RawStr, e.value)
      else if b == LETTER_C && Peek(src, i + 1) == QUOTE then
        var e := Quoted(src, i + 2);
        if e.None? then Bad else Tok(CStr, e.value)
      else if IdentStart(lx, Decode(src, i).code) then Word(lx, src, i)
      else Bad
    else if Digit(10, b) then Number(lx, src, i)
    else if b == QUOTE then
      var e := Quoted(src, i + 1);
      if e.None? then Bad else Tok(Str, e.value)
    else if b == APOSTROPHE then
      var e := CharEnd(src, i + 1);
      if e.None? then Bad else Tok(Char, e.value)
    else
      var n := PunctLength(src, i);
      if n == 0 then Bad else Tok(Punct(src[i..i + n]), i + n)
  }

  predicate HasBom(src: seq<Byte>) {
    |src| >= 3 && src[0] == 0xEF && src[1] == 0xBB && src[2] == 0xBF
  }

  // The tokens from i on; None if anything is reported.
  function ScanFrom(lx: Lexicon, src: seq<Byte>, i: nat): Option<seq<Token>>
    requires i <= |src|
    decreases |src| - i
  {
    var j := Trivia(src, i);
    if j.None? then None
    else if j.value == |src| then Some([])
    else
      match LexOne(lx, src, j.value)
      case Bad => None
      case Tok(kind, e) =>
        var rest := ScanFrom(lx, src, e);
        if rest.None? then None else Some([Token(kind, src[j.value..e])] + rest.value)
  }

  function Scan(lx: Lexicon, src: seq<Byte>): Option<seq<Token>> {
    if HasBom(src) then None else ScanFrom(lx, src, 0)
  }
}
