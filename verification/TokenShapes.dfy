// Which operators and numbers there are, spelled out.
module TokenShapes {
  import opened Utf8
  import opened Lexing

  /******* Operators *******/

  // Every operator that begins with the byte b.
  function Spellings(b: Byte): seq<string> {
    match b as int as char
    case '(' => ["("]
    case ')' => [")"]
    case '[' => ["["]
    case ']' => ["]"]
    case '{' => ["{"]
    case '}' => ["}"]
    case ',' => [","]
    case ';' => [";"]
    case '@' => ["@"]
    case '#' => ["#"]
    case '~' => ["~"]
    case ':' => [":", "::"]
    case '.' => [".", "..", "..="]
    case '?' => ["?", "?."]
    case '-' => ["-", "->", "-="]
    case '=' => ["=", "==", "=>"]
    case '!' => ["!", "!="]
    case '<' => ["<", "<<", "<<=", "<="]
    case '>' => [">", ">>", ">>=", ">="]
    case '+' => ["+", "+="]
    case '*' => ["*", "*="]
    case '/' => ["/", "/="]
    case '%' => ["%", "%="]
    case '^' => ["^", "^="]
    case '&' => ["&", "&&", "&="]
    case '|' => ["|", "||", "|="]
    case _ => []
  }

  // The spelling s stands at i.
  predicate Spelled(src: seq<Byte>, i: nat, s: string) {
    i + |s| <= |src| && forall k :: 0 <= k < |s| ==> src[i + k] as int == s[k] as int
  }

  lemma OneLength(src: seq<Byte>, i: nat, k: nat)
    requires i < |src| && k < |Spellings(src[i])| && Spelled(src, i, Spellings(src[i])[k])
    ensures 1 <= |Spellings(src[i])[k]| <= PunctLength(src, i)
  {
    var s := Spellings(src[i])[k];
    assert |s| >= 1 && (|s| >= 2 ==> Peek(src, i + 1) as int == s[1] as int) && (|s| >= 3 ==> Peek(src, i + 2) as int == s[2] as int);
  }

  lemma SomeSpelling(src: seq<Byte>, i: nat) returns (k: nat)
    requires i < |src| && PunctLength(src, i) > 0
    ensures k < |Spellings(src[i])| && Spelled(src, i, Spellings(src[i])[k]) && |Spellings(src[i])[k]| == PunctLength(src, i)
  {
    var n := PunctLength(src, i);
    var all := Spellings(src[i]);
    if |all[0]| == n {
      k := 0;
    } else if |all[1]| == n && src[i + 1] as int == all[1][1] as int {
      k := 1;
    } else if |all[2]| == n && src[i + 1] as int == all[2][1] as int {
      k := 2;
    } else {
      k := 3;
    }
  }

  // The operator found is the longest that stands there; none is found only
  // where none stands.
  lemma MaximalMunch(src: seq<Byte>, i: nat)
    requires i < |src|
    ensures PunctLength(src, i) > 0 ==>
      exists k :: 0 <= k < |Spellings(src[i])| && Spelled(src, i, Spellings(src[i])[k]) && |Spellings(src[i])[k]| == PunctLength(src, i)
    ensures forall k :: 0 <= k < |Spellings(src[i])| && Spelled(src, i, Spellings(src[i])[k]) ==>
      1 <= |Spellings(src[i])[k]| <= PunctLength(src, i)
  {
    hide Spellings, PunctLength, Spelled;
    if PunctLength(src, i) > 0 {
      var k := SomeSpelling(src, i);
    }
    forall k | 0 <= k < |Spellings(src[i])| && Spelled(src, i, Spellings(src[i])[k])
      ensures 1 <= |Spellings(src[i])[k]| <= PunctLength(src, i)
    {
      OneLength(src, i, k);
    }
  }

  /******* Numbers *******/

  predicate Decimal(b: Byte) {
    '0' as int <= b as int <= '9' as int
  }

  lemma DigitTable(b: Byte)
    ensures Digit(10, b) <==> Decimal(b)
    ensures Digit(2, b) <==> b as int == '0' as int || b as int == '1' as int
    ensures Digit(8, b) <==> '0' as int <= b as int <= '7' as int
    ensures Digit(16, b) <==> Decimal(b) || 'a' as int <= b as int <= 'f' as int || 'A' as int <= b as int <= 'F' as int
  {
  }

  // n digits from i on.
  predicate Run(src: seq<Byte>, i: nat, n: nat, base: nat) {
    i + n <= |src| && forall k :: i <= k < i + n ==> Digit(base, src[k])
  }

  // Neither a digit nor an underscore stands at i.
  predicate RunStops(src: seq<Byte>, i: nat, base: nat) {
    i < |src| ==> src[i] as int != '_' as int && !Digit(base, src[i])
  }

  // No suffix begins at i.
  predicate NoSuffix(lx: Lexicon, src: seq<Byte>, i: nat) {
    i < |src| ==> !IdentStart(lx, Decode(src, i).code)
  }

  lemma {:induction false} RunEnd(src: seq<Byte>, i: nat, n: nat, base: nat)
    requires Run(src, i, n, base) && RunStops(src, i + n, base) && base <= 16
    ensures DigitsEnd(src, i, base) == i + n
    decreases n
  {
    if n > 0 {
      RunEnd(src, i + 1, n - 1, base);
    }
  }

  predicate ExponentMark(b: Byte) {
    b as int == 'e' as int || b as int == 'E' as int
  }

  predicate NoExponent(src: seq<Byte>, i: nat) {
    i < |src| ==> !ExponentMark(src[i])
  }

  // Digits alone are an integer; so are digits before a dot that no digit
  // follows, and the dot is not part of it.
  lemma IntegerIs(lx: Lexicon, src: seq<Byte>, i: nat, n: nat)
    requires n > 0 && Run(src, i, n, 10) && RunStops(src, i + n, 10) && !Prefixed(src, i)
    requires NoExponent(src, i + n) && NoSuffix(lx, src, i + n)
    requires i + n < |src| && src[i + n] as int == '.' as int ==> !(i + n + 1 < |src| && Decimal(src[i + n + 1]))
    ensures Number(lx, src, i) == Tok(Int, i + n)
  {
    hide Decode, DigitsEnd;
    RunEnd(src, i, n, 10);
  }

  // A word right after it belongs to the number.
  lemma SuffixIs(lx: Lexicon, src: seq<Byte>, i: nat, n: nat)
    requires n > 0 && Run(src, i, n, 10) && RunStops(src, i + n, 10) && !Prefixed(src, i)
    requires i + n < |src| && !ExponentMark(src[i + n]) && src[i + n] as int != '.' as int
    requires IdentStart(lx, Decode(src, i + n).code)
    ensures Number(lx, src, i) == Tok(Int, WordEnd(lx, src, i + n))
  {
    hide Decode, DigitsEnd, WordEnd;
    RunEnd(src, i, n, 10);
  }

  // Digits, a dot and digits are a float.
  lemma FractionIs(lx: Lexicon, src: seq<Byte>, i: nat, n: nat, m: nat)
    requires n > 0 && m > 0 && Run(src, i, n, 10) && Run(src, i + n + 1, m, 10) && !Prefixed(src, i)
    requires src[i + n] as int == '.' as int && RunStops(src, i + n + 1 + m, 10)
    requires NoExponent(src, i + n + 1 + m) && NoSuffix(lx, src, i + n + 1 + m)
    ensures Number(lx, src, i) == Tok(Float, i + n + 1 + m)
  {
    hide Decode, DigitsEnd;
    RunEnd(src, i, n, 10);
    RunEnd(src, i + n + 1, m, 10);
    var _ := DigitsEnd(src, i + n, 10);
  }

  // Digits and an exponent, with or without a sign, are a float.
  lemma ExponentIs(lx: Lexicon, src: seq<Byte>, i: nat, n: nat, sign: bool, m: nat)
    requires n > 0 && Run(src, i, n, 10) && i + n < |src| && ExponentMark(src[i + n]) && !Prefixed(src, i)
    requires var from := i + n + if sign then 2 else 1;
      && (sign ==> i + n + 1 < |src| && (src[i + n + 1] as int == '+' as int || src[i + n + 1] as int == '-' as int))
      && m > 0 && Run(src, from, m, 10) && RunStops(src, from + m, 10) && NoSuffix(lx, src, from + m)
    ensures Number(lx, src, i) == Tok(Float, i + n + (if sign then 2 else 1) + m)
  {
    hide Decode, DigitsEnd;
    RunEnd(src, i, n, 10);
    var from := i + n + if sign then 2 else 1;
    RunEnd(src, from, m, 10);
    assert !sign ==> Digit(10, src[from]);
  }

  predicate BaseMark(b: Byte, base: nat) {
    || (base == 16 && (b as int == 'x' as int || b as int == 'X' as int))
    || (base == 8 && (b as int == 'o' as int || b as int == 'O' as int))
    || (base == 2 && (b as int == 'b' as int || b as int == 'B' as int))
  }

  // A zero, a base letter and digits of that base are an integer.
  lemma PrefixedIs(lx: Lexicon, src: seq<Byte>, i: nat, base: nat, n: nat)
    requires i + 1 < |src| && src[i] as int == '0' as int && BaseMark(src[i + 1], base)
    requires Run(src, i + 2, n, base) && RunStops(src, i + 2 + n, base) && NoSuffix(lx, src, i + 2 + n)
    ensures Number(lx, src, i) == Tok(Int, i + 2 + n)
  {
    hide Decode, DigitsEnd;
    RunEnd(src, i + 2, n, base);
  }

  /******* Comments *******/

  predicate Pair(src: seq<Byte>, i: nat, a: char, b: char) {
    i + 1 < |src| && src[i] as int == a as int && src[i + 1] as int == b as int
  }

  predicate BlankChar(b: Byte) {
    b as char == ' ' || b as char == '\t' || b as char == '\n' || b as char == '\r'
  }

  // What comes before a token: blanks and comments, and nothing else.
  lemma TriviaIs(src: seq<Byte>, i: nat)
    requires i < |src|
    ensures BlankChar(src[i]) ==> Trivia(src, i) == Trivia(src, i + 1)
    ensures Pair(src, i, '/', '/') ==> Trivia(src, i) == Trivia(src, LineEnd(src, i + 1))
    ensures Pair(src, i, '/', '*') ==>
      var j := BlockEnd(src, i + 2, 1); Trivia(src, i) == if j.Some? then Trivia(src, j.value) else Option.None
    ensures !BlankChar(src[i]) && !Pair(src, i, '/', '/') && !Pair(src, i, '/', '*') ==> Trivia(src, i) == Option.Some(i)
  {
    hide LineEnd, BlockEnd;
  }

  // e is the first line feed from i on, or the end of the text.
  predicate FirstLineFeed(src: seq<Byte>, i: nat, e: nat) {
    i <= e <= |src| && (e < |src| ==> src[e] as int == '\n' as int) && forall k :: i <= k < e ==> src[k] as int != '\n' as int
  }

  // A line comment goes on to the first line feed, unless a carriage return
  // stands before that: then the next line is part of the comment too.
  lemma LineCommentIff(src: seq<Byte>, i: nat, e: nat)
    requires FirstLineFeed(src, i, e)
    ensures LineEnd(src, i) == e <==> !(i < e < |src| && src[e - 1] as int == '\r' as int)
    ensures i < e < |src| && src[e - 1] as int == '\r' as int ==> LineEnd(src, i) == LineEnd(src, e + 1)
  {
    LineCommentEnds(src, i, e);
  }

  lemma {:induction false} LineCommentEnds(src: seq<Byte>, i: nat, e: nat)
    requires FirstLineFeed(src, i, e)
    ensures LineEnd(src, i) == if i < e < |src| && src[e - 1] as int == '\r' as int then LineEnd(src, e + 1) else e
    decreases e - i
  {
    if i < e && Next(src, i) <= e {
      LineCommentEnds(src, Next(src, i), e);
    }
  }

  // So after `//` and a CRLF the text up to the next line feed is skipped,
  // whatever it is.
  lemma NextLineIsSkipped(lx: Lexicon, rest: seq<Byte>)
    requires forall k :: 0 <= k < |rest| ==> rest[k] as int != '\n' as int
    ensures var src: seq<Byte> := [SLASH, SLASH, CR, LF] + rest;
      Trivia(src, 0) == Option.Some(|src|) && Scan(lx, src) == Option.Some([])
  {
    var src: seq<Byte> := [SLASH, SLASH, CR, LF] + rest;
    assert forall k :: 4 <= k < |src| ==> src[k] == rest[k - 4];
    LineCommentIff(src, 1, 3);
    LineCommentIff(src, 4, |src|);
  }

  // Inside comments, up to the next opening or closing pair, nothing counts.
  lemma {:induction false} CommentBody(src: seq<Byte>, i: nat, e: nat, depth: nat)
    requires i <= e <= |src| && depth > 0
    requires forall k :: i <= k < e ==> !Pair(src, k, '/', '*') && !Pair(src, k, '*', '/')
    requires e < |src| ==> Pair(src, e, '/', '*') || Pair(src, e, '*', '/')
    ensures BlockEnd(src, i, depth) ==
      if e == |src| then Option.None
      else if Pair(src, e, '/', '*') then BlockEnd(src, e + 2, depth + 1)
      else BlockEnd(src, e + 2, depth - 1)
    decreases e - i
  {
    if i < e {
      assert !Pair(src, i, '/', '*') && !Pair(src, i, '*', '/');
      CommentBody(src, Next(src, i), e, depth);
    }
  }

  lemma CommentOver(src: seq<Byte>, i: nat)
    requires i <= |src|
    ensures BlockEnd(src, i, 0) == Option.Some(i)
  {
  }

  /******* Strings *******/

  // What stands in a string: a byte that is neither a quote nor a backslash, or
  // a backslash and any byte.
  datatype Piece = Byte(b: Byte) | Escape(b: Byte)

  function Bytes(ps: seq<Piece>): seq<Byte> {
    if ps == [] then []
    else (if ps[0].Byte? then [ps[0].b] else ['\\' as int, ps[0].b]) + Bytes(ps[1..])
  }

  predicate Literal(ps: seq<Piece>) {
    forall k :: 0 <= k < |ps| && ps[k].Byte? ==> ps[k].b as int != '"' as int && ps[k].b as int != '\\' as int
  }

  predicate Holds(src: seq<Byte>, i: nat, s: seq<Byte>) {
    i + |s| <= |src| && src[i..i + |s|] == s
  }

  // Such pieces and a quote: the string ends there and not before.
  lemma {:induction false} StringEnds(src: seq<Byte>, i: nat, ps: seq<Piece>)
    requires Literal(ps) && Holds(src, i, Bytes(ps))
    requires i + |Bytes(ps)| < |src| && src[i + |Bytes(ps)|] as int == '"' as int
    ensures Quoted(src, i) == Option.Some(i + |Bytes(ps)| + 1)
    decreases |ps|
  {
    if ps != [] {
      var all, rest := Bytes(ps), Bytes(ps[1..]);
      var w := if ps[0].Byte? then 1 else 2;
      assert all[w..] == rest && src[i] == all[0];
      assert src[i + w..i + |all|] == all[w..];
      assert w == 2 ==> src[i + 1] == all[1];
      StringEnds(src, i + w, ps[1..]);
      SkipPair(src, i);
    }
  }

  // A carriage return and the line feed after it may as well be taken apart.
  lemma SkipPair(src: seq<Byte>, i: nat)
    requires i < |src|
    ensures src[i] as int != '"' as int && src[i] as int != '\\' as int ==> Quoted(src, i) == Quoted(src, i + 1)
    ensures src[i] as int == '\\' as int && i + 1 < |src| ==> Quoted(src, i) == Quoted(src, i + 2)
  {
  }

  // n hashes follow the byte at i.
  predicate Hashed(src: seq<Byte>, i: nat, n: nat) {
    i + n < |src| && forall k :: i < k <= i + n ==> src[k] as int == '#' as int
  }

  // A raw string ends at the first quote that as many hashes follow as opened it.
  lemma {:induction false} RawStringEnds(src: seq<Byte>, i: nat, e: nat, n: nat)
    requires i <= e < |src| && src[e] as int == '"' as int && Hashed(src, e, n)
    requires forall k :: i <= k < e ==> !(src[k] as int == '"' as int && Hashed(src, k, n))
    ensures RawEnd(src, i, n) == Option.Some(e + 1 + n)
    decreases e - i
  {
    if i < e {
      assert !(src[i] as int == '"' as int && Hashed(src, i, n));
      RawStringEnds(src, Next(src, i), e, n);
    } else {
      assert HashesAt(src, i + 1, n);
    }
  }

  /******* Characters *******/

  // One rune, a backslash and one byte, or a backslash, `u` and anything in
  // braces, between apostrophes.
  lemma CharacterIs(src: seq<Byte>, i: nat)
    requires i < |src| && src[i] as int != '\\' as int && src[i] as int != '\r' as int
    ensures var w := Decode(src, i).size;
      CharEnd(src, i) == if i + w < |src| && src[i + w] as int == '\'' as int then Option.Some(i + w + 1) else Option.None
  {
    hide Decode;
  }

  lemma EscapeIs(src: seq<Byte>, i: nat)
    requires i + 2 < |src| && src[i] as int == '\\' as int && src[i + 2] as int == '\'' as int && src[i + 1] as int != '\r' as int
    ensures CharEnd(src, i) == Option.Some(i + 3)
  {
  }

  lemma UnicodeEscapeIs(src: seq<Byte>, i: nat, e: nat)
    requires i + 2 < e && e + 1 < |src| && Pair(src, i, '\\', 'u') && Pair(src, i + 1, 'u', '{') && Pair(src, e, '}', '\'')
    requires forall k :: i + 3 <= k < e ==> src[k] as int != '}' as int
    ensures CharEnd(src, i) == Option.Some(e + 2)
  {
    BraceFound(src, i + 3, e);
  }

  lemma {:induction false} BraceFound(src: seq<Byte>, i: nat, e: nat)
    requires i <= e < |src| && src[e] as int == '}' as int && forall k :: i <= k < e ==> src[k] as int != '}' as int
    ensures ToBrace(src, i) == e
    decreases e - i
  {
    if i < e {
      BraceFound(src, Next(src, i), e);
    }
  }

  /******* Words *******/

  // A word goes on over runes that are letters, digits or underscores.
  lemma WordGoes(lx: Lexicon, src: seq<Byte>, i: nat)
    requires i <= |src|
    ensures i < |src| && src[i] as int != '\r' as int && Continue(lx, Decode(src, i).code) ==>
      WordEnd(lx, src, i) == WordEnd(lx, src, i + Decode(src, i).size)
    ensures i == |src| || !Continue(lx, Decode(src, i).code) ==> WordEnd(lx, src, i) == i
  {
    hide Decode;
  }

  predicate Continue(lx: Lexicon, r: int) {
    r == '_' as int || lx.letter(r) || lx.digit(r)
  }

  /******* Kinds *******/

  // What a token is, from its first bytes.
  lemma KindIs(lx: Lexicon, src: seq<Byte>, i: nat)
    requires i < |src| && Sane(lx) && LexOne(lx, src, i).Tok?
    ensures var b, kind := src[i] as char, LexOne(lx, src, i).kind;
      && (b == '"' ==> kind == Str)
      && (b == '\'' ==> kind == Char)
      && ('0' <= b <= '9' ==> kind == Int || kind == Float)
      && (b == 'c' && i + 1 < |src| && src[i + 1] as int == '"' as int ==> kind == CStr)
      && (b == 'r' && i + 1 < |src| && src[i + 1] as int == '"' as int ==> kind == RawStr)
      && (b == '_' || 'a' <= b <= 'z' || 'A' <= b <= 'Z' ==> kind == Ident || kind.Keyword? || (b == 'c' && kind == CStr) || (b == 'r' && kind == RawStr))
      && (kind.Punct? ==> exists k :: 0 <= k < |Spellings(src[i])| && Spelled(src, i, Spellings(src[i])[k]))
  {
    hide Spellings, PunctLength, Spelled, Decode, WordEnd, Quoted, RawEnd, CharEnd;
    MaximalMunch(src, i);
  }
}
