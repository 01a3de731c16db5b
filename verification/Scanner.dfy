// The scanner itself: an offset, a line and a column moved byte by byte or rune
// by rune, with tokens and diagnostics appended on the way. It is proved to
// find exactly the tokens that Lexing defines, with the right positions.
module Scanner {
  import opened Utf8
  import opened Lexing
  import opened Rescanning

  /******* Positions *******/

  datatype Pos = Pos(offset: nat, line: nat, column: nat)

  // The byte at k ends a line: a line feed, or a carriage return alone.
  predicate Breaks(src: seq<Byte>, k: nat)
    requires k < |src|
  {
    src[k] == LF || (src[k] == CR && Peek(src, k + 1) != LF)
  }

  function LineNo(src: seq<Byte>, o: nat): nat
    requires o <= |src|
  {
    if o == 0 then 1 else LineNo(src, o - 1) + if Breaks(src, o - 1) then 1 else 0
  }

  function LineBegin(src: seq<Byte>, o: nat): (b: nat)
    requires o <= |src|
    ensures b <= o
  {
    if o == 0 then 0 else if Breaks(src, o - 1) then o else LineBegin(src, o - 1)
  }

  // The position of an offset: its line and its byte column, from 1.
  function Where(src: seq<Byte>, o: nat): Pos
    requires o <= |src|
  {
    Pos(o, LineNo(src, o), 1 + o - LineBegin(src, o))
  }

  lemma {:induction false} SameLine(src: seq<Byte>, i: nat, w: nat)
    requires i + w <= |src| && forall k :: i <= k < i + w ==> src[k] != LF && src[k] != CR
    ensures LineNo(src, i + w) == LineNo(src, i) && LineBegin(src, i + w) == LineBegin(src, i)
    decreases w
  {
    if w > 0 {
      SameLine(src, i, w - 1);
    }
  }

  datatype Spanned = Spanned(token: Token, start: Pos, end: Pos) | Eof(at: Pos)

  function Tokens(ts: seq<Spanned>): seq<Token>
    requires forall k :: 0 <= k < |ts| ==> ts[k].Spanned?
  {
    seq(|ts|, k requires 0 <= k < |ts| => ts[k].token)
  }

  // The token's text and positions are those of its place in the source.
  predicate Placed(src: seq<Byte>, t: Spanned) {
    match t
    case Spanned(token, a, b) =>
      a.offset <= b.offset <= |src| && a == Where(src, a.offset) && b == Where(src, b.offset) && token.text == src[a.offset..b.offset]
    case Eof(a) => a.offset <= |src| && a == Where(src, a.offset)
  }

  // With the tokens found so far in front.
  function After(ts: seq<Token>, rest: Option<seq<Token>>): Option<seq<Token>> {
    if rest.None? then None else Some(ts + rest.value)
  }

  class Scanner {
    const lx: Lexicon
    const src: seq<Byte>
    var off: nat
    var line: nat
    var col: nat
    var tokens: seq<Spanned>
    var errs: nat
    var stopped: bool

    constructor (lx: Lexicon, src: seq<Byte>)
      ensures this.lx == lx && this.src == src && Valid() && off == 0 && tokens == [] && errs == 0 && !stopped
    {
      this.lx, this.src := lx, src;
      off, line, col, tokens, errs, stopped := 0, 1, 1, [], 0, false;
    }

    // Line and column are those of the offset.
    predicate Valid()
      reads this
    {
      off <= |src| && Position() == Where(src, off)
    }

    function Position(): Pos
      reads this
    {
      Pos(off, line, col)
    }

    /******* Moving *******/

    method Advance()
      requires Valid()
      modifies this`off, this`line, this`col
      ensures Valid() && off == if old(off) < |src| then Next(src, old(off)) else old(off)
    {
      if off >= |src| {
        return;
      }
      var b := src[off];
      off := off + 1;
      if b == LF {
        line, col := line + 1, 1;
      } else if b == CR {
        if off < |src| && src[off] == LF {
          off := off + 1;
        }
        line, col := line + 1, 1;
      } else {
        col := col + 1;
      }
    }

    method AdvanceRune()
      requires Valid()
      modifies this`off, this`line, this`col
      ensures Valid() && off == if old(off) < |src| then NextRune(src, old(off)) else old(off)
    {
      if off >= |src| {
        return;
      }
      var r := Decode(src, off);
      if r == INVALID || src[off] == LF || src[off] == CR {
        Advance();
      } else {
        SameLine(src, off, r.size);
        off := off + r.size;
        col := col + r.size;
      }
    }

    method AdvanceBy(n: nat)
      requires Valid() && off + n <= |src| && forall k :: off <= k < off + n ==> src[k] != CR
      modifies this`off, this`line, this`col
      ensures Valid() && off == old(off) + n
    {
      var i := 0;
      while i < n
        invariant Valid() && 0 <= i <= n && off == old(off) + i
      {
        Advance();
        i := i + 1;
      }
    }

    // A token from start to here.
    method Emit(kind: Kind, start: Pos)
      requires Valid() && start.offset <= off && start == Where(src, start.offset)
      modifies this`tokens
      ensures tokens == old(tokens) + [Spanned(Token(kind, src[start.offset..off]), start, Where(src, off))]
    {
      tokens := tokens + [Spanned(Token(kind, src[start.offset..off]), start, Position())];
    }

    /******* Trivia *******/

    method SkipTrivia()
      requires Valid() && !stopped
      modifies this`off, this`line, this`col, this`errs, this`stopped
      ensures Valid() && old(off) <= off
      ensures match Trivia(src, old(off))
        case Some(j) => off == j && errs == old(errs) && !stopped
        case None => stopped && errs > old(errs)
    {
      while off < |src| && !stopped
        invariant Valid() && old(off) <= off
        invariant if stopped then Trivia(src, old(off)).None? && errs > old(errs)
                  else errs == old(errs) && Trivia(src, old(off)) == Trivia(src, off)
        decreases !stopped, |src| - off
      {
        var b := src[off];
        if b == SPACE || b == TAB || b == LF || b == CR {
          Advance();
        } else if b == SLASH && Peek(src, off + 1) == SLASH {
          ghost var i := off;
          Advance();
          while off < |src| && src[off] != LF
            invariant Valid() && i < off && !stopped && errs == old(errs)
            invariant LineEnd(src, Next(src, i)) == LineEnd(src, off)
            decreases |src| - off
          {
            Advance();
          }
        } else if b == SLASH && Peek(src, off + 1) == STAR {
          SkipBlockComment();
        } else {
          return;
        }
      }
    }

    method SkipBlockComment()
      requires Valid() && !stopped && off + 1 < |src| && src[off] == SLASH && src[off + 1] == STAR
      modifies this`off, this`line, this`col, this`errs, this`stopped
      ensures Valid() && old(off) < off
      ensures match BlockEnd(src, old(off) + 2, 1)
        case Some(j) => off == j && errs == old(errs) && !stopped
        case None => stopped && errs > old(errs)
    {
      AdvanceBy(2);
      var depth := 1;
      while depth > 0 && off < |src|
        invariant Valid() && old(off) < off && depth >= 0 && !stopped && errs == old(errs)
        invariant BlockEnd(src, old(off) + 2, 1) == BlockEnd(src, off, depth)
        decreases |src| - off
      {
        var b := src[off];
        if b == SLASH && Peek(src, off + 1) == STAR {
          AdvanceBy(2);
          depth := depth + 1;
        } else if b == STAR && Peek(src, off + 1) == SLASH {
          AdvanceBy(2);
          depth := depth - 1;
        } else {
          Advance();
        }
      }
      if depth != 0 {
        errs := errs + 1;
        stopped := true;
      }
    }

    /******* Tokens *******/

    // What one token's routine did, from offset i with these tokens before.
    predicate Did(r: Lexed, i: nat, before: seq<Spanned>, n: nat)
      requires i <= |src|
      reads this
    {
      match r
      case Tok(kind, e) =>
        && off == e && errs == n && !stopped && i <= e <= |src|
        && tokens == before + [Spanned(Token(kind, src[i..e]), Where(src, i), Where(src, e))]
      case Bad => errs > n && tokens == before && (stopped || off > i)
    }

    method ScanOne()
      requires Valid() && !stopped && off < |src| && Sane(lx)
      modifies this
      ensures Valid() && Did(LexOne(lx, src, old(off)), old(off), old(tokens), old(errs))
    {
      hide Decode, Sane, RawEnd, Quoted, CharEnd, Number, PunctLength, Word, RawOpener, Hashes, LineNo, LineBegin, NextRune;
      var b := src[off];
      AsciiStart(lx, src, off);
      if b < 0x80 && IdentStart(lx, b) {
        ScanWord();
      } else if b >= 0x80 {
        if IdentStart(lx, Decode(src, off).code) {
          ScanWord();
        } else {
          AdvanceRune();
          errs := errs + 1;
        }
      } else if Digit(10, b) {
        ScanNumber();
      } else if b == QUOTE {
        var start := Position();
        AdvanceBy(1);
        ScanQuoted(start, Str);
      } else if b == APOSTROPHE {
        ScanChar();
      } else {
        ScanPunct();
      }
    }

    method ScanWord()
      requires Valid() && !stopped && off < |src| && Sane(lx) && IdentStart(lx, Decode(src, off).code)
      modifies this
      ensures Valid() && Did(LexOne(lx, src, old(off)), old(off), old(tokens), old(errs))
    {
      hide Decode, Sane, RawEnd, Quoted, RawOpener, Hashes, LineNo, LineBegin, IdentStart, CharEnd, Number, PunctLength;
      AsciiStart(lx, src, off);
      var start := Position();
      if src[off] == LETTER_R && RawOpener(src, off) {
        ScanRaw();
        return;
      }
      if src[off] == LETTER_C && Peek(src, off + 1) == QUOTE {
        AdvanceBy(2);
        ScanQuoted(start, CStr);
        return;
      }
      WordGoesOn(lx, src, off);
      ConsumeWord();
      var text := src[start.offset..off];
      Emit(if text in lx.keywords then Keyword(lx.keywords[text]) else Ident, start);
    }

    method ConsumeWord()
      requires Valid()
      modifies this`off, this`line, this`col
      ensures Valid() && off == WordEnd(lx, src, old(off))
    {
      while off < |src| && IdentContinue(lx, Decode(src, off).code)
        invariant Valid() && WordEnd(lx, src, old(off)) == WordEnd(lx, src, off)
        decreases |src| - off
      {
        AdvanceRune();
      }
    }

    method ScanRaw()
      requires Valid() && !stopped && off < |src| && src[off] == LETTER_R && RawOpener(src, off)
      modifies this
      ensures Valid()
      ensures var n := Hashes(src, old(off) + 1); var e := RawEnd(src, old(off) + 2 + n, n);
        Did(if e.Some? then Tok(RawStr, e.value) else Bad, old(off), old(tokens), old(errs))
    {
      hide LineNo, LineBegin, RawEnd;
      var start := Position();
      AdvanceBy(1);
      var n := 0;
      while off < |src| && src[off] == HASH
        invariant Valid() && off == old(off) + 1 + n && tokens == old(tokens) && errs == old(errs) && !stopped
        invariant Hashes(src, old(off) + 1) == n + Hashes(src, off)
        decreases |src| - off
      {
        AdvanceBy(1);
        n := n + 1;
      }
      AdvanceBy(1);
      ScanRawBody(start, n);
    }

    // After the opening quote; n hashes close the string.
    method ScanRawBody(start: Pos, n: nat)
      requires Valid() && !stopped && start.offset < off && start == Where(src, start.offset)
      modifies this
      ensures Valid()
      ensures var e := RawEnd(src, old(off), n);
        Did(if e.Some? then Tok(RawStr, e.value) else Bad, start.offset, old(tokens), old(errs))
    {
      hide LineNo, LineBegin;
      while off < |src|
        invariant Valid() && old(off) <= off && tokens == old(tokens) && errs == old(errs) && !stopped
        invariant RawEnd(src, old(off), n) == RawEnd(src, off, n)
        decreases |src| - off
      {
        if src[off] == QUOTE && HashesAt(src, off + 1, n) {
          AdvanceBy(1 + n);
          Emit(RawStr, start);
          return;
        }
        Advance();
      }
      errs := errs + 1;
      stopped := true;
    }

    // After the opening quote.
    method ScanQuoted(start: Pos, kind: Kind)
      requires Valid() && !stopped && start.offset < off && start == Where(src, start.offset)
      modifies this
      ensures Valid()
      ensures var e := Quoted(src, old(off));
        Did(if e.Some? then Tok(kind, e.value) else Bad, start.offset, old(tokens), old(errs))
    {
      hide LineNo, LineBegin;
      while off < |src|
        invariant Valid() && old(off) <= off && tokens == old(tokens) && errs == old(errs) && !stopped
        invariant Quoted(src, old(off)) == Quoted(src, off)
        decreases |src| - off
      {
        var b := src[off];
        if b == QUOTE {
          Advance();
          Emit(kind, start);
          return;
        }
        if b == BACKSLASH {
          Advance();
          if off < |src| {
            Advance();
          }
        } else {
          Advance();
        }
      }
      errs := errs + 1;
      stopped := true;
    }

    method ScanChar()
      requires Valid() && !stopped && off < |src| && src[off] == APOSTROPHE
      modifies this
      ensures Valid()
      ensures var e := CharEnd(src, old(off) + 1);
        Did(if e.Some? then Tok(Char, e.value) else Bad, old(off), old(tokens), old(errs))
    {
      hide LineNo, LineBegin, Decode;
      var start := Position();
      Advance();
      var ok := ScanCharBody();
      if !ok || off >= |src| || src[off] != APOSTROPHE {
        errs := errs + 1;
        stopped := true;
        return;
      }
      Advance();
      Emit(Char, start);
    }

    method ScanCharBody() returns (ok: bool)
      requires Valid()
      modifies this`off, this`line, this`col
      ensures Valid() && ok == CharBody(src, old(off)).Some? && (ok ==> off == CharBody(src, old(off)).value)
    {
      hide LineNo, LineBegin, Decode;
      if off >= |src| {
        return false;
      }
      if src[off] != BACKSLASH {
        AdvanceRune();
        return true;
      }
      Advance();
      if off >= |src| {
        return false;
      }
      var esc := src[off];
      Advance();
      if esc == LETTER_U && off < |src| && src[off] == LBRACE {
        Advance();
        ghost var j := off;
        while off < |src| && src[off] != RBRACE
          invariant Valid() && ToBrace(src, j) == ToBrace(src, off)
          decreases |src| - off
        {
          Advance();
        }
        if off < |src| {
          Advance();
        }
      }
      return true;
    }

    method ConsumeDigits(base: nat)
      requires Valid() && base <= 16
      modifies this`off, this`line, this`col
      ensures Valid() && off == DigitsEnd(src, old(off), base)
    {
      while off < |src| && (src[off] == UNDERSCORE || Digit(base, src[off]))
        invariant Valid() && DigitsEnd(src, old(off), base) == DigitsEnd(src, off, base)
        decreases |src| - off
      {
        Advance();
      }
    }

    method ConsumeSuffix()
      requires Valid()
      modifies this`off, this`line, this`col
      ensures Valid() && off == SuffixEnd(lx, src, old(off))
    {
      if off < |src| && IdentStart(lx, Decode(src, off).code) {
        ConsumeWord();
      }
    }

    // A fraction and an exponent, if there are any.
    method ConsumeFraction() returns (isFloat: bool)
      requires Valid()
      modifies this`off, this`line, this`col
      ensures Valid() && off == ExponentEnd(src, FractionEnd(src, old(off))) && isFloat == (off > old(off))
    {
      hide LineNo, LineBegin, DigitsEnd;
      isFloat := false;
      if off < |src| && src[off] == DOT && Digit(10, Peek(src, off + 1)) {
        isFloat := true;
        AdvanceBy(1);
        ConsumeDigits(10);
      }
      if off < |src| && (src[off] == 101 || src[off] == 69) {
        isFloat := true;
        AdvanceBy(1);
        if off < |src| && (src[off] == PLUS || src[off] == MINUS) {
          AdvanceBy(1);
        }
        ConsumeDigits(10);
      }
    }

    method ScanNumber()
      requires Valid() && !stopped && off < |src| && Digit(10, src[off])
      modifies this
      ensures Valid() && Did(Number(lx, src, old(off)), old(off), old(tokens), old(errs))
    {
      hide LineNo, LineBegin, DigitsEnd, SuffixEnd, Decode, FractionEnd, ExponentEnd;
      var start := Position();
      if src[off] == ZERO && off + 1 < |src| && Base(src[off + 1]) != 10 {
        var base := Base(src[off + 1]);
        AdvanceBy(2);
        ConsumeDigits(base);
        ConsumeSuffix();
        Emit(Int, start);
        return;
      }
      ConsumeDigits(10);
      var isFloat := ConsumeFraction();
      ConsumeSuffix();
      Emit(if isFloat then Float else Int, start);
    }

    method ScanPunct()
      requires Valid() && !stopped && off < |src|
      modifies this
      ensures Valid()
      ensures var n := PunctLength(src, old(off));
        Did(if n == 0 then Bad else Tok(Punct(src[old(off)..old(off) + n]), old(off) + n), old(off), old(tokens), old(errs))
    {
      hide LineNo, LineBegin, Decode;
      var start := Position();
      var n := OperatorSize();
      if n == 0 {
        AdvanceRune();
        errs := errs + 1;
        return;
      }
      var spelling := src[off..off + n];
      AdvanceBy(n);
      Emit(Punct(spelling), start);
    }

    // The longer spellings are tried first.
    method OperatorSize() returns (n: nat)
      requires off < |src|
      ensures n == PunctLength(src, off)
    {
      var after, third := Peek(src, off + 1) as char, Peek(src, off + 2) as char;
      match src[off] as char {
        case '(' | ')' | '[' | ']' | '{' | '}' | ',' | ';' | '@' | '#' | '~' => n := 1;
        case ':' => n := if after == ':' then 2 else 1;
        case '.' => n := if after == '.' && third == '=' then 3 else if after == '.' then 2 else 1;
        case '?' => n := if after == '.' then 2 else 1;
        case '-' => n := if after == '>' then 2 else if after == '=' then 2 else 1;
        case '=' => n := if after == '=' then 2 else if after == '>' then 2 else 1;
        case '!' => n := if after == '=' then 2 else 1;
        case '<' => n := if after == '<' && third == '=' then 3 else if after == '<' then 2 else if after == '=' then 2 else 1;
        case '>' => n := if after == '>' && third == '=' then 3 else if after == '>' then 2 else if after == '=' then 2 else 1;
        case '+' | '*' | '/' | '%' | '^' => n := if after == '=' then 2 else 1;
        case '&' => n := if after == '&' then 2 else if after == '=' then 2 else 1;
        case '|' => n := if after == '|' then 2 else if after == '=' then 2 else 1;
        case _ => n := 0;
      }
    }

    /******* The whole buffer *******/

    method Run()
      requires Sane(lx)
      modifies this
      ensures errs == 0 <==> Scan(lx, src).Some?
      ensures tokens != [] && tokens[|tokens| - 1].Eof?
      ensures forall k :: 0 <= k < |tokens| ==> Placed(src, tokens[k]) && (tokens[k].Spanned? <==> k < |tokens| - 1)
      ensures errs == 0 ==> Scan(lx, src) == Some(Tokens(tokens[..|tokens| - 1]))
    {
      hide Sane, LexOne, Trivia, LineNo, LineBegin;
      Restart();
      if HasBom(src) {
        AdvanceBy(3);
        errs := errs + 1;
        stopped := true;
      } else {
        ScanAll();
      }
      ghost var found := tokens;
      tokens := tokens + [Eof(Position())];
      assert tokens[..|tokens| - 1] == found;
    }

    method Restart()
      modifies this
      ensures Valid() && off == 0 && tokens == [] && errs == 0 && !stopped
    {
      off, line, col, tokens, errs, stopped := 0, 1, 1, [], 0, false;
    }

    method ScanAll()
      requires Valid() && Sane(lx) && off == 0 && tokens == [] && errs == 0 && !stopped
      modifies this
      ensures Valid() && forall k :: 0 <= k < |tokens| ==> tokens[k].Spanned? && Placed(src, tokens[k])
      ensures if errs == 0 then ScanFrom(lx, src, 0) == Some(Tokens(tokens)) else ScanFrom(lx, src, 0) == None
    {
      hide Sane, LexOne, Trivia, LineNo, LineBegin, ScanFrom, After;
      AfterFacts([], ScanFrom(lx, src, 0));
      assert Tokens([]) == [];
      while !stopped && off < |src|
        invariant Valid()
        invariant forall k :: 0 <= k < |tokens| ==> tokens[k].Spanned? && Placed(src, tokens[k])
        invariant stopped ==> errs > 0
        invariant ScanFrom(lx, src, 0) == if errs == 0 then After(Tokens(tokens), ScanFrom(lx, src, off)) else None
        decreases !stopped, |src| - off
      {
        ghost var i, n := off, errs;
        AfterFacts(Tokens(tokens), ScanFrom(lx, src, i));
        ScanStops(lx, src, i);
        SkipTrivia();
        if stopped || off >= |src| {
          break;
        }
        ghost var j, before := off, tokens;
        ScanOne();
        OneMore(lx, src, i, j, Tokens(before));
        if tokens != before {
          assert Tokens(tokens) == Tokens(before) + [tokens[|before|].token];
        }
      }
      TriviaAtEnd(lx, src);
      AfterFacts(Tokens(tokens), Some([]));
    }
  }

  lemma AsciiStart(lx: Lexicon, src: seq<Byte>, i: nat)
    requires i < |src| && Sane(lx)
    ensures src[i] < 0x80 ==> Decode(src, i).code == src[i]
    ensures src[i] >= 0x80 ==> !Digit(10, src[i]) && src[i] != QUOTE && src[i] != APOSTROPHE && src[i] != LETTER_R && src[i] != LETTER_C
  {
  }

  lemma WordGoesOn(lx: Lexicon, src: seq<Byte>, i: nat)
    requires i < |src| && IdentStart(lx, Decode(src, i).code)
    ensures WordEnd(lx, src, i) == WordEnd(lx, src, NextRune(src, i))
  {
  }

  lemma OneMore(lx: Lexicon, src: seq<Byte>, i: nat, j: nat, before: seq<Token>)
    requires i <= j < |src| && Trivia(src, i) == Some(j)
    ensures match LexOne(lx, src, j)
      case Bad => After(before, ScanFrom(lx, src, i)) == None
      case Tok(kind, e) =>
        After(before, ScanFrom(lx, src, i)) == After(before + [Token(kind, src[j..e])], ScanFrom(lx, src, e))
  {
    hide LexOne, Trivia;
    var r := LexOne(lx, src, j);
    if r.Tok? && ScanFrom(lx, src, r.end).Some? {
      var t := Token(r.kind, src[j..r.end]);
      assert before + ([t] + ScanFrom(lx, src, r.end).value) == before + [t] + ScanFrom(lx, src, r.end).value;
    }
  }

  lemma AfterFacts(ts: seq<Token>, rest: Option<seq<Token>>)
    ensures After([], rest) == rest && After(ts, Some([])) == Some(ts) && After(ts, None) == None
  {
    assert ts + [] == ts;
    if rest.Some? {
      assert [] + rest.value == rest.value;
    }
  }

  // Nothing but trivia is left, or a comment is not closed.
  lemma ScanStops(lx: Lexicon, src: seq<Byte>, i: nat)
    requires i <= |src|
    ensures Trivia(src, i) == None ==> ScanFrom(lx, src, i) == None
    ensures Trivia(src, i) == Some(|src|) ==> ScanFrom(lx, src, i) == Some([])
  {
  }

  lemma TriviaAtEnd(lx: Lexicon, src: seq<Byte>)
    ensures ScanFrom(lx, src, |src|) == Some([])
  {
  }

  // Scanning, joining the texts with spaces and scanning again.
  method ScanTwice(lx: Lexicon, src: seq<Byte>) returns (first: seq<Token>, second: seq<Token>, ok: bool)
    requires Sane(lx)
    ensures ok <==> Scan(lx, src).Some?
    ensures ok ==> first == second && Scan(lx, src) == Some(first)
  {
    hide Sane, Scan;
    var s := new Scanner(lx, src);
    s.Run();
    first, second, ok := [], [], s.errs == 0;
    if ok {
      first := Tokens(s.tokens[..|s.tokens| - 1]);
      RescanStable(lx, src);
      var s2 := new Scanner(lx, Joined(first));
      s2.Run();
      second := Tokens(s2.tokens[..|s2.tokens| - 1]);
    }
  }
}
