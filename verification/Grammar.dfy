// Parsing the operator fragment without error recovery: what the parser
// returns when it reports nothing.
module Grammar {
  import opened Syntax

  const MAX_DEPTH := 256

  function Cur(ts: seq<Token>, pos: nat): Token {
    if pos < |ts| then ts[pos] else Eof
  }

  predicate Is(ts: seq<Token>, pos: nat, p: Punct) {
    Cur(ts, pos) == P(p)
  }

  datatype Got<T> = Fail | Got(value: T, pos: nat)
  datatype Items<T> = Items(items: seq<T>, trailing: bool)

  // After a path, `{` would open a struct literal in these cases.
  predicate StructBody(ts: seq<Token>, pos: nat) {
    Is(ts, pos, LBrace) &&
    (Is(ts, pos + 1, RBrace) || Is(ts, pos + 1, DotDot) ||
     (IsIdent(Cur(ts, pos + 1)) && (Is(ts, pos + 2, Colon) || Is(ts, pos + 2, Comma) || Is(ts, pos + 2, RBrace))))
  }

  /******* Types *******/

  function ParseSegments(ts: seq<Token>, pos: nat): (r: (seq<string>, nat))
    requires pos <= |ts|
    ensures pos <= r.1 <= |ts|
    decreases |ts| - pos
  {
    if Is(ts, pos, Dot) && IsIdent(Cur(ts, pos + 1)) then
      var rest := ParseSegments(ts, pos + 2);
      ([ts[pos + 1].text] + rest.0, rest.1)
    else ([], pos)
  }

  function ParseType(ts: seq<Token>, pos: nat, d: int): (r: Got<Type>)
    requires pos <= |ts|
    ensures r.Got? ==> pos < r.pos <= |ts|
    decreases |ts| - pos, 1
  {
    if d >= MAX_DEPTH then Fail
    else if !(IsIdent(Cur(ts, pos)) || Cur(ts, pos) == Word("Self")) || Cur(ts, pos) == Word("dyn") then Fail
    else if Cur(ts, pos) == Word("Ptr") && Is(ts, pos + 1, LBracket) then
      var t := ParseType(ts, pos + 2, d + 1);
      if t.Got? && Is(ts, t.pos, RBracket) then Got(PtrType(t.value), t.pos + 1) else Fail
    else
      var segs := ParseSegments(ts, pos + 1);
      if !Is(ts, segs.1, LBracket) then Got(PathType(ts[pos].text, segs.0, false, [], false), segs.1)
      else
        var args := ParseTypes(ts, segs.1 + 1, d + 1, false);
        if args.Got? then Got(PathType(ts[pos].text, segs.0, true, args.value.items, args.value.trailing), args.pos) else Fail
  }

  // The rest of a bracketed list of types, its closing bracket included.
  function ParseTypes(ts: seq<Token>, pos: nat, d: int, afterComma: bool): (r: Got<Items<Type>>)
    requires pos <= |ts|
    ensures r.Got? ==> pos < r.pos <= |ts|
    decreases |ts| - pos, 2
  {
    if Is(ts, pos, RBracket) then Got(Items([], afterComma), pos + 1)
    else
      var t := ParseType(ts, pos, d);
      if t.Fail? then Fail
      else if Is(ts, t.pos, Comma) then
        var rest := ParseTypes(ts, t.pos + 1, d, true);
        if rest.Fail? then Fail else Got(Items([t.value] + rest.value.items, rest.value.trailing), rest.pos)
      else if Is(ts, t.pos, RBracket) then Got(Items([t.value], false), t.pos + 1)
      else Fail
  }

  /******* Expressions *******/

  function ParseExpr(ts: seq<Token>, pos: nat, d: int): (r: Got<Expr>)
    requires pos <= |ts|
    ensures r.Got? ==> pos < r.pos <= |ts|
    decreases |ts| - pos, 20
  {
    if d >= MAX_DEPTH then Fail else Parse(ASSIGN, ts, pos, d + 1)
  }

  // One function for the whole ladder, from assignment down to primaries.
  function Parse(level: nat, ts: seq<Token>, pos: nat, d: int): (r: Got<Expr>)
    requires pos <= |ts| && level <= PRIMARY
    ensures r.Got? ==> pos < r.pos <= |ts|
    decreases |ts| - pos, PRIMARY - level
  {
    if level == PRIMARY then ParsePrimary(ts, pos, d)
    else if level == UNARY && UnOpOf(Cur(ts, pos)).Some? then
      var x := Parse(UNARY, ts, pos + 1, d);
      if x.Got? then Got(Unary(UnOpOf(Cur(ts, pos)).value, x.value), x.pos) else Fail
    else
      var lhs := Parse(level + 1, ts, pos, d);
      if lhs.Fail? then Fail
      else if level == ASSIGN then
        (match AssignOpOf(Cur(ts, lhs.pos))
         case None => lhs
         case Some(op) =>
           var rhs := Parse(ASSIGN, ts, lhs.pos + 1, d);
           if rhs.Got? then Got(Assign(op, lhs.value, rhs.value), rhs.pos) else Fail)
      else if level < CAST then BinLoop(level, lhs.value, ts, lhs.pos, d)
      else if level == CAST then CastLoop(lhs.value, ts, lhs.pos, d)
      else if level == POSTFIX then PostfixLoop(lhs.value, ts, lhs.pos, d)
      else lhs
  }

  function BinLoop(level: nat, lhs: Expr, ts: seq<Token>, pos: nat, d: int): (r: Got<Expr>)
    requires pos <= |ts| && 1 <= level < CAST
    ensures r.Got? ==> pos <= r.pos <= |ts|
    decreases |ts| - pos, 0
  {
    var op := BinOpOf(Cur(ts, pos));
    if op.None? || Level(op.value) != level then Got(lhs, pos)
    else
      var rhs := Parse(level + 1, ts, pos + 1, d);
      if rhs.Got? then BinLoop(level, Binary(op.value, lhs, rhs.value), ts, rhs.pos, d) else Fail
  }

  function CastLoop(lhs: Expr, ts: seq<Token>, pos: nat, d: int): (r: Got<Expr>)
    requires pos <= |ts|
    ensures r.Got? ==> pos <= r.pos <= |ts|
    decreases |ts| - pos, 0
  {
    if !Is(ts, pos, As) then Got(lhs, pos)
    else
      var t := ParseType(ts, pos + 1, d);
      if t.Got? then CastLoop(Cast(lhs, t.value), ts, t.pos, d) else Fail
  }

  function PostfixLoop(lhs: Expr, ts: seq<Token>, pos: nat, d: int): (r: Got<Expr>)
    requires pos <= |ts|
    ensures r.Got? ==> pos <= r.pos <= |ts|
    decreases |ts| - pos, 0
  {
    var one := PostfixOne(lhs, ts, pos, d);
    if one.Fail? then Fail
    else if one.pos == pos then Got(lhs, pos)
    else PostfixLoop(one.value, ts, one.pos, d)
  }

  // One postfix operator, or nothing (the position does not move).
  function PostfixOne(lhs: Expr, ts: seq<Token>, pos: nat, d: int): (r: Got<Expr>)
    requires pos <= |ts|
    ensures r.Got? ==> pos <= r.pos <= |ts|
    ensures r.Got? && r.pos == pos ==> r.value == lhs
    decreases |ts| - pos, 0, 0
  {
    match Cur(ts, pos)
    case P(Dot) => if IsIdent(Cur(ts, pos + 1)) then Got(Field(lhs, ts[pos + 1].text), pos + 2) else Fail
    case P(QuestionDot) => if IsIdent(Cur(ts, pos + 1)) then Got(OptField(lhs, ts[pos + 1].text), pos + 2) else Fail
    case P(Question) => Got(Try(lhs), pos + 1)
    case P(LParen) =>
      var args := ParseItems(ts, pos + 1, d, false);
      if args.Got? then Got(Call(lhs, args.value.items, args.value.trailing), args.pos) else Fail
    case P(LBracket) => ParseIndex(lhs, ts, pos + 1, d)
    case _ => Got(lhs, pos)
  }

  // What follows the opening bracket of an index or slice.
  function ParseIndex(lhs: Expr, ts: seq<Token>, pos: nat, d: int): (r: Got<Expr>)
    requires pos <= |ts|
    ensures r.Got? ==> pos < r.pos <= |ts|
    decreases |ts| - pos, 21
  {
    if Is(ts, pos, DotDot) || Is(ts, pos, DotDotEq) then ParseHigh(lhs, None, ts, pos, d)
    else
      var first := ParseExpr(ts, pos, d);
      if first.Fail? then Fail
      else if Is(ts, first.pos, DotDot) || Is(ts, first.pos, DotDotEq) then ParseHigh(lhs, Some(first.value), ts, first.pos, d)
      else if Is(ts, first.pos, RBracket) then Got(Index(lhs, first.value), first.pos + 1)
      else Fail
  }

  // From the range operator on.
  function ParseHigh(lhs: Expr, low: Option<Expr>, ts: seq<Token>, pos: nat, d: int): (r: Got<Expr>)
    requires pos < |ts|
    ensures r.Got? ==> pos < r.pos <= |ts|
    decreases |ts| - pos, 0
  {
    var inc := Is(ts, pos, DotDotEq);
    if Is(ts, pos + 1, RBracket) then Got(IndexRange(lhs, low, None, inc), pos + 2)
    else
      var high := ParseExpr(ts, pos + 1, d);
      if high.Got? && Is(ts, high.pos, RBracket) then Got(IndexRange(lhs, low, Some(high.value), inc), high.pos + 1) else Fail
  }

  // The rest of a parenthesised list, its closing parenthesis included.
  function ParseItems(ts: seq<Token>, pos: nat, d: int, afterComma: bool): (r: Got<Items<Expr>>)
    requires pos <= |ts|
    ensures r.Got? ==> pos < r.pos <= |ts|
    decreases |ts| - pos, 21
  {
    if Is(ts, pos, RParen) then Got(Items([], afterComma), pos + 1)
    else
      var e := ParseExpr(ts, pos, d);
      if e.Fail? then Fail
      else if Is(ts, e.pos, Comma) then
        var rest := ParseItems(ts, e.pos + 1, d, true);
        if rest.Fail? then Fail else Got(Items([e.value] + rest.value.items, rest.value.trailing), rest.pos)
      else if Is(ts, e.pos, RParen) then Got(Items([e.value], false), e.pos + 1)
      else Fail
  }

  function ParsePrimary(ts: seq<Token>, pos: nat, d: int): (r: Got<Expr>)
    requires pos <= |ts|
    ensures r.Got? ==> pos < r.pos <= |ts|
    decreases |ts| - pos, 0, 0
  {
    match Cur(ts, pos)
    case Lit(k, t) => Got(Literal(k, t), pos + 1)
    case Word(t) => if StructBody(ts, pos + 1) then Fail else Got(Path(t), pos + 1)
    case P(LParen) =>
      if Is(ts, pos + 1, RParen) then Got(Tuple([], false), pos + 2)
      else
        var first := ParseExpr(ts, pos + 1, d);
        if first.Fail? then Fail
        else if Is(ts, first.pos, RParen) then Got(Paren(first.value), first.pos + 1)
        else if Is(ts, first.pos, Comma) then
          var rest := ParseItems(ts, first.pos + 1, d, true);
          if rest.Fail? then Fail else Got(Tuple([first.value] + rest.value.items, rest.value.trailing), rest.pos)
        else Fail
    case _ => Fail
  }
}
