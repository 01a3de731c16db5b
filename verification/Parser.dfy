// The expression parser itself: a cursor over the tokens, a nesting counter
// and a list of diagnostics, with error recovery. Each routine is proved
// against the grammar: it reports nothing exactly when the grammar parses, and
// then it returns the grammar's tree and stops at the grammar's position.
module Parser {
  import opened Syntax
  import opened Grammar
  import opened ParserTheorems

  // OutsideFragment marks the constructs this model does not parse.
  datatype Diag = Expected(p: Punct) | ExpectedIdent | ExpectedExpr | ExpectedType | TooDeep | OutsideFragment

  /******* The grammar on failing input *******/

  // No expression starts at a token that starts none.
  lemma {:induction false} NoExprHere(level: nat, ts: seq<Token>, pos: nat, d: int)
    requires pos <= |ts| && level <= PRIMARY && ParsePrimary(ts, pos, d) == Fail && UnOpOf(Cur(ts, pos)).None?
    ensures Parse(level, ts, pos, d) == Fail
    decreases PRIMARY - level
  {
    if level < PRIMARY {
      NoExprHere(level + 1, ts, pos, d);
    }
  }

  // Where the argument loop stops because of what stands at the cursor.
  lemma ItemsEnd(xs: seq<Expr>, ts: seq<Token>, pos: nat, d: int, after: bool)
    requires pos <= |ts| && (Cur(ts, pos) == P(RParen) || Cur(ts, pos) == Eof)
    ensures Prepend(xs, ParseItems(ts, pos, d, after)) == if Is(ts, pos, RParen) then Got(Items(xs, after), pos + 1) else Fail
  {
    ItemsTurn(xs, ts, pos, d, after);
    if Cur(ts, pos) == Eof {
      NoExprHere(ASSIGN, ts, pos, d + 1);
    }
  }

  // A list with items already read in front of it.
  function Prepend<T>(xs: seq<T>, g: Got<Items<T>>): Got<Items<T>> {
    if g.Fail? then Fail else Got(Items(xs + g.value.items, g.value.trailing), g.pos)
  }

  lemma PrependMore<T>(xs: seq<T>, x: T, g: Got<Items<T>>)
    ensures Prepend(xs, Prepend([x], g)) == Prepend(xs + [x], g)
  {
    if g.Got? {
      assert xs + ([x] + g.value.items) == xs + [x] + g.value.items;
    }
  }

  lemma PrependNone<T>(g: Got<Items<T>>)
    ensures Prepend([], g) == g
  {
    if g.Got? {
      assert [] + g.value.items == g.value.items;
    }
  }

  // One turn of the argument loop.
  lemma ItemsTurn(xs: seq<Expr>, ts: seq<Token>, pos: nat, d: int, after: bool)
    requires pos <= |ts|
    ensures var g := Prepend(xs, ParseItems(ts, pos, d, after));
      if Is(ts, pos, RParen) then g == Got(Items(xs, after), pos + 1)
      else
        var e := ParseExpr(ts, pos, d);
        if e.Fail? then g == Fail
        else if Is(ts, e.pos, Comma) then g == Prepend(xs + [e.value], ParseItems(ts, e.pos + 1, d, true))
        else if Is(ts, e.pos, RParen) then g == Got(Items(xs + [e.value], false), e.pos + 1)
        else g == Fail
  {
    hide ParseExpr;
    assert xs + [] == xs;
    var e := ParseExpr(ts, pos, d);
    if e.Got? && Is(ts, e.pos, Comma) {
      PrependMore(xs, e.value, ParseItems(ts, e.pos + 1, d, true));
    }
  }

  lemma TypesTurn(xs: seq<Type>, ts: seq<Token>, pos: nat, d: int, after: bool)
    requires pos <= |ts|
    ensures var g := Prepend(xs, ParseTypes(ts, pos, d, after));
      if Is(ts, pos, RBracket) then g == Got(Items(xs, after), pos + 1)
      else
        var t := ParseType(ts, pos, d);
        if t.Fail? then g == Fail
        else if Is(ts, t.pos, Comma) then g == Prepend(xs + [t.value], ParseTypes(ts, t.pos + 1, d, true))
        else if Is(ts, t.pos, RBracket) then g == Got(Items(xs + [t.value], false), t.pos + 1)
        else g == Fail
  {
    hide ParseType;
    assert xs + [] == xs;
    var t := ParseType(ts, pos, d);
    if t.Got? && Is(ts, t.pos, Comma) {
      PrependMore(xs, t.value, ParseTypes(ts, t.pos + 1, d, true));
    }
  }

  lemma TypesEnd(xs: seq<Type>, ts: seq<Token>, pos: nat, d: int, after: bool)
    requires pos <= |ts| && (Cur(ts, pos) == P(RBracket) || Cur(ts, pos) == Eof)
    ensures Prepend(xs, ParseTypes(ts, pos, d, after)) == if Is(ts, pos, RBracket) then Got(Items(xs, after), pos + 1) else Fail
  {
    TypesTurn(xs, ts, pos, d, after);
    if Cur(ts, pos) == Eof {
      TypeCases(ts, pos, d);
    }
  }

  lemma SegmentsTurn(xs: seq<string>, ts: seq<Token>, pos: nat)
    requires pos <= |ts|
    ensures if Is(ts, pos, Dot) && IsIdent(Cur(ts, pos + 1))
      then pos + 2 <= |ts| &&
        xs + ParseSegments(ts, pos).0 == xs + [ts[pos + 1].text] + ParseSegments(ts, pos + 2).0 &&
        ParseSegments(ts, pos).1 == ParseSegments(ts, pos + 2).1
      else ParseSegments(ts, pos) == ([], pos)
  {
  }

  lemma PostfixStart(ts: seq<Token>, pos: nat, d: int)
    requires pos <= |ts|
    ensures var x := ParsePrimary(ts, pos, d);
      Parse(POSTFIX, ts, pos, d) == if x.Fail? then Fail else PostfixLoop(x.value, ts, x.pos, d)
  {
    hide ParsePrimary, PostfixLoop;
    assert Parse(PRIMARY, ts, pos, d) == ParsePrimary(ts, pos, d);
  }

  // One turn of the postfix loop, and the operators without brackets.
  lemma PostfixTurn(lhs: Expr, ts: seq<Token>, pos: nat, d: int)
    requires pos <= |ts|
    ensures var one := PostfixOne(lhs, ts, pos, d);
      && PostfixLoop(lhs, ts, pos, d) ==
         (if one.Fail? then Fail else if one.pos == pos then Got(lhs, pos) else PostfixLoop(one.value, ts, one.pos, d))
      && match Cur(ts, pos)
         case P(Dot) => one == if IsIdent(Cur(ts, pos + 1)) then Got(Field(lhs, Cur(ts, pos + 1).text), pos + 2) else Fail
         case P(QuestionDot) => one == if IsIdent(Cur(ts, pos + 1)) then Got(OptField(lhs, Cur(ts, pos + 1).text), pos + 2) else Fail
         case P(Question) => one == Got(Try(lhs), pos + 1)
         case P(LParen) => true
         case P(LBracket) => true
         case _ => one == Got(lhs, pos)
  {
    hide ParseItems, ParseIndex;
  }

  class Parser {
    const toks: seq<Token>
    var pos: nat
    var depth: nat
    var diags: seq<Diag>

    constructor (toks: seq<Token>)
      ensures this.toks == toks && pos == 0 && depth == 0 && diags == []
    {
      this.toks := toks;
      pos, depth, diags := 0, 0, [];
    }

    predicate Valid()
      reads this
    {
      pos <= |toks|
    }

    // The routine that returned v, started with n diagnostics, did what the
    // grammar says: it reported nothing and agrees, or reported something
    // and the grammar has no parse.
    predicate Did<T(==)>(g: Got<T>, v: T, n: nat)
      reads this
    {
      if |diags| == n then g == Got(v, pos) else |diags| > n && g == Fail
    }

    function Here(): (t: Token)
      reads this
      ensures t == Cur(toks, pos)
    {
      Cur(toks, pos)
    }

    method Report(d: Diag)
      modifies this`diags
      ensures diags == old(diags) + [d]
    {
      diags := diags + [d];
    }

    // The end of the stream is never passed.
    method Advance() returns (t: Token)
      requires Valid()
      modifies this`pos
      ensures Valid() && t == Cur(toks, old(pos))
      ensures pos == if t == Eof then old(pos) else old(pos) + 1
    {
      t := Here();
      if t != Eof {
        pos := pos + 1;
      }
    }

    method Eat(p: Punct) returns (ok: bool)
      requires Valid()
      modifies this`pos
      ensures Valid() && ok == Is(toks, old(pos), p)
      ensures pos == if ok then old(pos) + 1 else old(pos)
    {
      ok := Here() == P(p);
      if ok {
        var _ := Advance();
      }
    }

    method Expect(p: Punct)
      requires Valid()
      modifies this`pos, this`diags
      ensures Valid()
      ensures if Is(toks, old(pos), p) then pos == old(pos) + 1 && diags == old(diags)
              else pos == old(pos) && diags == old(diags) + [Expected(p)]
    {
      var ok := Eat(p);
      if !ok {
        Report(Expected(p));
      }
    }

    method ExpectIdent() returns (name: Option<string>)
      requires Valid()
      modifies this`pos, this`diags
      ensures Valid()
      ensures if IsIdent(Cur(toks, old(pos)))
              then name == Some(Cur(toks, old(pos)).text) && pos == old(pos) + 1 && diags == old(diags)
              else name == None && pos == old(pos) && diags == old(diags) + [ExpectedIdent]
    {
      if IsIdent(Here()) {
        var t := Advance();
        name := Some(t.text);
      } else {
        Report(ExpectedIdent);
        name := None;
      }
    }

    method Enter() returns (ok: bool)
      modifies this`depth, this`diags
      ensures depth == old(depth) + 1 && ok == (depth <= MAX_DEPTH)
      ensures diags == if ok then old(diags) else old(diags) + [TooDeep]
    {
      depth := depth + 1;
      ok := depth <= MAX_DEPTH;
      if !ok {
        Report(TooDeep);
      }
    }

    /******* Expressions *******/

    method ParseExpression() returns (e: Expr)
      requires Valid()
      modifies this
      ensures Valid() && depth == old(depth) && old(pos) <= pos
      ensures Did(ParseExpr(toks, old(pos), depth), e, |old(diags)|)
      ensures e.Missing? ==> |diags| > |old(diags)|
      decreases |toks| - pos, 20
    {
      var ok := Enter();
      if !ok {
        depth := depth - 1;
        return Missing;
      }
      e := ParseAssignment();
      depth := depth - 1;
    }

    method ParseAssignment() returns (e: Expr)
      requires Valid()
      modifies this
      ensures Valid() && depth == old(depth) && old(pos) <= pos
      ensures Did(Parse(ASSIGN, toks, old(pos), depth), e, |old(diags)|)
      ensures e.Missing? ==> |diags| > |old(diags)|
      decreases |toks| - pos, PRIMARY - ASSIGN
    {
      e := ParseBinary(1);
      if e.Missing? {
        return;
      }
      var op := AssignOpOf(Here());
      if op.None? {
        return;
      }
      var _ := Advance();
      var rhs := ParseAssignment();
      e := Assign(op.value, e, rhs);
    }

    // The nine rungs from `||` to `* / %`, which differ only in the operators
    // they accept.
    method ParseBinary(level: nat) returns (e: Expr)
      requires Valid() && 1 <= level < CAST
      modifies this
      ensures Valid() && depth == old(depth) && old(pos) <= pos
      ensures Did(Parse(level, toks, old(pos), depth), e, |old(diags)|)
      ensures e.Missing? ==> |diags| > |old(diags)|
      decreases |toks| - pos, PRIMARY - level
    {
      var lhs: Expr;
      if level + 1 < CAST {
        lhs := ParseBinary(level + 1);
      } else {
        lhs := ParseCast();
      }
      while !lhs.Missing? && BinOpOf(Here()).Some? && Level(BinOpOf(Here()).value) == level
        invariant Valid() && depth == old(depth) && old(pos) <= pos && |old(diags)| <= |diags|
        invariant lhs.Missing? ==> |diags| > |old(diags)|
        invariant Parse(level, toks, old(pos), depth) ==
                  if |diags| == |old(diags)| then BinLoop(level, lhs, toks, pos, depth) else Fail
        decreases |toks| - pos
      {
        var op := BinOpOf(Here()).value;
        var _ := Advance();
        var rhs: Expr;
        if level + 1 < CAST {
          rhs := ParseBinary(level + 1);
        } else {
          rhs := ParseCast();
        }
        lhs := Binary(op, lhs, rhs);
      }
      return lhs;
    }

    method ParseCast() returns (e: Expr)
      requires Valid()
      modifies this
      ensures Valid() && depth == old(depth) && old(pos) <= pos
      ensures Did(Parse(CAST, toks, old(pos), depth), e, |old(diags)|)
      ensures e.Missing? ==> |diags| > |old(diags)|
      decreases |toks| - pos, PRIMARY - CAST
    {
      e := ParseUnary();
      while !e.Missing? && Here() == P(As)
        invariant Valid() && depth == old(depth) && old(pos) <= pos && |old(diags)| <= |diags|
        invariant e.Missing? ==> |diags| > |old(diags)|
        invariant Parse(CAST, toks, old(pos), depth) ==
                  if |diags| == |old(diags)| then CastLoop(e, toks, pos, depth) else Fail
        decreases |toks| - pos
      {
        var _ := Advance();
        var t := ParseTypeExpr();
        e := Cast(e, t);
      }
    }

    method ParseUnary() returns (e: Expr)
      requires Valid()
      modifies this
      ensures Valid() && depth == old(depth) && old(pos) <= pos
      ensures Did(Parse(UNARY, toks, old(pos), depth), e, |old(diags)|)
      ensures e.Missing? ==> |diags| > |old(diags)|
      decreases |toks| - pos, PRIMARY - UNARY
    {
      var op := UnOpOf(Here());
      if op.Some? {
        var _ := Advance();
        e := ParseUnary();
        return Unary(op.value, e);
      }
      e := ParsePostfix();
    }

    method ParsePostfix() returns (e: Expr)
      requires Valid()
      modifies this
      ensures Valid() && depth == old(depth) && old(pos) <= pos
      ensures Did(Parse(POSTFIX, toks, old(pos), depth), e, |old(diags)|)
      ensures e.Missing? ==> |diags| > |old(diags)|
      decreases |toks| - pos, PRIMARY - POSTFIX
    {
      hide PostfixOne, PostfixLoop, ParsePrimary, IsIdent;
      PostfixStart(toks, pos, depth);
      e := ParsePrimaryExpr();
      hide Parse;
      while !e.Missing?
        invariant Valid() && depth == old(depth) && old(pos) <= pos && |old(diags)| <= |diags|
        invariant e.Missing? ==> |diags| > |old(diags)|
        invariant Parse(POSTFIX, toks, old(pos), depth) ==
                  if |diags| == |old(diags)| then PostfixLoop(e, toks, pos, depth) else Fail
        decreases |toks| - pos
      {
        PostfixTurn(e, toks, pos, depth);
        match Here()
        case P(Dot) =>
          var _ := Advance();
          var name := ExpectIdent();
          if name.None? {
            return;
          }
          e := Field(e, name.value);
        case P(QuestionDot) =>
          var _ := Advance();
          var name := ExpectIdent();
          if name.None? {
            return;
          }
          e := OptField(e, name.value);
        case P(Question) =>
          var _ := Advance();
          e := Try(e);
        case P(LParen) => e := ParseCallTail(e);
        case P(LBracket) => e := ParseIndexTail(e);
        case _ => return;
      }
    }

    method ParseCallTail(callee: Expr) returns (e: Expr)
      requires Valid() && Here() == P(LParen)
      modifies this
      ensures Valid() && depth == old(depth) && old(pos) < pos
      ensures Did(PostfixOne(callee, toks, old(pos), depth), e, |old(diags)|)
      ensures !e.Missing?
      decreases |toks| - pos, 0
    {
      hide ParseExpr, ParseItems, PostfixOne, Prepend;
      CallUnfold(callee, toks, pos, depth);
      var _ := Advance();
      ghost var g := ParseItems(toks, pos, depth, false);
      var args, trailing := [], false;
      PrependNone(g);
      while Here() != P(RParen) && Here() != Eof
        invariant Valid() && depth == old(depth) && old(pos) < pos && |old(diags)| <= |diags|
        invariant g == if |diags| == |old(diags)| then Prepend(args, ParseItems(toks, pos, depth, trailing)) else Fail
        decreases |toks| - pos
      {
        ItemsTurn(args, toks, pos, depth, trailing);
        var a := ParseExpression();
        if a.Missing? {
          break;
        }
        args, trailing := args + [a], false;
        var comma := Eat(Comma);
        if !comma {
          break;
        }
        trailing := true;
      }
      if Here() == P(RParen) || Here() == Eof {
        ItemsEnd(args, toks, pos, depth, trailing);
      }
      Expect(RParen);
      return Call(callee, args, trailing);
    }

    method ParseIndexTail(receiver: Expr) returns (e: Expr)
      requires Valid() && Here() == P(LBracket)
      modifies this
      ensures Valid() && depth == old(depth) && old(pos) < pos
      ensures Did(PostfixOne(receiver, toks, old(pos), depth), e, |old(diags)|)
      ensures !e.Missing?
      decreases |toks| - pos, 0
    {
      hide ParseExpr, ParseIndex, ParseHigh, PostfixOne;
      BracketUnfold(receiver, toks, pos, depth);
      IndexUnfold(receiver, toks, pos + 1, depth);
      var _ := Advance();
      var low := None;
      if Here() != P(DotDot) && Here() != P(DotDotEq) {
        var first := ParseExpression();
        if Here() != P(DotDot) && Here() != P(DotDotEq) {
          Expect(RBracket);
          return Index(receiver, first);
        }
        low := Some(first);
      }
      assert PostfixOne(receiver, toks, old(pos), depth) ==
             if |diags| == |old(diags)| then ParseHigh(receiver, low, toks, pos, depth) else Fail;
      e := ParseRangeTail(receiver, low);
    }

    // From the range operator on.
    method ParseRangeTail(receiver: Expr, low: Option<Expr>) returns (e: Expr)
      requires Valid() && (Here() == P(DotDot) || Here() == P(DotDotEq))
      modifies this
      ensures Valid() && depth == old(depth) && old(pos) < pos
      ensures |diags| >= |old(diags)| && Did(ParseHigh(receiver, low, toks, old(pos), depth), e, |old(diags)|)
      ensures !e.Missing?
      decreases |toks| - pos, 0
    {
      hide ParseExpr, ParseHigh;
      HighUnfold(receiver, low, toks, pos, depth);
      var inclusive := Here() == P(DotDotEq);
      var _ := Advance();
      var high := None;
      if Here() != P(RBracket) {
        var h := ParseExpression();
        high := Some(h);
      }
      Expect(RBracket);
      return IndexRange(receiver, low, high, inclusive);
    }

    method ParsePrimaryExpr() returns (e: Expr)
      requires Valid()
      modifies this
      ensures Valid() && depth == old(depth) && old(pos) <= pos
      ensures Did(ParsePrimary(toks, old(pos), depth), e, |old(diags)|)
      ensures e.Missing? ==> |diags| > |old(diags)|
      decreases |toks| - pos, 0
    {
      match Here()
      case Lit(k, t) =>
        var _ := Advance();
        return Literal(k, t);
      case P(LParen) => e := ParseParenOrTuple();
      case Word(t) =>
        var _ := Advance();
        if StructBody(toks, pos) {
          Report(OutsideFragment);
          return Missing;
        }
        return Path(t);
      case Other(_) =>
        Report(OutsideFragment);
        return Missing;
      case P(LBrace) =>
        Report(OutsideFragment);
        return Missing;
      case _ =>
        Report(ExpectedExpr);
        var _ := Advance();
        return Missing;
    }

    method ParseParenOrTuple() returns (e: Expr)
      requires Valid() && Here() == P(LParen)
      modifies this
      ensures Valid() && depth == old(depth) && old(pos) < pos
      ensures Did(ParsePrimary(toks, old(pos), depth), e, |old(diags)|)
      ensures !e.Missing?
      decreases |toks| - pos, 0, 0
    {
      hide ParseExpr, ParseItems;
      var _ := Advance();
      var unit := Eat(RParen);
      if unit {
        return Tuple([], false);
      }
      var first := ParseExpression();
      var comma := Eat(Comma);
      if !comma {
        Expect(RParen);
        return Paren(first);
      }
      ghost var n := |diags|;
      ghost var g := Prepend([first], ParseItems(toks, pos, depth, true));
      var elems, trailing := [first], true;
      while Here() != P(RParen) && Here() != Eof
        invariant Valid() && depth == old(depth) && old(pos) < pos && n <= |diags|
        invariant g == if |diags| == n then Prepend(elems, ParseItems(toks, pos, depth, trailing)) else Fail
        decreases |toks| - pos
      {
        ItemsTurn(elems, toks, pos, depth, trailing);
        var x := ParseExpression();
        elems, trailing := elems + [x], false;
        comma := Eat(Comma);
        if !comma {
          break;
        }
        trailing := true;
      }
      if Here() == P(RParen) || Here() == Eof {
        ItemsEnd(elems, toks, pos, depth, trailing);
      }
      Expect(RParen);
      return Tuple(elems, trailing);
    }

    /******* Types *******/

    method ParseTypeExpr() returns (t: Type)
      requires Valid()
      modifies this
      ensures Valid() && depth == old(depth) && old(pos) <= pos
      ensures Did(ParseType(toks, old(pos), depth), t, |old(diags)|)
      decreases |toks| - pos, 1
    {
      var ok := Enter();
      if !ok {
        depth := depth - 1;
        return NoType;
      }
      if Here().Other? || Here() == P(LParen) || Here() == P(LBracket) || Here() == Word("dyn") {
        Report(OutsideFragment);
        t := NoType;
      } else if !(IsIdent(Here()) || Here() == Word("Self")) {
        Report(ExpectedType);
        t := NoType;
      } else if Here() == Word("Ptr") && Cur(toks, pos + 1) == P(LBracket) {
        var _ := Advance();
        Expect(LBracket);
        var inner := ParseTypeExpr();
        Expect(RBracket);
        t := PtrType(inner);
      } else {
        t := ParsePathType();
      }
      depth := depth - 1;
    }

    method ParsePathType() returns (t: Type)
      requires Valid() && StartsPath(Cur(toks, pos))
      modifies this
      ensures Valid() && depth == old(depth) && old(pos) < pos
      ensures Did(PathTypeAt(toks, old(pos), depth), t, |old(diags)|)
      decreases |toks| - pos, 0
    {
      var first := Advance();
      ghost var start := pos;
      var segs: seq<string> := [];
      assert [] + ParseSegments(toks, pos).0 == ParseSegments(toks, pos).0;
      while Here() == P(Dot) && IsIdent(Cur(toks, pos + 1))
        invariant Valid() && start <= pos && depth == old(depth) && diags == old(diags)
        invariant ParseSegments(toks, start) == (segs + ParseSegments(toks, pos).0, ParseSegments(toks, pos).1)
        decreases |toks| - pos
      {
        SegmentsTurn(segs, toks, pos);
        var _ := Advance();
        var s := Advance();
        segs := segs + [s.text];
      }
      assert segs + [] == segs;
      if Here() == P(LBracket) {
        var args, trailing := ParseTypeArgs();
        t := PathType(first.text, segs, true, args, trailing);
      } else {
        t := PathType(first.text, segs, false, [], false);
      }
    }

    method ParseTypeArgs() returns (args: seq<Type>, trailing: bool)
      requires Valid() && Here() == P(LBracket)
      modifies this
      ensures Valid() && depth == old(depth) && old(pos) < pos
      ensures Did(ParseTypes(toks, old(pos) + 1, depth, false), Items(args, trailing), |old(diags)|)
      decreases |toks| - pos, 0
    {
      hide ParseType, ParseTypes, Prepend;
      Expect(LBracket);
      ghost var g := ParseTypes(toks, pos, depth, false);
      args, trailing := [], false;
      PrependNone(g);
      while Here() != P(RBracket) && Here() != Eof
        invariant Valid() && depth == old(depth) && old(pos) < pos && |old(diags)| <= |diags|
        invariant g == if |diags| == |old(diags)| then Prepend(args, ParseTypes(toks, pos, depth, trailing)) else Fail
        decreases |toks| - pos
      {
        TypesTurn(args, toks, pos, depth, trailing);
        var t := ParseTypeExpr();
        args, trailing := args + [t], false;
        var comma := Eat(Comma);
        if !comma {
          break;
        }
        trailing := true;
      }
      if Here() == P(RBracket) || Here() == Eof {
        TypesEnd(args, toks, pos, depth, trailing);
      }
      Expect(RBracket);
    }
  }

  // Parsing one expression from the start of a token list: a parse without
  // diagnostics returns a well-formed tree whose flattening is exactly the
  // tokens consumed, and every well-formed tree within the depth limit that
  // the tokens begin with, and that they do not continue, is the one returned.
  method ParseFromStart(toks: seq<Token>) returns (e: Expr, consumed: nat, ok: bool)
    ensures consumed <= |toks|
    ensures ok ==> Ok(e) && Depth(e) < MAX_DEPTH && Flat(e) == toks[..consumed]
    ensures forall x :: Ok(x) && Depth(x) < MAX_DEPTH && Flat(x) <= toks && Stops(ASSIGN, toks, |Flat(x)|) ==>
      ok && e == x && consumed == |Flat(x)|
  {
    var p := new Parser(toks);
    e := p.ParseExpression();
    consumed, ok := p.pos, p.diags == [];
    hide ParseExpr, Flat, Ok, Depth, Stops;
    if ok {
      ParseYieldsTree(toks, 0, 0);
      assert toks[0..consumed] == toks[..consumed];
    }
    forall x | Ok(x) && Depth(x) < MAX_DEPTH && Flat(x) <= toks && Stops(ASSIGN, toks, |Flat(x)|)
      ensures ok && e == x && consumed == |Flat(x)|
    {
      PrefixParses(x, toks);
    }
  }

  lemma PrefixParses(x: Expr, toks: seq<Token>)
    requires Ok(x) && Depth(x) < MAX_DEPTH && Flat(x) <= toks && Stops(ASSIGN, toks, |Flat(x)|)
    ensures ParseExpr(toks, 0, 0) == Got(x, |Flat(x)|)
  {
    hide ParseExpr, Flat, Ok, Depth, Stops;
    var after := toks[|Flat(x)|..];
    assert [] + Flat(x) + after == toks;
    assert Flat(x) + after == toks;
    StopsShift(ASSIGN, Flat(x), after);
    RoundTrip(x, [], after, 0);
  }
}
