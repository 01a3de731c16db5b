// The ladder of the operators, written out once more, and how two operators
// next to each other are grouped.
module Precedence {
  import opened Syntax
  import opened Grammar
  import opened ParserTheorems

  // Binary operators in groups, loosest first.
  function Group(g: nat): seq<(Punct, BinOp)> {
    match g
    case 0 => [(PipePipe, LogOr)]
    case 1 => [(AmpAmp, LogAnd)]
    case 2 => [(EqEq, EqualTo), (BangEq, NotEqual), (Lt, Less), (Le, LessEq), (Gt, Greater), (Ge, GreaterEq)]
    case 3 => [(Pipe, BitOr)]
    case 4 => [(Caret, BitXor)]
    case 5 => [(Amp, BitAnd)]
    case 6 => [(Shl, ShiftL), (Shr, ShiftR)]
    case 7 => [(Plus, Add), (Minus, Sub)]
    case 8 => [(Star, Mul), (Slash, Div), (Percent, Mod)]
    case _ => []
  }

  const PREFIXES: seq<(Punct, UnOp)> := [(Bang, Not), (Minus, Neg), (Star, Deref), (Amp, Addr)]

  const ASSIGNMENTS: seq<(Punct, AssignOp)> := [
    (Eq, Set), (PlusEq, AddSet), (MinusEq, SubSet), (StarEq, MulSet), (SlashEq, DivSet), (PercentEq, ModSet),
    (AmpEq, AndSet), (PipeEq, OrSet), (CaretEq, XorSet), (ShlEq, ShlSet), (ShrEq, ShrSet)]

  // The token t is the operator op of the g-th group.
  predicate InGroup(t: Punct, op: BinOp, g: nat) {
    (t, op) in Group(g)
  }

  predicate IsPrefix(t: Punct, op: UnOp) {
    (t, op) in PREFIXES
  }

  predicate IsAssignment(t: Punct, op: AssignOp) {
    (t, op) in ASSIGNMENTS
  }

  // One token standing for an operand.
  predicate AtomToken(t: Token) {
    t.Lit? || t.Word?
  }

  function Atom(t: Token): Expr
    requires AtomToken(t)
  {
    if t.Lit? then Literal(t.kind, t.text) else Path(t.text)
  }

  // A type that is one word.
  predicate TypeToken(t: Token) {
    IsIdent(t) && t.text != "dyn"
  }

  function NamedType(t: Token): Type
    requires TypeToken(t)
  {
    PathType(t.text, [], false, [], false)
  }

  /******* The tables of the parser agree *******/

  lemma GroupToken(g: nat, i: nat)
    requires i < |Group(g)|
    ensures BinTok(Group(g)[i].1) == Group(g)[i].0
  {
    hide *;
    if g < 3 {
      LooserToken(g, i);
    } else {
      TighterToken(g, i);
    }
  }

  lemma LooserToken(g: nat, i: nat)
    requires g < 3 && i < |Group(g)|
    ensures BinTok(Group(g)[i].1) == Group(g)[i].0
  {
  }

  lemma TighterToken(g: nat, i: nat)
    requires 3 <= g && i < |Group(g)|
    ensures BinTok(Group(g)[i].1) == Group(g)[i].0
  {
  }

  lemma GroupRank(g: nat, i: nat)
    requires i < |Group(g)|
    ensures Level(Group(g)[i].1) == g + 1
  {
    hide BinTok;
  }

  lemma GroupIsLevel(t: Punct, op: BinOp, g: nat)
    requires InGroup(t, op, g)
    ensures BinTok(op) == t && Level(op) == g + 1
  {
    hide Level, BinTok;
    var group := Group(g);
    var i :| 0 <= i < |group| && group[i] == (t, op);
    GroupToken(g, i);
    GroupRank(g, i);
  }

  lemma PrefixIs(t: Punct, op: UnOp)
    requires IsPrefix(t, op)
    ensures UnTok(op) == t
  {
    var i :| 0 <= i < |PREFIXES| && PREFIXES[i] == (t, op);
  }

  lemma AssignmentIs(t: Punct, op: AssignOp)
    requires IsAssignment(t, op)
    ensures AssignTok(op) == t
  {
    var i :| 0 <= i < |ASSIGNMENTS| && ASSIGNMENTS[i] == (t, op);
  }

  // Every token that is a binary operator stands in a group.
  lemma EveryOperatorHasAGroup(t: Punct)
    requires BinOpOf(P(t)).Some?
    ensures exists g, op :: InGroup(t, op, g)
  {
    var op := BinOpOf(P(t)).value;
    var g: nat := Level(op) - 1;
    assert InGroup(t, op, g);
  }

  lemma AtomIs(t: Token)
    requires AtomToken(t)
    ensures Ok(Atom(t)) && Prec(Atom(t)) == PRIMARY && Depth(Atom(t)) == 0 && Flat(Atom(t)) == [t]
  {
  }

  lemma BinaryIs(t: Punct, op: BinOp, g: nat, l: Expr, r: Expr)
    requires InGroup(t, op, g)
    ensures var e := Binary(op, l, r);
      && (Ok(l) && Ok(r) && Prec(l) >= g + 1 && Prec(r) > g + 1 ==> Ok(e))
      && Prec(e) == g + 1 && g + 1 < CAST && Flat(e) == Flat(l) + [P(t)] + Flat(r)
      && (Depth(l) <= 1 && Depth(r) <= 1 ==> Depth(e) <= 1)
  {
    GroupIsLevel(t, op, g);
    hide Level, BinTok, InGroup;
  }

  lemma UnaryIs(t: Punct, op: UnOp, x: Expr)
    requires IsPrefix(t, op)
    ensures var e := Unary(op, x);
      && (Ok(x) && Prec(x) >= UNARY ==> Ok(e)) && Prec(e) == UNARY && Flat(e) == [P(t)] + Flat(x) && Depth(e) == Depth(x)
  {
    PrefixIs(t, op);
    hide UnTok, IsPrefix;
  }

  lemma CastIs(x: Expr, ty: Token)
    requires TypeToken(ty)
    ensures var e := Cast(x, NamedType(ty));
      && (Ok(x) && Prec(x) >= CAST ==> Ok(e)) && Prec(e) == CAST && Flat(e) == Flat(x) + [P(As), ty]
      && (Depth(x) <= 1 ==> Depth(e) <= 1)
  {
    NamedTypeIs(ty);
    hide FlatType, TypeOk, TypeDepth;
    assert Flat(x) + [P(As)] + [ty] == Flat(x) + [P(As), ty];
  }

  lemma AssignIs(t: Punct, op: AssignOp, l: Expr, r: Expr)
    requires IsAssignment(t, op)
    ensures var e := Assign(op, l, r);
      && (Ok(l) && Ok(r) && Prec(l) > ASSIGN ==> Ok(e)) && Prec(e) == ASSIGN && Flat(e) == Flat(l) + [P(t)] + Flat(r)
      && (Depth(l) <= 1 && Depth(r) <= 1 ==> Depth(e) <= 1)
  {
    AssignmentIs(t, op);
    hide AssignTok, IsAssignment;
  }

  // A well-formed tree is what its own tokens parse to.
  lemma Whole(e: Expr, ts: seq<Token>)
    requires Ok(e) && Depth(e) <= 1 && ts == Flat(e)
    ensures ParseExpr(ts, 0, 0) == Got(e, |ts|)
  {
    hide ParseExpr, Ok, Depth, Flat;
    assert [] + Flat(e) + [] == ts;
    NothingStops();
    RoundTrip(e, [], [], 0);
  }

  lemma NothingStops()
    ensures Stops(ASSIGN, [], 0)
  {
  }

  /******* Two binary operators *******/

  // `a t1 b t2 c`: t2 goes into the right operand of t1 exactly when its group
  // is a later one; otherwise the operators group to the left.
  lemma TwoOperators(a: Token, b: Token, c: Token, t1: Punct, o1: BinOp, g1: nat, t2: Punct, o2: BinOp, g2: nat)
    requires AtomToken(a) && AtomToken(b) && AtomToken(c) && InGroup(t1, o1, g1) && InGroup(t2, o2, g2)
    ensures ParseExpr([a, P(t1), b, P(t2), c], 0, 0) == Got(
      if g2 > g1 then Binary(o1, Atom(a), Binary(o2, Atom(b), Atom(c)))
      else Binary(o2, Binary(o1, Atom(a), Atom(b)), Atom(c)), 5)
  {
    hide Flat, Ok, Depth, Prec, ParseExpr, InGroup, IsPrefix, IsAssignment, Atom;
    AtomIs(a);
    AtomIs(b);
    AtomIs(c);
    var ts := [a, P(t1), b, P(t2), c];
    if g2 > g1 {
      var inner := Binary(o2, Atom(b), Atom(c));
      BinaryIs(t2, o2, g2, Atom(b), Atom(c));
      BinaryIs(t1, o1, g1, Atom(a), inner);
      Whole(Binary(o1, Atom(a), inner), ts);
    } else {
      var inner := Binary(o1, Atom(a), Atom(b));
      BinaryIs(t1, o1, g1, Atom(a), Atom(b));
      BinaryIs(t2, o2, g2, inner, Atom(c));
      Whole(Binary(o2, inner, Atom(c)), ts);
    }
  }

  /******* Prefix, cast and postfix against a binary operator *******/

  // A prefix operator takes its one operand only.
  lemma PrefixFirst(a: Token, b: Token, u: Punct, un: UnOp, t: Punct, op: BinOp, g: nat)
    requires AtomToken(a) && AtomToken(b) && IsPrefix(u, un) && InGroup(t, op, g)
    ensures ParseExpr([P(u), a, P(t), b], 0, 0) == Got(Binary(op, Unary(un, Atom(a)), Atom(b)), 4)
    ensures ParseExpr([a, P(t), P(u), b], 0, 0) == Got(Binary(op, Atom(a), Unary(un, Atom(b))), 4)
  {
    hide Flat, Ok, Depth, Prec, ParseExpr, InGroup, IsPrefix, IsAssignment, Atom;
    AtomIs(a);
    AtomIs(b);
    var x, y := Unary(un, Atom(a)), Unary(un, Atom(b));
    UnaryIs(u, un, Atom(a));
    UnaryIs(u, un, Atom(b));
    BinaryIs(t, op, g, x, Atom(b));
    BinaryIs(t, op, g, Atom(a), y);
    Whole(Binary(op, x, Atom(b)), [P(u), a, P(t), b]);
    Whole(Binary(op, Atom(a), y), [a, P(t), P(u), b]);
  }

  // So does a cast.
  lemma CastFirst(a: Token, b: Token, ty: Token, t: Punct, op: BinOp, g: nat)
    requires AtomToken(a) && AtomToken(b) && TypeToken(ty) && InGroup(t, op, g)
    ensures ParseExpr([a, P(As), ty, P(t), b], 0, 0) == Got(Binary(op, Cast(Atom(a), NamedType(ty)), Atom(b)), 5)
    ensures ParseExpr([a, P(t), b, P(As), ty], 0, 0) == Got(Binary(op, Atom(a), Cast(Atom(b), NamedType(ty))), 5)
  {
    hide Flat, Ok, Depth, Prec, ParseExpr, InGroup, IsPrefix, IsAssignment, Atom, NamedType;
    AtomIs(a);
    AtomIs(b);
    var x, y := Cast(Atom(a), NamedType(ty)), Cast(Atom(b), NamedType(ty));
    CastIs(Atom(a), ty);
    CastIs(Atom(b), ty);
    BinaryIs(t, op, g, x, Atom(b));
    BinaryIs(t, op, g, Atom(a), y);
    Whole(Binary(op, x, Atom(b)), [a, P(As), ty, P(t), b]);
    Whole(Binary(op, Atom(a), y), [a, P(t), b, P(As), ty]);
  }

  lemma NamedTypeIs(t: Token)
    requires TypeToken(t)
    ensures FlatType(NamedType(t)) == [t] && TypeOk(NamedType(t)) && TypeDepth(NamedType(t)) == 1
  {
  }

  // One postfix operator after an operand, as tokens and as a tree.
  datatype Postfix = Select(name: string) | OptSelect(name: string) | Propagate | NoArgs | At(index: Token)

  predicate PostfixOk(x: Postfix) {
    match x
    case Select(n) => IsIdent(Word(n))
    case OptSelect(n) => IsIdent(Word(n))
    case At(i) => AtomToken(i)
    case _ => true
  }

  function PostfixTokens(x: Postfix): seq<Token> {
    match x
    case Select(n) => [P(Dot), Word(n)]
    case OptSelect(n) => [P(QuestionDot), Word(n)]
    case Propagate => [P(Question)]
    case NoArgs => [P(LParen), P(RParen)]
    case At(i) => [P(LBracket), i, P(RBracket)]
  }

  function Applied(e: Expr, x: Postfix): Expr
    requires PostfixOk(x)
  {
    match x
    case Select(n) => Field(e, n)
    case OptSelect(n) => OptField(e, n)
    case Propagate => Try(e)
    case NoArgs => Call(e, [], false)
    case At(i) => Index(e, Atom(i))
  }

  lemma PostfixIs(a: Token, x: Postfix)
    requires AtomToken(a) && PostfixOk(x)
    ensures var e := Applied(Atom(a), x);
      Ok(e) && Prec(e) == POSTFIX && Depth(e) <= 1 && Flat(e) == [a] + PostfixTokens(x)
  {
  }

  // A postfix operator takes the operand it follows, before a binary operator,
  // a prefix operator or a cast does.
  lemma PostfixFirst(a: Token, b: Token, x: Postfix, t: Punct, op: BinOp, g: nat)
    requires AtomToken(a) && AtomToken(b) && PostfixOk(x) && InGroup(t, op, g)
    ensures ParseExpr([a] + PostfixTokens(x) + [P(t), b], 0, 0) ==
      Got(Binary(op, Applied(Atom(a), x), Atom(b)), 3 + |PostfixTokens(x)|)
    ensures ParseExpr([a, P(t), b] + PostfixTokens(x), 0, 0) ==
      Got(Binary(op, Atom(a), Applied(Atom(b), x)), 3 + |PostfixTokens(x)|)
  {
    hide Flat, Ok, Depth, Prec, ParseExpr, InGroup, IsPrefix, IsAssignment, Atom, PostfixTokens, Applied;
    AtomIs(a);
    AtomIs(b);
    PostfixIs(a, x);
    PostfixIs(b, x);
    var e, f := Applied(Atom(a), x), Applied(Atom(b), x);
    BinaryIs(t, op, g, e, Atom(b));
    BinaryIs(t, op, g, Atom(a), f);
    Whole(Binary(op, e, Atom(b)), [a] + PostfixTokens(x) + [P(t), b]);
    Whole(Binary(op, Atom(a), f), [a, P(t), b] + PostfixTokens(x));
  }

  lemma PrefixAfterPostfix(a: Token, x: Postfix, u: Punct, un: UnOp)
    requires AtomToken(a) && PostfixOk(x) && IsPrefix(u, un)
    ensures ParseExpr([P(u), a] + PostfixTokens(x), 0, 0) == Got(Unary(un, Applied(Atom(a), x)), 2 + |PostfixTokens(x)|)
  {
    hide Flat, Ok, Depth, Prec, ParseExpr, InGroup, IsPrefix, IsAssignment, Atom, PostfixTokens, Applied;
    PostfixIs(a, x);
    UnaryIs(u, un, Applied(Atom(a), x));
    Whole(Unary(un, Applied(Atom(a), x)), [P(u), a] + PostfixTokens(x));
  }

  lemma CastAfterPrefix(a: Token, u: Punct, un: UnOp, ty: Token)
    requires AtomToken(a) && IsPrefix(u, un) && TypeToken(ty)
    ensures ParseExpr([P(u), a, P(As), ty], 0, 0) == Got(Cast(Unary(un, Atom(a)), NamedType(ty)), 4)
  {
    hide Flat, Ok, Depth, Prec, ParseExpr, InGroup, IsPrefix, IsAssignment, Atom, NamedType;
    AtomIs(a);
    UnaryIs(u, un, Atom(a));
    CastIs(Unary(un, Atom(a)), ty);
    Whole(Cast(Unary(un, Atom(a)), NamedType(ty)), [P(u), a, P(As), ty]);
  }

  /******* Assignment *******/

  // Assignment groups to the right, and below every binary operator.
  lemma AssignmentsRight(a: Token, b: Token, c: Token, s1: Punct, o1: AssignOp, s2: Punct, o2: AssignOp)
    requires AtomToken(a) && AtomToken(b) && AtomToken(c) && IsAssignment(s1, o1) && IsAssignment(s2, o2)
    ensures ParseExpr([a, P(s1), b, P(s2), c], 0, 0) == Got(Assign(o1, Atom(a), Assign(o2, Atom(b), Atom(c))), 5)
  {
    hide Flat, Ok, Depth, Prec, ParseExpr, InGroup, IsPrefix, IsAssignment, Atom;
    AtomIs(a);
    AtomIs(b);
    AtomIs(c);
    var inner := Assign(o2, Atom(b), Atom(c));
    AssignIs(s2, o2, Atom(b), Atom(c));
    AssignIs(s1, o1, Atom(a), inner);
    Whole(Assign(o1, Atom(a), inner), [a, P(s1), b, P(s2), c]);
  }

  lemma AssignmentLast(a: Token, b: Token, c: Token, s: Punct, put: AssignOp, t: Punct, op: BinOp, g: nat)
    requires AtomToken(a) && AtomToken(b) && AtomToken(c) && IsAssignment(s, put) && InGroup(t, op, g)
    ensures ParseExpr([a, P(s), b, P(t), c], 0, 0) == Got(Assign(put, Atom(a), Binary(op, Atom(b), Atom(c))), 5)
    ensures ParseExpr([a, P(t), b, P(s), c], 0, 0) == Got(Assign(put, Binary(op, Atom(a), Atom(b)), Atom(c)), 5)
  {
    hide Flat, Ok, Depth, Prec, ParseExpr, InGroup, IsPrefix, IsAssignment, Atom;
    AtomIs(a);
    AtomIs(b);
    AtomIs(c);
    var x, y := Binary(op, Atom(b), Atom(c)), Binary(op, Atom(a), Atom(b));
    BinaryIs(t, op, g, Atom(b), Atom(c));
    BinaryIs(t, op, g, Atom(a), Atom(b));
    AssignIs(s, put, Atom(a), x);
    AssignIs(s, put, y, Atom(c));
    Whole(Assign(put, Atom(a), x), [a, P(s), b, P(t), c]);
    Whole(Assign(put, y, Atom(c)), [a, P(t), b, P(s), c]);
  }
}
