// Parsing and flattening are inverse on the operator fragment.
module ParserTheorems {
  import opened Syntax
  import opened Grammar

  /******* Where a tree's tokens stand *******/

  function SepLen(n: nat, trailing: bool): nat {
    if n > 1 || trailing then 1 else 0
  }

  function TypeLen(t: Type): (n: nat)
    ensures n > 0
    decreases t, 1
  {
    match t
    case PathType(_, segs, brackets, args, trailing) =>
      1 + 2 * |segs| + if brackets then 2 + TypesLen(args, trailing) else 0
    case PtrType(x) => 3 + TypeLen(x)
    case NoType => 1
  }

  function TypesLen(ts: seq<Type>, trailing: bool): nat
    decreases ts, 0
  {
    if ts == [] then 0 else TypeLen(ts[0]) + SepLen(|ts|, trailing) + TypesLen(ts[1..], trailing)
  }

  function Len(e: Expr): (n: nat)
    ensures n > 0
    decreases e, 1
  {
    match e
    case Literal(_, _) => 1
    case Path(_) => 1
    case Unary(_, x) => 1 + Len(x)
    case Binary(_, l, r) => Len(l) + 1 + Len(r)
    case Assign(_, l, r) => Len(l) + 1 + Len(r)
    case Cast(x, t) => Len(x) + 1 + TypeLen(t)
    case Field(x, _) => Len(x) + 2
    case OptField(x, _) => Len(x) + 2
    case Try(x) => Len(x) + 1
    case Call(x, args, tr) => Len(x) + 2 + LenAll(args, tr)
    case Index(x, i) => Len(x) + 2 + Len(i)
    case IndexRange(x, lo, hi, _) => Len(x) + 3 + LenOpt(lo) + LenOpt(hi)
    case Paren(x) => 2 + Len(x)
    case Tuple(args, tr) => 2 + LenAll(args, tr)
    case Missing => 1
  }

  function LenOpt(o: Option<Expr>): nat
    decreases o, 0
  {
    if o.Some? then Len(o.value) else 0
  }

  function LenAll(es: seq<Expr>, trailing: bool): nat
    decreases es, 0
  {
    if es == [] then 0 else Len(es[0]) + SepLen(|es|, trailing) + LenAll(es[1..], trailing)
  }

  predicate SegmentsAt(segs: seq<string>, ts: seq<Token>, pos: nat) {
    segs == [] || (Is(ts, pos, Dot) && Cur(ts, pos + 1) == Word(segs[0]) && SegmentsAt(segs[1..], ts, pos + 2))
  }

  // The tokens of t stand at position pos.
  predicate TypeAt(t: Type, ts: seq<Token>, pos: nat)
    decreases t, 1
  {
    match t
    case PathType(first, segs, brackets, args, trailing) =>
      Cur(ts, pos) == Word(first) && SegmentsAt(segs, ts, pos + 1) &&
      (brackets ==>
        var p := pos + 1 + 2 * |segs|;
        Is(ts, p, LBracket) && TypesAt(args, trailing, ts, p + 1) && Is(ts, p + 1 + TypesLen(args, trailing), RBracket))
    case PtrType(x) =>
      Cur(ts, pos) == Word("Ptr") && Is(ts, pos + 1, LBracket) && TypeAt(x, ts, pos + 2) && Is(ts, pos + 2 + TypeLen(x), RBracket)
    case NoType => pos < |ts| && ts[pos] == Eof
  }

  predicate TypesAt(xs: seq<Type>, trailing: bool, ts: seq<Token>, pos: nat)
    decreases xs, 0
  {
    xs == [] ||
    (var p := pos + TypeLen(xs[0]);
     TypeAt(xs[0], ts, pos) && (|xs| > 1 || trailing ==> Is(ts, p, Comma)) &&
     TypesAt(xs[1..], trailing, ts, p + SepLen(|xs|, trailing)))
  }

  predicate At(e: Expr, ts: seq<Token>, pos: nat)
    decreases e, 1
  {
    match e
    case Literal(k, t) => Cur(ts, pos) == Lit(k, t)
    case Path(n) => Cur(ts, pos) == Word(n)
    case Unary(op, x) => Is(ts, pos, UnTok(op)) && At(x, ts, pos + 1)
    case Binary(op, l, r) => At(l, ts, pos) && Is(ts, pos + Len(l), BinTok(op)) && At(r, ts, pos + Len(l) + 1)
    case Assign(op, l, r) => At(l, ts, pos) && Is(ts, pos + Len(l), AssignTok(op)) && At(r, ts, pos + Len(l) + 1)
    case Cast(x, t) => At(x, ts, pos) && Is(ts, pos + Len(x), As) && TypeAt(t, ts, pos + Len(x) + 1)
    case Field(x, n) => At(x, ts, pos) && Is(ts, pos + Len(x), Dot) && Cur(ts, pos + Len(x) + 1) == Word(n)
    case OptField(x, n) => At(x, ts, pos) && Is(ts, pos + Len(x), QuestionDot) && Cur(ts, pos + Len(x) + 1) == Word(n)
    case Try(x) => At(x, ts, pos) && Is(ts, pos + Len(x), Question)
    case Call(x, args, tr) =>
      var p := pos + Len(x);
      At(x, ts, pos) && Is(ts, p, LParen) && AllAt(args, tr, ts, p + 1) && Is(ts, p + 1 + LenAll(args, tr), RParen)
    case Index(x, i) =>
      var p := pos + Len(x);
      At(x, ts, pos) && Is(ts, p, LBracket) && At(i, ts, p + 1) && Is(ts, p + 1 + Len(i), RBracket)
    case IndexRange(x, lo, hi, inc) =>
      var p := pos + Len(x);
      var q := p + 1 + LenOpt(lo);
      At(x, ts, pos) && Is(ts, p, LBracket) && OptAt(lo, ts, p + 1) &&
      Is(ts, q, if inc then DotDotEq else DotDot) && OptAt(hi, ts, q + 1) && Is(ts, q + 1 + LenOpt(hi), RBracket)
    case Paren(x) => Is(ts, pos, LParen) && At(x, ts, pos + 1) && Is(ts, pos + 1 + Len(x), RParen)
    case Tuple(args, tr) => Is(ts, pos, LParen) && AllAt(args, tr, ts, pos + 1) && Is(ts, pos + 1 + LenAll(args, tr), RParen)
    case Missing => pos < |ts| && ts[pos] == Eof
  }

  predicate OptAt(o: Option<Expr>, ts: seq<Token>, pos: nat)
    decreases o, 0
  {
    o.Some? ==> At(o.value, ts, pos)
  }

  predicate AllAt(es: seq<Expr>, trailing: bool, ts: seq<Token>, pos: nat)
    decreases es, 0
  {
    es == [] ||
    (var p := pos + Len(es[0]);
     At(es[0], ts, pos) && (|es| > 1 || trailing ==> Is(ts, p, Comma)) &&
     AllAt(es[1..], trailing, ts, p + SepLen(|es|, trailing)))
  }

  // One more item in front of a list that goes on, or that ended in a comma.
  lemma TypesCons(t: Type, rest: seq<Type>, trailing: bool, ts: seq<Token>, pos: nat)
    requires rest == [] ==> trailing
    ensures var p := pos + TypeLen(t); var xs := [t] + rest;
      && (TypesAt(xs, trailing, ts, pos) <==> TypeAt(t, ts, pos) && Is(ts, p, Comma) && TypesAt(rest, trailing, ts, p + 1))
      && TypesLen(xs, trailing) == TypeLen(t) + 1 + TypesLen(rest, trailing)
      && TypesDepth(xs) == (if TypeDepth(t) > TypesDepth(rest) then TypeDepth(t) else TypesDepth(rest))
  {
    assert ([t] + rest)[1..] == rest;
  }

  lemma TypesSingle(t: Type, ts: seq<Token>, pos: nat)
    ensures TypesAt([t], false, ts, pos) <==> TypeAt(t, ts, pos)
    ensures TypesLen([t], false) == TypeLen(t) && TypesDepth([t]) == TypeDepth(t)
  {
    assert [t][1..] == [];
  }

  lemma AllCons(e: Expr, rest: seq<Expr>, trailing: bool, ts: seq<Token>, pos: nat)
    requires rest == [] ==> trailing
    ensures var p := pos + Len(e); var es := [e] + rest;
      && (AllAt(es, trailing, ts, pos) <==> At(e, ts, pos) && Is(ts, p, Comma) && AllAt(rest, trailing, ts, p + 1))
      && LenAll(es, trailing) == Len(e) + 1 + LenAll(rest, trailing)
      && DepthAll(es) == (if 1 + Depth(e) > DepthAll(rest) then 1 + Depth(e) else DepthAll(rest))
      && (AllOk(es) <==> Ok(e) && AllOk(rest))
  {
    assert ([e] + rest)[1..] == rest;
    if AllOk([e] + rest) {
      assert Ok(([e] + rest)[0]);
      forall i | 0 <= i < |rest|
        ensures Ok(rest[i])
      {
        assert ([e] + rest)[i + 1] == rest[i];
      }
    }
  }

  lemma AllSingle(e: Expr, ts: seq<Token>, pos: nat)
    ensures AllAt([e], false, ts, pos) <==> At(e, ts, pos)
    ensures LenAll([e], false) == Len(e) && DepthAll([e]) == 1 + Depth(e) && (AllOk([e]) <==> Ok(e))
  {
    assert [e][1..] == [];
    assert AllOk([e]) ==> Ok([e][0]);
  }

  /******* Soundness: what is parsed is a well-formed tree with these tokens *******/

  ghost predicate Parsed(e: Expr, ts: seq<Token>, from: nat, to: nat, d: int) {
    Ok(e) && At(e, ts, from) && from + Len(e) == to && d + Depth(e) <= MAX_DEPTH
  }

  ghost predicate ParsedType(t: Type, ts: seq<Token>, from: nat, to: nat, d: int) {
    TypeOk(t) && TypeAt(t, ts, from) && from + TypeLen(t) == to && d + TypeDepth(t) <= MAX_DEPTH
  }

  lemma {:induction false} SegmentsSound(ts: seq<Token>, pos: nat)
    requires pos <= |ts|
    ensures var r := ParseSegments(ts, pos);
      && (forall i :: 0 <= i < |r.0| ==> IsIdent(Word(r.0[i])))
      && pos + 2 * |r.0| == r.1 && SegmentsAt(r.0, ts, pos)
    decreases |ts| - pos
  {
    if Is(ts, pos, Dot) && IsIdent(Cur(ts, pos + 1)) {
      SegmentsSound(ts, pos + 2);
    }
  }

  lemma {:induction false} TypeSound(ts: seq<Token>, pos: nat, d: int)
    requires pos <= |ts| && ParseType(ts, pos, d).Got?
    ensures ParsedType(ParseType(ts, pos, d).value, ts, pos, ParseType(ts, pos, d).pos, d)
    decreases |ts| - pos, 1
  {
    hide *;
    TypeUnfold(ts, pos, d);
    if IsPtr(ts, pos) {
      TypeSound(ts, pos + 2, d + 1);
      PtrSound(ParseType(ts, pos + 2, d + 1).value, ts, pos, ParseType(ts, pos + 2, d + 1).pos, d);
    } else {
      SegmentsSound(ts, pos + 1);
      var segs := ParseSegments(ts, pos + 1);
      if Is(ts, segs.1, LBracket) {
        TypesSound(ts, segs.1 + 1, d + 1, false);
        var args := ParseTypes(ts, segs.1 + 1, d + 1, false).value;
        PathTypeSound(PathType(ts[pos].text, segs.0, true, args.items, args.trailing), ts, pos, d);
      } else {
        PathTypeSound(PathType(ts[pos].text, segs.0, false, [], false), ts, pos, d);
      }
    }
  }

  predicate IsPtr(ts: seq<Token>, pos: nat) {
    Cur(ts, pos) == Word("Ptr") && Is(ts, pos + 1, LBracket)
  }

  predicate StartsPath(t: Token) {
    (IsIdent(t) || t == Word("Self")) && t != Word("dyn")
  }

  lemma TypeUnfold(ts: seq<Token>, pos: nat, d: int)
    requires pos <= |ts| && ParseType(ts, pos, d).Got?
    ensures var r := ParseType(ts, pos, d);
      && d < MAX_DEPTH && pos < |ts| && Cur(ts, pos) == ts[pos] && ts[pos].Word? && StartsPath(ts[pos])
      && if IsPtr(ts, pos) then
           var t := ParseType(ts, pos + 2, d + 1);
           pos + 2 <= |ts| && t.Got? && Is(ts, t.pos, RBracket) && r == Got(PtrType(t.value), t.pos + 1)
         else
           var segs := ParseSegments(ts, pos + 1);
           && segs.1 <= |ts|
           && (Is(ts, segs.1, LBracket) && segs.0 == [] ==> ts[pos] != Word("Ptr"))
           && if !Is(ts, segs.1, LBracket) then r == Got(PathType(ts[pos].text, segs.0, false, [], false), segs.1)
              else
                var args := ParseTypes(ts, segs.1 + 1, d + 1, false);
                segs.1 < |ts| && args.Got? && r == Got(PathType(ts[pos].text, segs.0, true, args.value.items, args.value.trailing), args.pos)
  {
    hide ParseTypes;
  }

  lemma PtrSound(t: Type, ts: seq<Token>, pos: nat, end: nat, d: int)
    requires IsPtr(ts, pos) && ParsedType(t, ts, pos + 2, end, d + 1) && Is(ts, end, RBracket)
    ensures ParsedType(PtrType(t), ts, pos, end + 1, d)
  {
  }

  lemma PathTypeSound(t: Type, ts: seq<Token>, pos: nat, d: int)
    requires t.PathType? && Cur(ts, pos) == Word(t.first) && SegmentsAt(t.segs, ts, pos + 1) && d < MAX_DEPTH
    requires StartsPath(Word(t.first))
    requires forall i :: 0 <= i < |t.segs| ==> IsIdent(Word(t.segs[i]))
    requires Word(t.first) == Word("Ptr") && t.segs == [] ==> !t.brackets
    requires (!t.brackets ==> t.args == []) && (t.args == [] ==> !t.trailing)
    requires forall i :: 0 <= i < |t.args| ==> TypeOk(t.args[i])
    requires var p := pos + 1 + 2 * |t.segs|; t.brackets ==>
      && Is(ts, p, LBracket) && TypesAt(t.args, t.trailing, ts, p + 1) && Is(ts, p + 1 + TypesLen(t.args, t.trailing), RBracket)
      && d + 1 + TypesDepth(t.args) <= MAX_DEPTH
    ensures ParsedType(t, ts, pos, pos + TypeLen(t), d)
    ensures TypeLen(t) == 1 + 2 * |t.segs| + if t.brackets then 2 + TypesLen(t.args, t.trailing) else 0
  {
    hide IsIdent;
    assert TypeOk(t);
    assert TypeAt(t, ts, pos);
    assert TypeDepth(t) == 1 + TypesDepth(t.args);
    assert !t.brackets ==> TypesDepth(t.args) == 0;
  }

  lemma {:induction false} TypesSound(ts: seq<Token>, pos: nat, d: int, after: bool)
    requires pos <= |ts| && d <= MAX_DEPTH && ParseTypes(ts, pos, d, after).Got?
    ensures var r := ParseTypes(ts, pos, d, after); var xs := r.value.items;
      && (forall i :: 0 <= i < |xs| ==> TypeOk(xs[i]))
      && TypesAt(xs, r.value.trailing, ts, pos)
      && Is(ts, pos + TypesLen(xs, r.value.trailing), RBracket) && pos + TypesLen(xs, r.value.trailing) + 1 == r.pos
      && d + TypesDepth(xs) <= MAX_DEPTH
      && (xs == [] ==> r.value.trailing == after)
    decreases |ts| - pos, 2
  {
    hide *;
    TypesUnfold(ts, pos, d, after);
    if Is(ts, pos, RBracket) {
      TypesNone(after, ts, pos);
    } else {
      TypeSound(ts, pos, d);
      var t := ParseType(ts, pos, d);
      ParsedTypeUnfold(t.value, ts, pos, t.pos, d);
      if Is(ts, t.pos, Comma) {
        TypesSound(ts, t.pos + 1, d, true);
        var rest := ParseTypes(ts, t.pos + 1, d, true).value;
        TypesCons(t.value, rest.items, rest.trailing, ts, pos);
      } else {
        TypesSingle(t.value, ts, pos);
      }
    }
  }

  lemma ParsedTypeUnfold(t: Type, ts: seq<Token>, from: nat, to: nat, d: int)
    ensures ParsedType(t, ts, from, to, d) <==>
      TypeOk(t) && TypeAt(t, ts, from) && from + TypeLen(t) == to && d + TypeDepth(t) <= MAX_DEPTH
  {
  }

  lemma TypesNone(trailing: bool, ts: seq<Token>, pos: nat)
    ensures TypesAt([], trailing, ts, pos) && TypesLen([], trailing) == 0 && TypesDepth([]) == 0
  {
  }

  lemma TypesUnfold(ts: seq<Token>, pos: nat, d: int, after: bool)
    requires pos <= |ts|
    ensures var r := ParseTypes(ts, pos, d, after);
      if Is(ts, pos, RBracket) then r == Got(Items([], after), pos + 1)
      else
        var t := ParseType(ts, pos, d);
        if t.Fail? then r == Fail
        else if Is(ts, t.pos, Comma) then
          var rest := ParseTypes(ts, t.pos + 1, d, true);
          if rest.Fail? then r == Fail else r == Got(Items([t.value] + rest.value.items, rest.value.trailing), rest.pos)
        else if Is(ts, t.pos, RBracket) then r == Got(Items([t.value], false), t.pos + 1)
        else r == Fail
  {
  }

  lemma {:induction false} ExprSound(ts: seq<Token>, pos: nat, d: int)
    requires pos <= |ts| && ParseExpr(ts, pos, d).Got?
    ensures Parsed(ParseExpr(ts, pos, d).value, ts, pos, ParseExpr(ts, pos, d).pos, d + 1)
    decreases |ts| - pos, 20
  {
    ParseSound(ASSIGN, ts, pos, d + 1);
  }

  lemma {:induction false} ParseSound(level: nat, ts: seq<Token>, pos: nat, d: int)
    requires pos <= |ts| && level <= PRIMARY && d <= MAX_DEPTH && Parse(level, ts, pos, d).Got?
    ensures var r := Parse(level, ts, pos, d); Parsed(r.value, ts, pos, r.pos, d) && Prec(r.value) >= level
    decreases |ts| - pos, PRIMARY - level
  {
    hide Parsed;
    if level == PRIMARY {
      PrimarySound(ts, pos, d);
    } else if level == UNARY && UnOpOf(Cur(ts, pos)).Some? {
      ParseSound(UNARY, ts, pos + 1, d);
      UnarySound(UnOpOf(Cur(ts, pos)).value, Parse(UNARY, ts, pos + 1, d).value, ts, pos, Parse(UNARY, ts, pos + 1, d).pos, d);
    } else {
      ParseSound(level + 1, ts, pos, d);
      var lhs := Parse(level + 1, ts, pos, d);
      if level == ASSIGN {
        if AssignOpOf(Cur(ts, lhs.pos)).Some? {
          ParseSound(ASSIGN, ts, lhs.pos + 1, d);
          var rhs := Parse(ASSIGN, ts, lhs.pos + 1, d);
          AssignSound(AssignOpOf(Cur(ts, lhs.pos)).value, lhs.value, rhs.value, ts, pos, lhs.pos, rhs.pos, d);
        }
      } else if level < CAST {
        BinLoopSound(level, lhs.value, ts, pos, lhs.pos, d);
      } else if level == CAST {
        CastLoopSound(lhs.value, ts, pos, lhs.pos, d);
      } else if level == POSTFIX {
        PostfixLoopSound(lhs.value, ts, pos, lhs.pos, d);
      }
    }
  }

  lemma UnarySound(op: UnOp, x: Expr, ts: seq<Token>, pos: nat, to: nat, d: int)
    requires UnOpOf(Cur(ts, pos)) == Some(op) && Parsed(x, ts, pos + 1, to, d) && Prec(x) >= UNARY
    ensures Parsed(Unary(op, x), ts, pos, to, d)
  {
  }

  lemma AssignSound(op: AssignOp, l: Expr, r: Expr, ts: seq<Token>, from: nat, mid: nat, to: nat, d: int)
    requires Parsed(l, ts, from, mid, d) && Prec(l) > ASSIGN && AssignOpOf(Cur(ts, mid)) == Some(op) && Parsed(r, ts, mid + 1, to, d)
    ensures Parsed(Assign(op, l, r), ts, from, to, d)
  {
    hide *;
    var e := Assign(op, l, r);
    AssignToken(ts, mid, op);
    AssignDefs(e, ts, from, MAX_DEPTH - d);
    ParsedUnfold(e, ts, from, to, d);
    ParsedUnfold(l, ts, from, mid, d);
    ParsedUnfold(r, ts, mid + 1, to, d);
  }

  lemma AssignDefs(e: Expr, ts: seq<Token>, pos: nat, d: int)
    requires e.Assign?
    ensures Ok(e) <==> Prec(e.lhs) > ASSIGN && Ok(e.lhs) && Ok(e.rhs)
    ensures At(e, ts, pos) <==>
      At(e.lhs, ts, pos) && Is(ts, pos + Len(e.lhs), AssignTok(e.asop)) && At(e.rhs, ts, pos + Len(e.lhs) + 1)
    ensures Len(e) == Len(e.lhs) + 1 + Len(e.rhs) && (Depth(e) <= d <==> Depth(e.lhs) <= d && Depth(e.rhs) <= d)
    ensures ASSIGN == 0
  {
  }

  lemma BinaryDefs(e: Expr, ts: seq<Token>, pos: nat, d: int)
    requires e.Binary?
    ensures Ok(e) <==> Prec(e.lhs) >= Level(e.op) && Prec(e.rhs) > Level(e.op) && Ok(e.lhs) && Ok(e.rhs)
    ensures At(e, ts, pos) <==>
      At(e.lhs, ts, pos) && Is(ts, pos + Len(e.lhs), BinTok(e.op)) && At(e.rhs, ts, pos + Len(e.lhs) + 1)
    ensures Len(e) == Len(e.lhs) + 1 + Len(e.rhs) && (Depth(e) <= d <==> Depth(e.lhs) <= d && Depth(e.rhs) <= d)
    ensures Prec(e) == Level(e.op)
  {
  }

  // An operator token stands for its operator and ends the operand before it.
  lemma AssignToken(ts: seq<Token>, mid: nat, op: AssignOp)
    ensures Is(ts, mid, AssignTok(op)) <==> AssignOpOf(Cur(ts, mid)) == Some(op)
    ensures Is(ts, mid, AssignTok(op)) ==> Stops(1, ts, mid) && mid < |ts|
  {
  }

  lemma BinToken(ts: seq<Token>, mid: nat, op: BinOp)
    ensures Is(ts, mid, BinTok(op)) <==> BinOpOf(Cur(ts, mid)) == Some(op)
    ensures Is(ts, mid, BinTok(op)) ==> Stops(Level(op) + 1, ts, mid) && mid < |ts|
  {
    BinOpRoundTrip(op);
  }

  lemma BinarySound(op: BinOp, l: Expr, r: Expr, ts: seq<Token>, from: nat, mid: nat, to: nat, d: int)
    requires Parsed(l, ts, from, mid, d) && Prec(l) >= Level(op) && BinOpOf(Cur(ts, mid)) == Some(op)
    requires Parsed(r, ts, mid + 1, to, d) && Prec(r) > Level(op)
    ensures Parsed(Binary(op, l, r), ts, from, to, d)
  {
    hide *;
    var e := Binary(op, l, r);
    BinToken(ts, mid, op);
    BinaryDefs(e, ts, from, MAX_DEPTH - d);
    ParsedUnfold(e, ts, from, to, d);
    ParsedUnfold(l, ts, from, mid, d);
    ParsedUnfold(r, ts, mid + 1, to, d);
  }

  // `from` is where the left operand began.
  lemma {:induction false} BinLoopSound(level: nat, lhs: Expr, ts: seq<Token>, from: nat, pos: nat, d: int)
    requires pos <= |ts| && 1 <= level < CAST && d <= MAX_DEPTH && BinLoop(level, lhs, ts, pos, d).Got?
    requires Parsed(lhs, ts, from, pos, d) && Prec(lhs) >= level
    ensures var r := BinLoop(level, lhs, ts, pos, d); Parsed(r.value, ts, from, r.pos, d) && Prec(r.value) >= level
    decreases |ts| - pos, 0
  {
    hide Parsed;
    var op := BinOpOf(Cur(ts, pos));
    if op.Some? && Level(op.value) == level {
      ParseSound(level + 1, ts, pos + 1, d);
      var rhs := Parse(level + 1, ts, pos + 1, d);
      BinarySound(op.value, lhs, rhs.value, ts, from, pos, rhs.pos, d);
      BinLoopSound(level, Binary(op.value, lhs, rhs.value), ts, from, rhs.pos, d);
    }
  }

  lemma {:induction false} CastLoopSound(lhs: Expr, ts: seq<Token>, from: nat, pos: nat, d: int)
    requires pos <= |ts| && d <= MAX_DEPTH && CastLoop(lhs, ts, pos, d).Got?
    requires Parsed(lhs, ts, from, pos, d) && Prec(lhs) >= CAST
    ensures var r := CastLoop(lhs, ts, pos, d); Parsed(r.value, ts, from, r.pos, d) && Prec(r.value) >= CAST
    decreases |ts| - pos, 0
  {
    if Is(ts, pos, As) {
      TypeSound(ts, pos + 1, d);
      var t := ParseType(ts, pos + 1, d);
      CastLoopSound(Cast(lhs, t.value), ts, from, t.pos, d);
    }
  }

  lemma {:induction false} PostfixLoopSound(lhs: Expr, ts: seq<Token>, from: nat, pos: nat, d: int)
    requires pos <= |ts| && d <= MAX_DEPTH && PostfixLoop(lhs, ts, pos, d).Got?
    requires Parsed(lhs, ts, from, pos, d) && Prec(lhs) >= POSTFIX
    ensures var r := PostfixLoop(lhs, ts, pos, d); Parsed(r.value, ts, from, r.pos, d) && Prec(r.value) >= POSTFIX
    decreases |ts| - pos, 0
  {
    hide Parsed;
    var one := PostfixOne(lhs, ts, pos, d);
    if one.pos != pos {
      PostfixOneSound(lhs, ts, from, pos, d);
      PostfixLoopSound(one.value, ts, from, one.pos, d);
    }
  }

  lemma PostfixOneSound(lhs: Expr, ts: seq<Token>, from: nat, pos: nat, d: int)
    requires pos <= |ts| && d <= MAX_DEPTH && PostfixOne(lhs, ts, pos, d).Got? && PostfixOne(lhs, ts, pos, d).pos != pos
    requires Parsed(lhs, ts, from, pos, d) && Prec(lhs) >= POSTFIX
    ensures var r := PostfixOne(lhs, ts, pos, d); Parsed(r.value, ts, from, r.pos, d) && Prec(r.value) == POSTFIX
    decreases |ts| - pos, 0, 0
  {
    hide *;
    PlainPostfixSound(lhs, ts, from, pos, d);
    if Is(ts, pos, LParen) {
      ItemsSound(ts, pos + 1, d, false);
      var args := ParseItems(ts, pos + 1, d, false).value;
      CallSound(Call(lhs, args.items, args.trailing), ts, from, pos, d);
    } else if Is(ts, pos, LBracket) {
      IndexSound(lhs, ts, from, pos, d);
    }
  }

  lemma PlainPostfixSound(lhs: Expr, ts: seq<Token>, from: nat, pos: nat, d: int)
    requires pos <= |ts| && PostfixOne(lhs, ts, pos, d).Got? && PostfixOne(lhs, ts, pos, d).pos != pos
    requires Parsed(lhs, ts, from, pos, d) && Prec(lhs) >= POSTFIX
    ensures var r := PostfixOne(lhs, ts, pos, d);
      if Is(ts, pos, LParen) then
        var args := ParseItems(ts, pos + 1, d, false);
        pos < |ts| && args.Got? && r == Got(Call(lhs, args.value.items, args.value.trailing), args.pos)
      else if Is(ts, pos, LBracket) then pos < |ts| && r == ParseIndex(lhs, ts, pos + 1, d)
      else Parsed(r.value, ts, from, r.pos, d) && Prec(r.value) == POSTFIX
  {
    hide ParseIndex, ParseItems;
  }

  lemma CallSound(e: Expr, ts: seq<Token>, from: nat, pos: nat, d: int)
    requires e.Call? && Parsed(e.receiver, ts, from, pos, d) && Prec(e.receiver) >= POSTFIX && Is(ts, pos, LParen)
    requires AllOk(e.args) && AllAt(e.args, e.trailing, ts, pos + 1) && Is(ts, pos + 1 + LenAll(e.args, e.trailing), RParen)
    requires d + DepthAll(e.args) <= MAX_DEPTH && (e.args == [] ==> !e.trailing)
    ensures Parsed(e, ts, from, pos + LenAll(e.args, e.trailing) + 2, d) && Prec(e) == POSTFIX
  {
    hide LenAll, AllOk, AllAt, DepthAll;
  }

  // pos is the opening bracket.
  lemma IndexSound(lhs: Expr, ts: seq<Token>, from: nat, pos: nat, d: int)
    requires pos < |ts| && d <= MAX_DEPTH && Is(ts, pos, LBracket) && ParseIndex(lhs, ts, pos + 1, d).Got?
    requires Parsed(lhs, ts, from, pos, d) && Prec(lhs) >= POSTFIX
    ensures var r := ParseIndex(lhs, ts, pos + 1, d); Parsed(r.value, ts, from, r.pos, d) && Prec(r.value) == POSTFIX
    decreases |ts| - pos - 1, 21
  {
    hide *;
    IndexUnfold(lhs, ts, pos + 1, d);
    if Is(ts, pos + 1, DotDot) || Is(ts, pos + 1, DotDotEq) {
      HighSound(lhs, None, ts, from, pos, pos + 1, d);
    } else {
      ExprSound(ts, pos + 1, d);
      var first := ParseExpr(ts, pos + 1, d);
      if Is(ts, first.pos, DotDot) || Is(ts, first.pos, DotDotEq) {
        HighSound(lhs, Some(first.value), ts, from, pos, first.pos, d);
      } else {
        OneIndexSound(Index(lhs, first.value), ts, from, pos, first.pos, d);
      }
    }
  }

  lemma OneIndexSound(e: Expr, ts: seq<Token>, from: nat, open: nat, end: nat, d: int)
    requires e.Index? && Parsed(e.receiver, ts, from, open, d) && Prec(e.receiver) >= POSTFIX
    requires Is(ts, open, LBracket) && Parsed(e.index, ts, open + 1, end, d + 1) && Is(ts, end, RBracket)
    ensures Parsed(e, ts, from, end + 1, d) && Prec(e) == POSTFIX
  {
    hide *;
    IndexDefs(e, ts, from);
    ParsedUnfold(e, ts, from, end + 1, d);
    ParsedUnfold(e.receiver, ts, from, open, d);
    ParsedUnfold(e.index, ts, open + 1, end, d + 1);
  }

  lemma IndexDefs(e: Expr, ts: seq<Token>, pos: nat)
    requires e.Index?
    ensures Ok(e) <==> Prec(e.receiver) >= POSTFIX && Ok(e.receiver) && Ok(e.index)
    ensures var p := pos + Len(e.receiver);
      At(e, ts, pos) <==> At(e.receiver, ts, pos) && Is(ts, p, LBracket) && At(e.index, ts, p + 1) && Is(ts, p + 1 + Len(e.index), RBracket)
    ensures Len(e) == Len(e.receiver) + 2 + Len(e.index) && Prec(e) == POSTFIX
    ensures Depth(e) == if Depth(e.receiver) > 1 + Depth(e.index) then Depth(e.receiver) else 1 + Depth(e.index)
  {
  }

  lemma RangeDefs(e: Expr, ts: seq<Token>, pos: nat, d: int)
    requires e.IndexRange?
    ensures Ok(e) <==> Prec(e.receiver) >= POSTFIX && Ok(e.receiver) && (e.low.Some? ==> Ok(e.low.value)) && (e.high.Some? ==> Ok(e.high.value))
    ensures var p := pos + Len(e.receiver); var q := p + 1 + LenOpt(e.low);
      At(e, ts, pos) <==>
        && At(e.receiver, ts, pos) && Is(ts, p, LBracket) && OptAt(e.low, ts, p + 1)
        && Is(ts, q, if e.inclusive then DotDotEq else DotDot) && OptAt(e.high, ts, q + 1) && Is(ts, q + 1 + LenOpt(e.high), RBracket)
    ensures Len(e) == Len(e.receiver) + 3 + LenOpt(e.low) + LenOpt(e.high) && Prec(e) == POSTFIX
    ensures Depth(e) <= d <==> Depth(e.receiver) <= d && DepthOpt(e.low) <= d && DepthOpt(e.high) <= d
  {
  }

  lemma HighSound(lhs: Expr, low: Option<Expr>, ts: seq<Token>, from: nat, open: nat, pos: nat, d: int)
    requires pos < |ts| && d <= MAX_DEPTH && Is(ts, open, LBracket) && (Is(ts, pos, DotDot) || Is(ts, pos, DotDotEq))
    requires ParseHigh(lhs, low, ts, pos, d).Got? && Parsed(lhs, ts, from, open, d) && Prec(lhs) >= POSTFIX
    requires if low.Some? then Parsed(low.value, ts, open + 1, pos, d + 1) else pos == open + 1
    ensures var r := ParseHigh(lhs, low, ts, pos, d); Parsed(r.value, ts, from, r.pos, d) && Prec(r.value) == POSTFIX
    decreases |ts| - pos, 0
  {
    hide *;
    HighUnfold(lhs, low, ts, pos, d);
    var inc := Is(ts, pos, DotDotEq);
    if Is(ts, pos + 1, RBracket) {
      RangeSound(IndexRange(lhs, low, None, inc), ts, from, open, pos, pos + 1, d);
    } else {
      ExprSound(ts, pos + 1, d);
      var high := ParseExpr(ts, pos + 1, d);
      ParsedUnfold(high.value, ts, pos + 1, high.pos, d + 1);
      RangeSound(IndexRange(lhs, low, Some(high.value), inc), ts, from, open, pos, high.pos, d);
    }
  }

  lemma RangeSound(e: Expr, ts: seq<Token>, from: nat, open: nat, dots: nat, end: nat, d: int)
    requires e.IndexRange? && Parsed(e.receiver, ts, from, open, d) && Prec(e.receiver) >= POSTFIX
    requires Is(ts, open, LBracket) && Is(ts, dots, if e.inclusive then DotDotEq else DotDot) && Is(ts, end, RBracket)
    requires if e.low.Some? then Parsed(e.low.value, ts, open + 1, dots, d + 1) else dots == open + 1
    requires if e.high.Some? then Parsed(e.high.value, ts, dots + 1, end, d + 1) else end == dots + 1
    ensures Parsed(e, ts, from, end + 1, d) && Prec(e) == POSTFIX
  {
    hide *;
    RangeDefs(e, ts, from, MAX_DEPTH - d);
    OptUnfold(e.low, ts, open + 1);
    OptUnfold(e.high, ts, dots + 1);
    ParsedUnfold(e, ts, from, end + 1, d);
    ParsedUnfold(e.receiver, ts, from, open, d);
    if e.low.Some? {
      ParsedUnfold(e.low.value, ts, open + 1, dots, d + 1);
    }
    if e.high.Some? {
      ParsedUnfold(e.high.value, ts, dots + 1, end, d + 1);
    }
  }

  lemma {:induction false} ItemsSound(ts: seq<Token>, pos: nat, d: int, after: bool)
    requires pos <= |ts| && d <= MAX_DEPTH && ParseItems(ts, pos, d, after).Got?
    ensures var r := ParseItems(ts, pos, d, after); var xs := r.value.items;
      && AllOk(xs) && AllAt(xs, r.value.trailing, ts, pos)
      && Is(ts, pos + LenAll(xs, r.value.trailing), RParen) && pos + LenAll(xs, r.value.trailing) + 1 == r.pos
      && d + DepthAll(xs) <= MAX_DEPTH
      && (xs == [] ==> r.value.trailing == after)
    decreases |ts| - pos, 21
  {
    hide *;
    ItemsUnfold(ts, pos, d, after);
    if Is(ts, pos, RParen) {
      AllNone(after, ts, pos);
    } else {
      ExprSound(ts, pos, d);
      var e := ParseExpr(ts, pos, d);
      ParsedUnfold(e.value, ts, pos, e.pos, d + 1);
      if Is(ts, e.pos, Comma) {
        ItemsSound(ts, e.pos + 1, d, true);
        var rest := ParseItems(ts, e.pos + 1, d, true).value;
        AllCons(e.value, rest.items, rest.trailing, ts, pos);
      } else {
        AllSingle(e.value, ts, pos);
      }
    }
  }

  lemma ParsedUnfold(e: Expr, ts: seq<Token>, from: nat, to: nat, d: int)
    ensures Parsed(e, ts, from, to, d) <==> Ok(e) && At(e, ts, from) && from + Len(e) == to && d + Depth(e) <= MAX_DEPTH
  {
  }

  lemma AllNone(trailing: bool, ts: seq<Token>, pos: nat)
    ensures AllOk([]) && AllAt([], trailing, ts, pos) && LenAll([], trailing) == 0 && DepthAll([]) == 0
  {
  }

  lemma ItemsUnfold(ts: seq<Token>, pos: nat, d: int, after: bool)
    requires pos <= |ts|
    ensures var r := ParseItems(ts, pos, d, after);
      if Is(ts, pos, RParen) then r == Got(Items([], after), pos + 1)
      else
        var e := ParseExpr(ts, pos, d);
        if e.Fail? then r == Fail
        else if Is(ts, e.pos, Comma) then
          var rest := ParseItems(ts, e.pos + 1, d, true);
          if rest.Fail? then r == Fail else r == Got(Items([e.value] + rest.value.items, rest.value.trailing), rest.pos)
        else if Is(ts, e.pos, RParen) then r == Got(Items([e.value], false), e.pos + 1)
        else r == Fail
  {
  }

  lemma PrimarySound(ts: seq<Token>, pos: nat, d: int)
    requires pos <= |ts| && d <= MAX_DEPTH && ParsePrimary(ts, pos, d).Got?
    ensures var r := ParsePrimary(ts, pos, d); Parsed(r.value, ts, pos, r.pos, d) && Prec(r.value) == PRIMARY
    decreases |ts| - pos, 0, 0
  {
    hide *;
    PlainPrimarySound(ts, pos, d);
    if Is(ts, pos, LParen) {
      ParenUnfold(ts, pos, d);
      if Is(ts, pos + 1, RParen) {
        AllNone(false, ts, pos + 1);
        TupleSound([], false, ts, pos, d);
      } else {
        ExprSound(ts, pos + 1, d);
        var first := ParseExpr(ts, pos + 1, d);
        if Is(ts, first.pos, RParen) {
          ParenSound(first.value, ts, pos, first.pos, d);
        } else {
          ItemsSound(ts, first.pos + 1, d, true);
          var rest := ParseItems(ts, first.pos + 1, d, true).value;
          ParsedUnfold(first.value, ts, pos + 1, first.pos, d + 1);
          AllCons(first.value, rest.items, rest.trailing, ts, pos + 1);
          TupleSound([first.value] + rest.items, rest.trailing, ts, pos, d);
        }
      }
    }
  }

  lemma PlainPrimarySound(ts: seq<Token>, pos: nat, d: int)
    requires pos <= |ts| && d <= MAX_DEPTH && ParsePrimary(ts, pos, d).Got?
    ensures var r := ParsePrimary(ts, pos, d); Is(ts, pos, LParen) || (Parsed(r.value, ts, pos, r.pos, d) && Prec(r.value) == PRIMARY)
    ensures pos < |ts|
  {
  }

  lemma TupleSound(es: seq<Expr>, trailing: bool, ts: seq<Token>, pos: nat, d: int)
    requires Is(ts, pos, LParen) && AllOk(es) && AllAt(es, trailing, ts, pos + 1) && Is(ts, pos + 1 + LenAll(es, trailing), RParen)
    requires d + DepthAll(es) <= MAX_DEPTH && (es == [] ==> !trailing) && (|es| == 1 ==> trailing)
    ensures Parsed(Tuple(es, trailing), ts, pos, pos + 2 + LenAll(es, trailing), d) && Prec(Tuple(es, trailing)) == PRIMARY
  {
  }

  lemma ParenSound(e: Expr, ts: seq<Token>, pos: nat, end: nat, d: int)
    requires Is(ts, pos, LParen) && Parsed(e, ts, pos + 1, end, d + 1) && Is(ts, end, RParen)
    ensures Parsed(Paren(e), ts, pos, end + 1, d) && Prec(Paren(e)) == PRIMARY
  {
  }

  /******* Completeness: a well-formed tree is parsed back from its tokens *******/

  // The token at p ends an expression parsed at this level.
  predicate Stops(level: nat, ts: seq<Token>, p: nat) {
    var t := Cur(ts, p);
    && !StructBody(ts, p)
    && (level <= POSTFIX ==> t !in {P(Dot), P(QuestionDot), P(Question), P(LParen), P(LBracket)})
    && (level <= CAST ==> t != P(As))
    && (BinOpOf(t).Some? ==> Level(BinOpOf(t).value) < level)
    && (level == ASSIGN ==> AssignOpOf(t).None?)
  }

  lemma {:induction false} SegmentsComplete(segs: seq<string>, ts: seq<Token>, pos: nat)
    requires SegmentsAt(segs, ts, pos) && pos + 2 * |segs| <= |ts| && !Is(ts, pos + 2 * |segs|, Dot)
    requires forall i :: 0 <= i < |segs| ==> IsIdent(Word(segs[i]))
    ensures ParseSegments(ts, pos) == (segs, pos + 2 * |segs|)
    decreases |segs|
  {
    if segs != [] {
      SegmentsComplete(segs[1..], ts, pos + 2);
      assert [segs[0]] + segs[1..] == segs;
    }
  }

  // A type that is neither a pointer nor anything outside the fragment.
  function PathTypeAt(ts: seq<Token>, pos: nat, d: int): (r: Got<Type>)
    requires pos < |ts| && ts[pos].Word?
  {
    var segs := ParseSegments(ts, pos + 1);
    if !Is(ts, segs.1, LBracket) then Got(PathType(ts[pos].text, segs.0, false, [], false), segs.1)
    else
      var args := ParseTypes(ts, segs.1 + 1, d, false);
      if args.Got? then Got(PathType(ts[pos].text, segs.0, true, args.value.items, args.value.trailing), args.pos) else Fail
  }

  lemma TypeCases(ts: seq<Token>, pos: nat, d: int)
    requires pos <= |ts|
    ensures var r := ParseType(ts, pos, d);
      if d >= MAX_DEPTH || !StartsPath(Cur(ts, pos)) then r == Fail
      else if IsPtr(ts, pos) then
        pos + 2 <= |ts| &&
        var t := ParseType(ts, pos + 2, d + 1);
        r == if t.Got? && Is(ts, t.pos, RBracket) then Got(PtrType(t.value), t.pos + 1) else Fail
      else
        pos < |ts| && ts[pos].Word? && r == PathTypeAt(ts, pos, d + 1)
  {
    hide ParseTypes, ParseSegments;
  }

  lemma {:induction false} TypeComplete(t: Type, ts: seq<Token>, pos: nat, d: int)
    requires TypeOk(t) && TypeAt(t, ts, pos) && pos + TypeLen(t) <= |ts| && d + TypeDepth(t) <= MAX_DEPTH
    requires !Is(ts, pos + TypeLen(t), Dot) && !Is(ts, pos + TypeLen(t), LBracket)
    ensures ParseType(ts, pos, d) == Got(t, pos + TypeLen(t))
    decreases t, 1
  {
    hide *;
    TypeCases(ts, pos, d);
    TypeStarts(t, ts, pos);
    TypeParts(t, ts, pos, d);
    if t.PtrType? {
      TypeComplete(t.pointee, ts, pos + 2, d + 1);
    } else {
      var p := pos + 1 + 2 * |t.segs|;
      SegmentsComplete(t.segs, ts, pos + 1);
      if t.brackets {
        TypesComplete(t.args, t.trailing, ts, p + 1, d + 1, false);
      }
      PathTypeUnfold(ts, pos, d + 1);
    }
  }

  lemma PathTypeUnfold(ts: seq<Token>, pos: nat, d: int)
    requires pos < |ts| && ts[pos].Word?
    ensures var segs := ParseSegments(ts, pos + 1); var args := if segs.1 < |ts| then ParseTypes(ts, segs.1 + 1, d, false) else Fail;
      PathTypeAt(ts, pos, d) ==
        if !Is(ts, segs.1, LBracket) then Got(PathType(ts[pos].text, segs.0, false, [], false), segs.1)
        else if args.Got? then Got(PathType(ts[pos].text, segs.0, true, args.value.items, args.value.trailing), args.pos)
        else Fail
  {
    hide ParseTypes, ParseSegments;
  }

  // What a type that stands here, fits the depth and is followed by no dot or
  // bracket is made of.
  lemma TypeParts(t: Type, ts: seq<Token>, pos: nat, d: int)
    requires TypeOk(t) && TypeAt(t, ts, pos) && pos + TypeLen(t) <= |ts| && d + TypeDepth(t) <= MAX_DEPTH
    requires !Is(ts, pos + TypeLen(t), LBracket)
    ensures d < MAX_DEPTH && pos < |ts| && !t.NoType?
    ensures t.PtrType? ==>
      && TypeOk(t.pointee) && TypeAt(t.pointee, ts, pos + 2) && pos + 3 + TypeLen(t.pointee) == pos + TypeLen(t)
      && d + 1 + TypeDepth(t.pointee) <= MAX_DEPTH && Is(ts, pos + 2 + TypeLen(t.pointee), RBracket)
      && !Is(ts, pos + 2 + TypeLen(t.pointee), Dot) && !Is(ts, pos + 2 + TypeLen(t.pointee), LBracket)
    ensures t.PathType? ==>
      && ts[pos] == Word(t.first) && SegmentsAt(t.segs, ts, pos + 1) && (forall i :: 0 <= i < |t.segs| ==> IsIdent(Word(t.segs[i])))
      && (forall i :: 0 <= i < |t.args| ==> TypeOk(t.args[i])) && (t.args == [] ==> !t.trailing)
      && d + 1 + TypesDepth(t.args) <= MAX_DEPTH
      && var p := pos + 1 + 2 * |t.segs|;
      && p <= |ts| && (Is(ts, p, LBracket) <==> t.brackets)
      && (!t.brackets ==> t.args == [] && !t.trailing && p == pos + TypeLen(t))
      && (t.brackets ==>
           && TypesAt(t.args, t.trailing, ts, p + 1) && Is(ts, p + 1 + TypesLen(t.args, t.trailing), RBracket)
           && p + 2 + TypesLen(t.args, t.trailing) == pos + TypeLen(t))
  {
    hide IsIdent, SegmentsAt, TypesAt, TypesLen, TypesDepth;
  }

  // How a type begins, and where a bracket or no dot follows its name.
  lemma TypeStarts(t: Type, ts: seq<Token>, pos: nat)
    requires TypeOk(t) && TypeAt(t, ts, pos) && !Is(ts, pos + TypeLen(t), Dot) && !Is(ts, pos + TypeLen(t), LBracket)
    ensures StartsPath(Cur(ts, pos)) && (IsPtr(ts, pos) <==> t.PtrType?)
    ensures t.PathType? ==> !Is(ts, pos + 1 + 2 * |t.segs|, Dot)
  {
    if t.PathType? && t.segs != [] {
      assert Is(ts, pos + 1, Dot);
    }
  }

  lemma {:induction false} TypesComplete(xs: seq<Type>, trailing: bool, ts: seq<Token>, pos: nat, d: int, after: bool)
    requires (forall i :: 0 <= i < |xs| ==> TypeOk(xs[i])) && TypesAt(xs, trailing, ts, pos)
    requires pos + TypesLen(xs, trailing) < |ts| && Is(ts, pos + TypesLen(xs, trailing), RBracket)
    requires d + TypesDepth(xs) <= MAX_DEPTH && (xs == [] ==> trailing == after)
    ensures ParseTypes(ts, pos, d, after) == Got(Items(xs, trailing), pos + TypesLen(xs, trailing) + 1)
    decreases xs, 0
  {
    hide *;
    TypesUnfold(ts, pos, d, after);
    if xs == [] {
      TypesNone(trailing, ts, pos);
    } else {
      var p := pos + TypeLen(xs[0]);
      assert [xs[0]] + xs[1..] == xs;
      if |xs| > 1 || trailing {
        TypesCons(xs[0], xs[1..], trailing, ts, pos);
        OnePunct(ts, p, Comma);
        TypeFirst(xs[0], ts, pos);
        TypeComplete(xs[0], ts, pos, d);
        TypesComplete(xs[1..], trailing, ts, p + 1, d, true);
      } else {
        assert xs == [xs[0]];
        TypesSingle(xs[0], ts, pos);
        OnePunct(ts, p, RBracket);
        TypeFirst(xs[0], ts, pos);
        TypeComplete(xs[0], ts, pos, d);
      }
    }
  }

  lemma TypeFirst(t: Type, ts: seq<Token>, pos: nat)
    requires TypeOk(t) && TypeAt(t, ts, pos)
    ensures !Is(ts, pos, RBracket)
  {
  }

  lemma OnePunct(ts: seq<Token>, pos: nat, p: Punct)
    requires Is(ts, pos, p)
    ensures pos < |ts| && forall q :: q != p ==> !Is(ts, pos, q)
  {
  }

  // How an expression can begin.
  lemma {:induction false} FirstToken(e: Expr, ts: seq<Token>, pos: nat)
    requires Ok(e) && At(e, ts, pos)
    ensures var t := Cur(ts, pos); t.Lit? || t.Word? || t == P(LParen) || UnOpOf(t).Some?
    ensures Prec(e) >= POSTFIX ==> UnOpOf(Cur(ts, pos)).None?
  {
    match e
    case Binary(_, l, _) => FirstToken(l, ts, pos);
    case Assign(_, l, _) => FirstToken(l, ts, pos);
    case Cast(x, _) => FirstToken(x, ts, pos);
    case Field(x, _) => FirstToken(x, ts, pos);
    case OptField(x, _) => FirstToken(x, ts, pos);
    case Try(x) => FirstToken(x, ts, pos);
    case Call(x, _, _) => FirstToken(x, ts, pos);
    case Index(x, _) => FirstToken(x, ts, pos);
    case IndexRange(x, _, _, _) => FirstToken(x, ts, pos);
    case _ =>
  }

  // e is well formed, stands at pos, and fits the depth limit.
  ghost predicate Fits(e: Expr, ts: seq<Token>, pos: nat, d: int) {
    Ok(e) && At(e, ts, pos) && pos + Len(e) <= |ts| && d + Depth(e) <= MAX_DEPTH
  }

  lemma {:induction false} ExprComplete(e: Expr, ts: seq<Token>, pos: nat, d: int)
    requires Fits(e, ts, pos, d + 1) && Stops(ASSIGN, ts, pos + Len(e))
    ensures ParseExpr(ts, pos, d) == Got(e, pos + Len(e))
    decreases e, 20
  {
    Complete(ASSIGN, e, ts, pos, d + 1);
  }

  lemma {:induction false} Complete(level: nat, e: Expr, ts: seq<Token>, pos: nat, d: int)
    requires level <= PRIMARY && Prec(e) >= level && Fits(e, ts, pos, d) && Stops(level, ts, pos + Len(e))
    ensures Parse(level, ts, pos, d) == Got(e, pos + Len(e))
    decreases e, PRIMARY - level, 1
  {
    hide At, Len, Ok, Depth, StructBody;
    if level == PRIMARY {
      PrimaryComplete(e, ts, pos, d);
    } else if level == UNARY {
      if e.Unary? {
        UnaryComplete(e, ts, pos, d);
      } else {
        FirstToken(e, ts, pos);
        Complete(POSTFIX, e, ts, pos, d);
      }
    } else if level == ASSIGN {
      if e.Assign? {
        AssignComplete(e, ts, pos, d);
      } else {
        Complete(1, e, ts, pos, d);
      }
    } else if level < CAST {
      BinSpine(level, e, ts, pos, d);
    } else if level == CAST {
      CastSpine(e, ts, pos, d);
    } else {
      PostfixSpine(e, ts, pos, d);
    }
  }

  lemma UnaryComplete(e: Expr, ts: seq<Token>, pos: nat, d: int)
    requires e.Unary? && Fits(e, ts, pos, d) && Stops(UNARY, ts, pos + Len(e))
    ensures Parse(UNARY, ts, pos, d) == Got(e, pos + Len(e))
    decreases e, PRIMARY - UNARY, 0
  {
    Complete(UNARY, e.operand, ts, pos + 1, d);
  }

  lemma AssignComplete(e: Expr, ts: seq<Token>, pos: nat, d: int)
    requires e.Assign? && Fits(e, ts, pos, d) && Stops(ASSIGN, ts, pos + Len(e))
    ensures Parse(ASSIGN, ts, pos, d) == Got(e, pos + Len(e))
    decreases e, PRIMARY, 0
  {
    hide Fits, At, Len, Ok, Depth, Parse, Stops;
    AssignFits(e, ts, pos, d);
    Complete(1, e.lhs, ts, pos, d);
    Complete(ASSIGN, e.rhs, ts, pos + Len(e.lhs) + 1, d);
    AssignUnfold(ts, pos, d);
  }

  lemma AssignFits(e: Expr, ts: seq<Token>, pos: nat, d: int)
    requires e.Assign? && Fits(e, ts, pos, d)
    ensures var mid := pos + Len(e.lhs);
      && AssignOpOf(Cur(ts, mid)) == Some(e.asop) && Prec(e.lhs) >= 1 && Stops(1, ts, mid) && mid < |ts|
      && Fits(e.lhs, ts, pos, d) && Fits(e.rhs, ts, mid + 1, d) && Len(e) == Len(e.lhs) + 1 + Len(e.rhs)
      && Prec(e.rhs) >= ASSIGN
  {
    hide *;
    var mid := pos + Len(e.lhs);
    AssignDefs(e, ts, pos, MAX_DEPTH - d);
    AssignToken(ts, mid, e.asop);
    FitsUnfold(e, ts, pos, d);
    FitsUnfold(e.lhs, ts, pos, d);
    FitsUnfold(e.rhs, ts, mid + 1, d);
  }

  lemma AssignUnfold(ts: seq<Token>, pos: nat, d: int)
    requires pos <= |ts|
    ensures var r := Parse(ASSIGN, ts, pos, d); var lhs := Parse(1, ts, pos, d);
      if lhs.Fail? then r == Fail
      else if AssignOpOf(Cur(ts, lhs.pos)).None? then r == lhs
      else
        var rhs := Parse(ASSIGN, ts, lhs.pos + 1, d);
        if rhs.Got? then r == Got(Assign(AssignOpOf(Cur(ts, lhs.pos)).value, lhs.value, rhs.value), rhs.pos) else r == Fail
  {
  }

  // Parsing a left-nested chain of operators of one level arrives, after the
  // chain's last token, in the loop with the whole chain as left operand.
  lemma {:induction false} BinSpine(level: nat, e: Expr, ts: seq<Token>, pos: nat, d: int)
    requires 1 <= level < CAST && Prec(e) >= level && Fits(e, ts, pos, d) && Stops(level + 1, ts, pos + Len(e))
    ensures Parse(level, ts, pos, d) == BinLoop(level, e, ts, pos + Len(e), d)
    decreases e, PRIMARY - level, 0
  {
    hide Fits, Len, Stops, Parse, BinLoop, Level, BinOpOf;
    FitsUnfold(e, ts, pos, d);
    BinUnfold(level, ts, pos, d);
    if Prec(e) > level {
      Complete(level + 1, e, ts, pos, d);
    } else {
      var mid := pos + Len(e.lhs);
      BinFits(e, ts, pos, d);
      BinSpine(level, e.lhs, ts, pos, d);
      Complete(level + 1, e.rhs, ts, mid + 1, d);
      BinLoopUnfold(level, e.lhs, ts, mid, d);
    }
  }

  lemma BinUnfold(level: nat, ts: seq<Token>, pos: nat, d: int)
    requires pos <= |ts| && 1 <= level < CAST
    ensures var lhs := Parse(level + 1, ts, pos, d);
      Parse(level, ts, pos, d) == if lhs.Fail? then Fail else BinLoop(level, lhs.value, ts, lhs.pos, d)
  {
    hide BinLoop;
  }

  lemma BinLoopUnfold(level: nat, lhs: Expr, ts: seq<Token>, pos: nat, d: int)
    requires pos < |ts| && 1 <= level < CAST && BinOpOf(Cur(ts, pos)).Some? && Level(BinOpOf(Cur(ts, pos)).value) == level
    ensures var rhs := Parse(level + 1, ts, pos + 1, d);
      BinLoop(level, lhs, ts, pos, d) ==
        if rhs.Fail? then Fail else BinLoop(level, Binary(BinOpOf(Cur(ts, pos)).value, lhs, rhs.value), ts, rhs.pos, d)
  {
    hide Parse;
  }

  lemma BinFits(e: Expr, ts: seq<Token>, pos: nat, d: int)
    requires e.Binary? && Fits(e, ts, pos, d)
    ensures var mid := pos + Len(e.lhs); var level := Level(e.op);
      && BinOpOf(Cur(ts, mid)) == Some(e.op) && Stops(level + 1, ts, mid)
      && Prec(e.lhs) >= level && Fits(e.lhs, ts, pos, d)
      && Prec(e.rhs) > level && Fits(e.rhs, ts, mid + 1, d) && mid + 1 + Len(e.rhs) == pos + Len(e) && mid < |ts|
      && Prec(e) == level
  {
    hide *;
    var mid := pos + Len(e.lhs);
    BinaryDefs(e, ts, pos, MAX_DEPTH - d);
    BinToken(ts, mid, e.op);
    FitsUnfold(e, ts, pos, d);
    FitsUnfold(e.lhs, ts, pos, d);
    FitsUnfold(e.rhs, ts, mid + 1, d);
  }

  lemma {:induction false} CastSpine(e: Expr, ts: seq<Token>, pos: nat, d: int)
    requires Prec(e) >= CAST && Fits(e, ts, pos, d) && Stops(CAST + 1, ts, pos + Len(e))
    ensures Parse(CAST, ts, pos, d) == CastLoop(e, ts, pos + Len(e), d)
    decreases e, PRIMARY - CAST, 0
  {
    hide Fits, Len, TypeOk, TypeAt, TypeLen, TypeDepth, Stops, ParseType, Parse, CastLoop;
    FitsUnfold(e, ts, pos, d);
    CastUnfold(ts, pos, d);
    if Prec(e) > CAST {
      Complete(UNARY, e, ts, pos, d);
    } else {
      var mid := pos + Len(e.inner);
      CastFits(e, ts, pos, d);
      CastSpine(e.inner, ts, pos, d);
      TypeComplete(e.ty, ts, mid + 1, d);
      CastLoopUnfold(e.inner, ts, mid, d);
    }
  }

  lemma CastUnfold(ts: seq<Token>, pos: nat, d: int)
    requires pos <= |ts|
    ensures var x := Parse(UNARY, ts, pos, d);
      Parse(CAST, ts, pos, d) == if x.Fail? then Fail else CastLoop(x.value, ts, x.pos, d)
  {
    hide CastLoop;
  }

  lemma CastLoopUnfold(lhs: Expr, ts: seq<Token>, pos: nat, d: int)
    requires pos < |ts| && Is(ts, pos, As)
    ensures var t := ParseType(ts, pos + 1, d);
      CastLoop(lhs, ts, pos, d) == if t.Fail? then Fail else CastLoop(Cast(lhs, t.value), ts, t.pos, d)
  {
    hide ParseType;
  }

  lemma CastFits(e: Expr, ts: seq<Token>, pos: nat, d: int)
    requires e.Cast? && Fits(e, ts, pos, d) && Stops(CAST + 1, ts, pos + Len(e))
    ensures var mid := pos + Len(e.inner);
      && Prec(e.inner) >= CAST && Fits(e.inner, ts, pos, d) && Stops(CAST + 1, ts, mid) && Is(ts, mid, As)
      && TypeOk(e.ty) && TypeAt(e.ty, ts, mid + 1) && mid + 1 + TypeLen(e.ty) == pos + Len(e) <= |ts| && mid < |ts|
      && d + TypeDepth(e.ty) <= MAX_DEPTH && !Is(ts, pos + Len(e), Dot) && !Is(ts, pos + Len(e), LBracket)
  {
    hide *;
    CastDefs(e, ts, pos, MAX_DEPTH - d);
    CastToken(ts, pos + Len(e.inner), pos + Len(e));
    FitsUnfold(e, ts, pos, d);
    FitsUnfold(e.inner, ts, pos, d);
  }

  lemma CastDefs(e: Expr, ts: seq<Token>, pos: nat, d: int)
    requires e.Cast?
    ensures Ok(e) <==> Prec(e.inner) >= CAST && Ok(e.inner) && TypeOk(e.ty)
    ensures At(e, ts, pos) <==> At(e.inner, ts, pos) && Is(ts, pos + Len(e.inner), As) && TypeAt(e.ty, ts, pos + Len(e.inner) + 1)
    ensures Len(e) == Len(e.inner) + 1 + TypeLen(e.ty) && (Depth(e) <= d <==> Depth(e.inner) <= d && TypeDepth(e.ty) <= d)
  {
  }

  lemma CastToken(ts: seq<Token>, mid: nat, end: nat)
    ensures Is(ts, mid, As) ==> Stops(CAST + 1, ts, mid) && mid < |ts|
    ensures Stops(CAST + 1, ts, end) ==> !Is(ts, end, Dot) && !Is(ts, end, LBracket)
  {
  }

  lemma {:induction false} PostfixSpine(e: Expr, ts: seq<Token>, pos: nat, d: int)
    requires Prec(e) >= POSTFIX && Fits(e, ts, pos, d) && !StructBody(ts, pos + Len(e))
    ensures Parse(POSTFIX, ts, pos, d) == PostfixLoop(e, ts, pos + Len(e), d)
    decreases e, PRIMARY - POSTFIX, 0
  {
    if Prec(e) > POSTFIX {
      Complete(PRIMARY, e, ts, pos, d);
    } else {
      ReceiverFits(e, ts, pos, d);
      PostfixSpine(e.receiver, ts, pos, d);
      PostfixStep(e, ts, pos, d);
    }
  }

  lemma ReceiverFits(e: Expr, ts: seq<Token>, pos: nat, d: int)
    requires Prec(e) == POSTFIX && Fits(e, ts, pos, d)
    ensures Prec(e.receiver) >= POSTFIX && Fits(e.receiver, ts, pos, d) && !StructBody(ts, pos + Len(e.receiver))
    ensures Len(e) > Len(e.receiver)
  {
  }

  lemma PostfixStep(e: Expr, ts: seq<Token>, pos: nat, d: int)
    requires Prec(e) == POSTFIX && Fits(e, ts, pos, d)
    ensures Len(e.receiver) < Len(e) && PostfixOne(e.receiver, ts, pos + Len(e.receiver), d) == Got(e, pos + Len(e))
    decreases e, 0
  {
    match e
    case Call(x, args, tr) => CallStep(e, ts, pos, d);
    case Index(x, i) => IndexStep(e, ts, pos, d);
    case IndexRange(x, lo, hi, inc) => RangeStep(e, ts, pos, d);
    case _ => hide ParseIndex, ParseItems;
  }

  lemma IndexStep(e: Expr, ts: seq<Token>, pos: nat, d: int)
    requires e.Index? && Fits(e, ts, pos, d)
    ensures Len(e.receiver) < Len(e) && PostfixOne(e.receiver, ts, pos + Len(e.receiver), d) == Got(e, pos + Len(e))
    decreases e, 0, 0
  {
    hide *;
    var p := pos + Len(e.receiver);
    IndexFits(e, ts, pos, d);
    ItemComplete(e.index, ts, p + 1, d, RBracket);
    OnePunct(ts, p + 1 + Len(e.index), RBracket);
    IndexUnfold(e.receiver, ts, p + 1, d);
    BracketUnfold(e.receiver, ts, p, d);
  }

  lemma IndexFits(e: Expr, ts: seq<Token>, pos: nat, d: int)
    requires e.Index? && Fits(e, ts, pos, d)
    ensures var p := pos + Len(e.receiver);
      && Ok(e.index) && At(e.index, ts, p + 1) && Is(ts, p, LBracket) && Is(ts, p + 1 + Len(e.index), RBracket)
      && p + 2 + Len(e.index) == pos + Len(e) <= |ts| && d + 1 + Depth(e.index) <= MAX_DEPTH
  {
  }

  lemma RangeStep(e: Expr, ts: seq<Token>, pos: nat, d: int)
    requires e.IndexRange? && Fits(e, ts, pos, d)
    ensures Len(e.receiver) < Len(e) && PostfixOne(e.receiver, ts, pos + Len(e.receiver), d) == Got(e, pos + Len(e))
    decreases e, 0, 1
  {
    hide *;
    RangeFits(e, ts, pos, d);
    RangeComplete(e, ts, pos, d);
    BracketUnfold(e.receiver, ts, pos + Len(e.receiver), d);
  }

  lemma BracketUnfold(lhs: Expr, ts: seq<Token>, pos: nat, d: int)
    requires pos < |ts| && Is(ts, pos, LBracket)
    ensures PostfixOne(lhs, ts, pos, d) == ParseIndex(lhs, ts, pos + 1, d)
  {
    hide ParseIndex;
  }

  lemma CallStep(e: Expr, ts: seq<Token>, pos: nat, d: int)
    requires e.Call? && Fits(e, ts, pos, d)
    ensures Len(e.receiver) < Len(e) && PostfixOne(e.receiver, ts, pos + Len(e.receiver), d) == Got(e, pos + Len(e))
    decreases e, 0, 0
  {
    hide *;
    CallFits(e, ts, pos, d);
    ItemsComplete(e.args, e.trailing, ts, pos + Len(e.receiver) + 1, d, false);
    CallUnfold(e.receiver, ts, pos + Len(e.receiver), d);
  }

  lemma CallFits(e: Expr, ts: seq<Token>, pos: nat, d: int)
    requires e.Call? && Fits(e, ts, pos, d)
    ensures var p := pos + Len(e.receiver);
      && AllOk(e.args) && AllAt(e.args, e.trailing, ts, p + 1) && Is(ts, p, LParen)
      && Is(ts, p + 1 + LenAll(e.args, e.trailing), RParen) && p + 2 + LenAll(e.args, e.trailing) == pos + Len(e) <= |ts|
      && d + DepthAll(e.args) <= MAX_DEPTH && (e.args == [] ==> !e.trailing)
  {
  }

  lemma CallUnfold(lhs: Expr, ts: seq<Token>, pos: nat, d: int)
    requires pos < |ts| && Is(ts, pos, LParen)
    ensures var args := ParseItems(ts, pos + 1, d, false);
      PostfixOne(lhs, ts, pos, d) == if args.Fail? then Fail else Got(Call(lhs, args.value.items, args.value.trailing), args.pos)
  {
    hide ParseItems;
  }

  lemma RangeComplete(e: Expr, ts: seq<Token>, pos: nat, d: int)
    requires e.IndexRange? && Fits(e, ts, pos, d)
    ensures ParseIndex(e.receiver, ts, pos + Len(e.receiver) + 1, d) == Got(e, pos + Len(e))
    decreases e, 0, 0
  {
    hide *;
    RangeFits(e, ts, pos, d);
    var p := pos + Len(e.receiver);
    var q := p + 1 + LenOpt(e.low);
    OptUnfold(e.low, ts, p + 1);
    OptUnfold(e.high, ts, q + 1);
    if e.high.Some? {
      ItemComplete(e.high.value, ts, q + 1, d, RBracket);
    }
    HighUnfold(e.receiver, e.low, ts, q, d);
    assert ParseHigh(e.receiver, e.low, ts, q, d) == Got(e, pos + Len(e));
    if e.low.Some? {
      ItemComplete(e.low.value, ts, p + 1, d, if e.inclusive then DotDotEq else DotDot);
    }
    IndexUnfold(e.receiver, ts, p + 1, d);
  }

  lemma RangeFits(e: Expr, ts: seq<Token>, pos: nat, d: int)
    requires e.IndexRange? && Fits(e, ts, pos, d)
    ensures var p := pos + Len(e.receiver); var q := p + 1 + LenOpt(e.low); var end := q + 1 + LenOpt(e.high);
      && Is(ts, p, LBracket)
      && OptAt(e.low, ts, p + 1) && OptAt(e.high, ts, q + 1) && end + 1 == pos + Len(e) <= |ts|
      && d + DepthOpt(e.low) <= MAX_DEPTH && d + DepthOpt(e.high) <= MAX_DEPTH
      && (e.low.Some? ==> Ok(e.low.value)) && (e.high.Some? ==> Ok(e.high.value))
      && (e.inclusive <==> Is(ts, q, DotDotEq)) && (!e.inclusive <==> Is(ts, q, DotDot)) && Is(ts, end, RBracket)
  {
    hide *;
    RangeDefs(e, ts, pos, MAX_DEPTH - d);
    FitsUnfold(e, ts, pos, d);
    OnePunct(ts, pos + Len(e.receiver) + 1 + LenOpt(e.low), if e.inclusive then DotDotEq else DotDot);
  }

  lemma OptUnfold(o: Option<Expr>, ts: seq<Token>, pos: nat)
    ensures OptAt(o, ts, pos) <==> (o.Some? ==> At(o.value, ts, pos))
    ensures LenOpt(o) == (if o.Some? then Len(o.value) else 0)
    ensures DepthOpt(o) == (if o.Some? then 1 + Depth(o.value) else 0)
  {
  }

  lemma HighUnfold(lhs: Expr, low: Option<Expr>, ts: seq<Token>, pos: nat, d: int)
    requires pos < |ts|
    ensures var r := ParseHigh(lhs, low, ts, pos, d); var inc := Is(ts, pos, DotDotEq);
      if Is(ts, pos + 1, RBracket) then r == Got(IndexRange(lhs, low, None, inc), pos + 2)
      else
        var high := ParseExpr(ts, pos + 1, d);
        if high.Got? && Is(ts, high.pos, RBracket) then r == Got(IndexRange(lhs, low, Some(high.value), inc), high.pos + 1)
        else r == Fail
  {
  }

  lemma IndexUnfold(lhs: Expr, ts: seq<Token>, pos: nat, d: int)
    requires pos <= |ts|
    ensures var r := ParseIndex(lhs, ts, pos, d);
      if Is(ts, pos, DotDot) || Is(ts, pos, DotDotEq) then pos < |ts| && r == ParseHigh(lhs, None, ts, pos, d)
      else
        var first := ParseExpr(ts, pos, d);
        if first.Fail? then r == Fail
        else if Is(ts, first.pos, DotDot) || Is(ts, first.pos, DotDotEq) then
          first.pos < |ts| && r == ParseHigh(lhs, Some(first.value), ts, first.pos, d)
        else if Is(ts, first.pos, RBracket) then r == Got(Index(lhs, first.value), first.pos + 1)
        else r == Fail
  {
  }

  lemma {:induction false} ItemsComplete(es: seq<Expr>, trailing: bool, ts: seq<Token>, pos: nat, d: int, after: bool)
    requires AllOk(es) && AllAt(es, trailing, ts, pos)
    requires pos + LenAll(es, trailing) < |ts| && Is(ts, pos + LenAll(es, trailing), RParen)
    requires d + DepthAll(es) <= MAX_DEPTH && (es == [] ==> trailing == after)
    ensures ParseItems(ts, pos, d, after) == Got(Items(es, trailing), pos + LenAll(es, trailing) + 1)
    decreases es, 0
  {
    hide *;
    ItemsUnfold(ts, pos, d, after);
    if es == [] {
      AllNone(after, ts, pos);
    } else {
      var p := pos + Len(es[0]);
      assert [es[0]] + es[1..] == es;
      if |es| > 1 || trailing {
        AllCons(es[0], es[1..], trailing, ts, pos);
        ItemComplete(es[0], ts, pos, d, Comma);
        ItemsComplete(es[1..], trailing, ts, p + 1, d, true);
      } else {
        assert es == [es[0]];
        AllSingle(es[0], ts, pos);
        ItemComplete(es[0], ts, pos, d, RParen);
      }
    }
  }

  // An item followed by a comma or a closing token.
  lemma ItemComplete(e: Expr, ts: seq<Token>, pos: nat, d: int, next: Punct)
    requires Ok(e) && At(e, ts, pos) && pos + Len(e) < |ts| && d + 1 + Depth(e) <= MAX_DEPTH
    requires Is(ts, pos + Len(e), next) && next in {Comma, RParen, RBracket, DotDot, DotDotEq}
    ensures ParseExpr(ts, pos, d) == Got(e, pos + Len(e))
    ensures !Is(ts, pos, RParen) && !Is(ts, pos, RBracket) && !Is(ts, pos, DotDot) && !Is(ts, pos, DotDotEq)
    ensures next == Comma ==> !Is(ts, pos + Len(e), RParen)
    ensures next != Comma ==> !Is(ts, pos + Len(e), Comma)
    decreases e, 21
  {
    hide At, Len, Depth, Ok, ParseExpr;
    FirstToken(e, ts, pos);
    ExprComplete(e, ts, pos, d);
  }

  lemma PrimaryComplete(e: Expr, ts: seq<Token>, pos: nat, d: int)
    requires Prec(e) == PRIMARY && Fits(e, ts, pos, d) && !StructBody(ts, pos + Len(e))
    ensures ParsePrimary(ts, pos, d) == Got(e, pos + Len(e))
    decreases e, 0, 0
  {
    match e
    case Paren(x) => ParenComplete(e, ts, pos, d);
    case Tuple(args, tr) =>
      if args != [] {
        TupleComplete(args, tr, ts, pos, d);
      } else {
        TupleFits(args, tr, ts, pos, d);
        hide ParseExpr, ParseItems;
      }
    case _ => hide ParseExpr, ParseItems;
  }

  lemma ParenComplete(e: Expr, ts: seq<Token>, pos: nat, d: int)
    requires e.Paren? && Fits(e, ts, pos, d)
    ensures ParsePrimary(ts, pos, d) == Got(e, pos + Len(e))
    decreases e.inner, 22
  {
    hide *;
    ParenFits(e, ts, pos, d);
    ItemComplete(e.inner, ts, pos + 1, d, RParen);
    ParenUnfold(ts, pos, d);
  }

  lemma ParenFits(e: Expr, ts: seq<Token>, pos: nat, d: int)
    requires e.Paren? && Fits(e, ts, pos, d)
    ensures Ok(e.inner) && At(e.inner, ts, pos + 1) && Is(ts, pos, LParen) && Is(ts, pos + 1 + Len(e.inner), RParen)
    ensures Len(e) == 2 + Len(e.inner) && pos + Len(e) <= |ts| && d + 1 + Depth(e.inner) <= MAX_DEPTH
  {
  }

  lemma TupleComplete(args: seq<Expr>, tr: bool, ts: seq<Token>, pos: nat, d: int)
    requires args != [] && Fits(Tuple(args, tr), ts, pos, d)
    ensures ParsePrimary(ts, pos, d) == Got(Tuple(args, tr), pos + Len(Tuple(args, tr)))
    decreases args, 1
  {
    hide *;
    TupleFits(args, tr, ts, pos, d);
    assert [args[0]] + args[1..] == args;
    AllCons(args[0], args[1..], tr, ts, pos + 1);
    ItemComplete(args[0], ts, pos + 1, d, Comma);
    ItemsComplete(args[1..], tr, ts, pos + 2 + Len(args[0]), d, true);
    ParenUnfold(ts, pos, d);
  }

  lemma TupleFits(args: seq<Expr>, tr: bool, ts: seq<Token>, pos: nat, d: int)
    requires Fits(Tuple(args, tr), ts, pos, d)
    ensures AllOk(args) && AllAt(args, tr, ts, pos + 1) && Len(Tuple(args, tr)) == 2 + LenAll(args, tr)
    ensures d + DepthAll(args) <= MAX_DEPTH && (|args| == 1 ==> tr) && Is(ts, pos, LParen)
    ensures Is(ts, pos + 1 + LenAll(args, tr), RParen) && pos + 2 + LenAll(args, tr) <= |ts|
  {
  }

  // The parenthesised primaries.
  lemma ParenUnfold(ts: seq<Token>, pos: nat, d: int)
    requires pos < |ts| && Is(ts, pos, LParen)
    ensures var r := ParsePrimary(ts, pos, d);
      if Is(ts, pos + 1, RParen) then r == Got(Tuple([], false), pos + 2)
      else
        var first := ParseExpr(ts, pos + 1, d);
        if first.Fail? then r == Fail
        else if Is(ts, first.pos, RParen) then r == Got(Paren(first.value), first.pos + 1)
        else if Is(ts, first.pos, Comma) then
          var rest := ParseItems(ts, first.pos + 1, d, true);
          if rest.Fail? then r == Fail else r == Got(Tuple([first.value] + rest.value.items, rest.value.trailing), rest.pos)
        else r == Fail
  {
  }

  /******* Tokens as sequences *******/

  // The tokens s occur at position pos.
  predicate Here(ts: seq<Token>, pos: nat, s: seq<Token>) {
    pos + |s| <= |ts| && ts[pos..pos + |s|] == s
  }

  lemma HereJoin(ts: seq<Token>, pos: nat, a: seq<Token>, b: seq<Token>)
    ensures Here(ts, pos, a + b) <==> Here(ts, pos, a) && Here(ts, pos + |a|, b)
    ensures Here(ts, pos, a + b) ==> pos + |a + b| <= |ts|
  {
    if Here(ts, pos, a + b) {
      assert ts[pos..pos + |a|] == (a + b)[..|a|];
      assert ts[pos + |a|..pos + |a| + |b|] == (a + b)[|a|..];
    }
    if Here(ts, pos, a) && Here(ts, pos + |a|, b) {
      assert ts[pos..pos + |a + b|] == ts[pos..pos + |a|] + ts[pos + |a|..pos + |a| + |b|];
    }
  }

  lemma HereOne(ts: seq<Token>, pos: nat, t: Token)
    requires t != Eof
    ensures Here(ts, pos, [t]) <==> Cur(ts, pos) == t && pos < |ts|
  {
  }

  lemma HereEof(ts: seq<Token>, pos: nat)
    ensures Here(ts, pos, [Eof]) <==> pos < |ts| && ts[pos] == Eof
  {
  }

  lemma HereNone(ts: seq<Token>, pos: nat)
    ensures Here(ts, pos, []) <==> pos <= |ts|
  {
  }

  lemma {:induction false} SegmentsHere(segs: seq<string>, ts: seq<Token>, pos: nat)
    ensures |Segments(segs)| == 2 * |segs|
    ensures SegmentsAt(segs, ts, pos) && pos + 2 * |segs| <= |ts| <==> Here(ts, pos, Segments(segs))
  {
    if segs != [] {
      SegmentsHere(segs[1..], ts, pos + 2);
      HereOne(ts, pos, P(Dot));
      HereOne(ts, pos + 1, Word(segs[0]));
      HereJoin(ts, pos, [P(Dot)], [Word(segs[0])]);
      HereJoin(ts, pos, [P(Dot)] + [Word(segs[0])], Segments(segs[1..]));
      assert [P(Dot)] + [Word(segs[0])] == [P(Dot), Word(segs[0])];
    }
  }

  lemma SeparatorHere(n: nat, trailing: bool, ts: seq<Token>, pos: nat)
    ensures |Separator(n, trailing)| == SepLen(n, trailing)
    ensures (n > 1 || trailing ==> Is(ts, pos, Comma)) && pos + SepLen(n, trailing) <= |ts| <==> Here(ts, pos, Separator(n, trailing))
  {
    HereOne(ts, pos, P(Comma));
    HereNone(ts, pos);
  }

  lemma {:induction false} TypeHere(t: Type, ts: seq<Token>, pos: nat)
    ensures |FlatType(t)| == TypeLen(t)
    ensures TypeAt(t, ts, pos) && pos + TypeLen(t) <= |ts| <==> Here(ts, pos, FlatType(t))
    decreases t, 1
  {
    hide Here, Cur, Is;
    match t
    case PathType(first, segs, brackets, args, trailing) =>
      var p := pos + 1 + 2 * |segs|;
      var head := [Word(first)];
      SegmentsHere(segs, ts, pos + 1);
      HereOne(ts, pos, Word(first));
      HereJoin(ts, pos, head, Segments(segs));
      if brackets {
        var inner := FlatTypes(args, trailing);
        TypesHere(args, trailing, ts, p + 1);
        BracketHere(LBracket, inner, RBracket, ts, p);
        HereJoin(ts, pos, head + Segments(segs), [P(LBracket)] + inner + [P(RBracket)]);
      } else {
        HereNone(ts, p);
        assert FlatType(t) == head + Segments(segs);
      }
    case PtrType(x) =>
      TypeHere(x, ts, pos + 2);
      HereOne(ts, pos, Word("Ptr"));
      BracketHere(LBracket, FlatType(x), RBracket, ts, pos + 1);
      HereJoin(ts, pos, [Word("Ptr")], [P(LBracket)] + FlatType(x) + [P(RBracket)]);
      assert FlatType(t) == [Word("Ptr")] + ([P(LBracket)] + FlatType(x) + [P(RBracket)]);
    case NoType => HereEof(ts, pos);
  }

  // Tokens between an opening and a closing one.
  lemma BracketHere(open: Punct, s: seq<Token>, close: Punct, ts: seq<Token>, pos: nat)
    ensures Here(ts, pos, [P(open)] + s + [P(close)]) <==>
      Is(ts, pos, open) && Here(ts, pos + 1, s) && Is(ts, pos + 1 + |s|, close)
    ensures Here(ts, pos, [P(open)] + s + [P(close)]) ==> pos + |s| + 2 <= |ts|
  {
    HereJoin(ts, pos, [P(open)] + s, [P(close)]);
    HereJoin(ts, pos, [P(open)], s);
    HereOne(ts, pos, P(open));
    HereOne(ts, pos + 1 + |s|, P(close));
  }

  lemma {:induction false} TypesHere(xs: seq<Type>, trailing: bool, ts: seq<Token>, pos: nat)
    ensures |FlatTypes(xs, trailing)| == TypesLen(xs, trailing)
    ensures TypesAt(xs, trailing, ts, pos) && pos + TypesLen(xs, trailing) <= |ts| <==> Here(ts, pos, FlatTypes(xs, trailing))
    decreases xs, 0
  {
    hide *;
    HereNone(ts, pos);
    TypesListUnfold(xs, trailing, ts, pos);
    if xs != [] {
      var p := pos + TypeLen(xs[0]);
      TypeHere(xs[0], ts, pos);
      SeparatorHere(|xs|, trailing, ts, p);
      TypesHere(xs[1..], trailing, ts, p + SepLen(|xs|, trailing));
      HereThree(ts, pos, FlatType(xs[0]), Separator(|xs|, trailing), FlatTypes(xs[1..], trailing));
    }
  }

  lemma TypesListUnfold(xs: seq<Type>, trailing: bool, ts: seq<Token>, pos: nat)
    ensures if xs == [] then TypesAt(xs, trailing, ts, pos) && TypesLen(xs, trailing) == 0 && FlatTypes(xs, trailing) == []
      else
        var p := pos + TypeLen(xs[0]);
        && (TypesAt(xs, trailing, ts, pos) <==>
             TypeAt(xs[0], ts, pos) && (|xs| > 1 || trailing ==> Is(ts, p, Comma)) && TypesAt(xs[1..], trailing, ts, p + SepLen(|xs|, trailing)))
        && TypesLen(xs, trailing) == TypeLen(xs[0]) + SepLen(|xs|, trailing) + TypesLen(xs[1..], trailing)
        && FlatTypes(xs, trailing) == FlatType(xs[0]) + Separator(|xs|, trailing) + FlatTypes(xs[1..], trailing)
  {
  }

  // A tree stands at pos exactly when its flattening does.
  lemma {:induction false} ExprHere(e: Expr, ts: seq<Token>, pos: nat)
    ensures |Flat(e)| == Len(e)
    ensures At(e, ts, pos) && pos + Len(e) <= |ts| <==> Here(ts, pos, Flat(e))
    decreases e, 1
  {
    hide Here, Is, Cur, BinTok, UnTok, AssignTok;
    match e
    case Literal(k, t) => HereOne(ts, pos, Lit(k, t));
    case Path(n) => HereOne(ts, pos, Word(n));
    case Unary(op, x) =>
      ExprHere(x, ts, pos + 1);
      PunctHere(UnTok(op), ts, pos);
      HereJoin(ts, pos, [P(UnTok(op))], Flat(x));
    case Binary(op, l, r) => BinaryHere(e, BinTok(op), ts, pos);
    case Assign(op, l, r) => BinaryHere(e, AssignTok(op), ts, pos);
    case Cast(x, t) =>
      ExprHere(x, ts, pos);
      TypeHere(t, ts, pos + Len(x) + 1);
      InfixHere(Flat(x), As, FlatType(t), ts, pos);
    case Call(x, args, tr) => CallHere(e, ts, pos);
    case IndexRange(x, lo, hi, inc) => RangeHere(e, ts, pos);
    case Paren(x) =>
      ExprHere(x, ts, pos + 1);
      BracketHere(LParen, Flat(x), RParen, ts, pos);
    case Tuple(args, tr) => TupleHere(e, ts, pos);
    case Missing => HereEof(ts, pos);
    case _ => PostfixHere(e, ts, pos);
  }

  lemma BinaryHere(e: Expr, p: Punct, ts: seq<Token>, pos: nat)
    requires (e.Binary? && p == BinTok(e.op)) || (e.Assign? && p == AssignTok(e.asop))
    ensures |Flat(e)| == Len(e)
    ensures At(e, ts, pos) && pos + Len(e) <= |ts| <==> Here(ts, pos, Flat(e))
    decreases e, 0
  {
    hide Here, Is, Cur, BinTok, AssignTok;
    ExprHere(e.lhs, ts, pos);
    ExprHere(e.rhs, ts, pos + Len(e.lhs) + 1);
    InfixHere(Flat(e.lhs), p, Flat(e.rhs), ts, pos);
  }

  lemma PostfixHere(e: Expr, ts: seq<Token>, pos: nat)
    requires e.Field? || e.OptField? || e.Try? || e.Index?
    ensures |Flat(e)| == Len(e)
    ensures At(e, ts, pos) && pos + Len(e) <= |ts| <==> Here(ts, pos, Flat(e))
    decreases e, 0
  {
    hide Here, Is, Cur;
    ExprHere(e.receiver, ts, pos);
    var p := pos + Len(e.receiver);
    match e
    case Field(x, n) => SelectHere(Flat(x), Dot, n, ts, pos);
    case OptField(x, n) => SelectHere(Flat(x), QuestionDot, n, ts, pos);
    case Try(x) =>
      PunctHere(Question, ts, p);
      HereJoin(ts, pos, Flat(x), [P(Question)]);
    case Index(x, i) =>
      ExprHere(i, ts, p + 1);
      SuffixHere(Flat(x), LBracket, Flat(i), RBracket, ts, pos);
  }

  lemma CallHere(e: Expr, ts: seq<Token>, pos: nat)
    requires e.Call?
    ensures |Flat(e)| == Len(e)
    ensures At(e, ts, pos) && pos + Len(e) <= |ts| <==> Here(ts, pos, Flat(e))
    decreases e, 0
  {
    hide Here, Is, AllAt, LenAll, FlatAll;
    ExprHere(e.receiver, ts, pos);
    AllHere(e.args, e.trailing, ts, pos + Len(e.receiver) + 1);
    SuffixHere(Flat(e.receiver), LParen, FlatAll(e.args, e.trailing), RParen, ts, pos);
  }

  lemma TupleHere(e: Expr, ts: seq<Token>, pos: nat)
    requires e.Tuple?
    ensures |Flat(e)| == Len(e)
    ensures At(e, ts, pos) && pos + Len(e) <= |ts| <==> Here(ts, pos, Flat(e))
    decreases e, 0
  {
    hide Here, Is, AllAt, LenAll, FlatAll;
    AllHere(e.args, e.trailing, ts, pos + 1);
    BracketHere(LParen, FlatAll(e.args, e.trailing), RParen, ts, pos);
  }

  lemma RangeHere(e: Expr, ts: seq<Token>, pos: nat)
    requires e.IndexRange?
    ensures |Flat(e)| == Len(e)
    ensures At(e, ts, pos) && pos + Len(e) <= |ts| <==> Here(ts, pos, Flat(e))
    decreases e, 0
  {
    hide Here, Is, OptAt, LenOpt, FlatOpt;
    var p := pos + Len(e.receiver);
    var q := p + 1 + LenOpt(e.low);
    var dots := if e.inclusive then DotDotEq else DotDot;
    ExprHere(e.receiver, ts, pos);
    OptHere(e.low, ts, p + 1);
    OptHere(e.high, ts, q + 1);
    var front := Flat(e.receiver) + [P(LBracket)] + FlatOpt(e.low);
    InfixHere(Flat(e.receiver), LBracket, FlatOpt(e.low), ts, pos);
    SuffixHere(front, dots, FlatOpt(e.high), RBracket, ts, pos);
    assert Flat(e) == front + [P(dots)] + FlatOpt(e.high) + [P(RBracket)];
  }

  lemma OptHere(o: Option<Expr>, ts: seq<Token>, pos: nat)
    ensures |FlatOpt(o)| == LenOpt(o)
    ensures OptAt(o, ts, pos) && pos + LenOpt(o) <= |ts| <==> Here(ts, pos, FlatOpt(o))
    decreases o, 0
  {
    HereNone(ts, pos);
    if o.Some? {
      ExprHere(o.value, ts, pos);
    }
  }

  lemma {:induction false} AllHere(es: seq<Expr>, trailing: bool, ts: seq<Token>, pos: nat)
    ensures |FlatAll(es, trailing)| == LenAll(es, trailing)
    ensures AllAt(es, trailing, ts, pos) && pos + LenAll(es, trailing) <= |ts| <==> Here(ts, pos, FlatAll(es, trailing))
    decreases es, 0
  {
    hide *;
    HereNone(ts, pos);
    AllListUnfold(es, trailing, ts, pos);
    if es != [] {
      var p := pos + Len(es[0]);
      ExprHere(es[0], ts, pos);
      SeparatorHere(|es|, trailing, ts, p);
      AllHere(es[1..], trailing, ts, p + SepLen(|es|, trailing));
      HereThree(ts, pos, Flat(es[0]), Separator(|es|, trailing), FlatAll(es[1..], trailing));
    }
  }

  lemma AllListUnfold(es: seq<Expr>, trailing: bool, ts: seq<Token>, pos: nat)
    ensures if es == [] then AllAt(es, trailing, ts, pos) && LenAll(es, trailing) == 0 && FlatAll(es, trailing) == []
      else
        var p := pos + Len(es[0]);
        && (AllAt(es, trailing, ts, pos) <==>
             At(es[0], ts, pos) && (|es| > 1 || trailing ==> Is(ts, p, Comma)) && AllAt(es[1..], trailing, ts, p + SepLen(|es|, trailing)))
        && LenAll(es, trailing) == Len(es[0]) + SepLen(|es|, trailing) + LenAll(es[1..], trailing)
        && FlatAll(es, trailing) == Flat(es[0]) + Separator(|es|, trailing) + FlatAll(es[1..], trailing)
  {
  }

  lemma PunctHere(p: Punct, ts: seq<Token>, pos: nat)
    ensures Here(ts, pos, [P(p)]) <==> Is(ts, pos, p)
    ensures Is(ts, pos, p) ==> pos < |ts|
  {
    HereOne(ts, pos, P(p));
  }

  lemma HereThree(ts: seq<Token>, pos: nat, a: seq<Token>, b: seq<Token>, c: seq<Token>)
    ensures Here(ts, pos, a + b + c) <==> Here(ts, pos, a) && Here(ts, pos + |a|, b) && Here(ts, pos + |a| + |b|, c)
  {
    HereJoin(ts, pos, a + b, c);
    HereJoin(ts, pos, a, b);
  }

  lemma InfixHere(l: seq<Token>, p: Punct, r: seq<Token>, ts: seq<Token>, pos: nat)
    ensures Here(ts, pos, l + [P(p)] + r) <==> Here(ts, pos, l) && Is(ts, pos + |l|, p) && Here(ts, pos + |l| + 1, r)
    ensures Here(ts, pos, l + [P(p)] + r) ==> pos + |l| + 1 + |r| <= |ts|
  {
    HereThree(ts, pos, l, [P(p)], r);
    PunctHere(p, ts, pos + |l|);
  }

  lemma SelectHere(l: seq<Token>, p: Punct, n: string, ts: seq<Token>, pos: nat)
    ensures Here(ts, pos, l + [P(p), Word(n)]) <==>
      Here(ts, pos, l) && Is(ts, pos + |l|, p) && Cur(ts, pos + |l| + 1) == Word(n)
    ensures Here(ts, pos, l + [P(p), Word(n)]) ==> pos + |l| + 2 <= |ts|
  {
    InfixHere(l, p, [Word(n)], ts, pos);
    HereOne(ts, pos + |l| + 1, Word(n));
    assert l + [P(p)] + [Word(n)] == l + [P(p), Word(n)];
  }

  lemma SuffixHere(l: seq<Token>, open: Punct, s: seq<Token>, close: Punct, ts: seq<Token>, pos: nat)
    ensures Here(ts, pos, l + [P(open)] + s + [P(close)]) <==>
      && Here(ts, pos, l) && Is(ts, pos + |l|, open) && Here(ts, pos + |l| + 1, s)
      && Is(ts, pos + |l| + 1 + |s|, close)
    ensures Here(ts, pos, l + [P(open)] + s + [P(close)]) ==> pos + |l| + 2 + |s| <= |ts|
  {
    HereJoin(ts, pos, l + [P(open)] + s, [P(close)]);
    InfixHere(l, open, s, ts, pos);
    PunctHere(close, ts, pos + |l| + 1 + |s|);
  }

  /******* The theorems *******/

  // Every tree that respects precedence and associativity and fits the depth
  // limit is parsed back from its own tokens, wherever they stand, as long as
  // what follows does not continue the expression.
  lemma RoundTrip(e: Expr, before: seq<Token>, after: seq<Token>, d: int)
    requires Ok(e) && d + 1 + Depth(e) <= MAX_DEPTH
    requires Stops(ASSIGN, after, 0)
    ensures ParseExpr(before + Flat(e) + after, |before|, d) == Got(e, |before| + |Flat(e)|)
  {
    hide Flat, ParseExpr, Stops, Here, Ok, Depth, At, Len, Fits;
    var ts := before + Flat(e) + after;
    ExprHere(e, ts, |before|);
    HereMiddle(before, Flat(e), after);
    StopsShift(ASSIGN, before + Flat(e), after);
    FitsUnfold(e, ts, |before|, d + 1);
    ExprComplete(e, ts, |before|, d);
  }

  lemma HereMiddle(a: seq<Token>, s: seq<Token>, b: seq<Token>)
    ensures Here(a + s + b, |a|, s)
  {
  }

  lemma FitsUnfold(e: Expr, ts: seq<Token>, pos: nat, d: int)
    ensures Fits(e, ts, pos, d) <==> Ok(e) && At(e, ts, pos) && pos + Len(e) <= |ts| && d + Depth(e) <= MAX_DEPTH
  {
  }

  lemma StopsShift(level: nat, a: seq<Token>, b: seq<Token>)
    ensures Stops(level, a + b, |a|) <==> Stops(level, b, 0)
  {
    assert forall i: nat :: Cur(a + b, |a| + i) == Cur(b, i);
    assert Cur(a + b, |a| + 0) == Cur(b, 0) && Cur(a + b, |a| + 1) == Cur(b, 1) && Cur(a + b, |a| + 2) == Cur(b, 2);
  }

  // Whatever is parsed is such a tree, and its flattening is exactly the
  // tokens that were consumed.
  lemma ParseYieldsTree(ts: seq<Token>, pos: nat, d: int)
    requires pos <= |ts| && ParseExpr(ts, pos, d).Got?
    ensures var r := ParseExpr(ts, pos, d);
      Ok(r.value) && ts[pos..r.pos] == Flat(r.value) && d + 1 + Depth(r.value) <= MAX_DEPTH
  {
    var r := ParseExpr(ts, pos, d);
    hide *;
    ExprSound(ts, pos, d);
    ParsedUnfold(r.value, ts, pos, r.pos, d + 1);
    ExprHere(r.value, ts, pos);
    HereUnfold(ts, pos, Flat(r.value));
  }

  lemma HereUnfold(ts: seq<Token>, pos: nat, s: seq<Token>)
    ensures Here(ts, pos, s) <==> pos + |s| <= |ts| && ts[pos..pos + |s|] == s
  {
  }

  // The grammar is unambiguous: a token sequence has at most one well-formed
  // tree, whatever its depth.
  lemma Unambiguous(a: Expr, b: Expr)
    requires Ok(a) && Ok(b) && Flat(a) == Flat(b)
    ensures a == b
  {
    hide Parse, Flat, Depth, Ok;
    var d: int := 0 - Depth(a) - Depth(b);
    RoundTrip(a, [], [], d);
    RoundTrip(b, [], [], d);
  }
}
