// Tokens and expression trees of the operator fragment of the grammar, and
// the flattening of a tree back to its tokens.
module Syntax {
  datatype Option<+T> = None | Some(value: T)

  datatype Punct =
    | LParen | RParen | LBracket | RBracket | LBrace | RBrace | Comma | Colon
    | Dot | DotDot | DotDotEq | Question | QuestionDot | As
    | Bang | Plus | Minus | Star | Slash | Percent | Shl | Shr | Amp | Caret | Pipe | AmpAmp | PipePipe
    | EqEq | BangEq | Lt | Le | Gt | Ge
    | Eq | PlusEq | MinusEq | StarEq | SlashEq | PercentEq | AmpEq | PipeEq | CaretEq | ShlEq | ShrEq

  datatype LitKind = LitInt | LitFloat | LitString | LitRawString | LitCString | LitChar | LitTrue | LitFalse | LitNone

  // Word: an identifier, or one of the words `self`, `Self` and `Some`, which
  // also start a path. Other: any token the fragment does not use.
  datatype Token = Word(text: string) | Lit(kind: LitKind, text: string) | P(p: Punct) | Other(text: string) | Eof

  predicate IsIdent(t: Token) {
    t.Word? && t.text != "self" && t.text != "Self" && t.text != "Some"
  }

  datatype BinOp =
    | Mul | Div | Mod | Add | Sub | ShiftL | ShiftR | BitAnd | BitXor | BitOr
    | EqualTo | NotEqual | Less | LessEq | Greater | GreaterEq | LogAnd | LogOr

  datatype UnOp = Not | Neg | Deref | Addr

  datatype AssignOp = Set | AddSet | SubSet | MulSet | DivSet | ModSet | AndSet | OrSet | XorSet | ShlSet | ShrSet

  // Path and pointer types. NoType stands where no type could be parsed. `brackets`: generic brackets were written;
  // `trailing`: their list ended in a comma.
  datatype Type =
    | PathType(first: string, segs: seq<string>, brackets: bool, args: seq<Type>, trailing: bool)
    | PtrType(pointee: Type)
    | NoType

  // The parser's trees. `trailing` records a comma before the closing
  // parenthesis; the compiler's own tree does not keep it.
  // Missing is the nil left where no expression could be parsed.
  datatype Expr =
    | Literal(kind: LitKind, text: string)
    | Path(name: string)
    | Unary(unop: UnOp, operand: Expr)
    | Binary(op: BinOp, lhs: Expr, rhs: Expr)
    | Assign(asop: AssignOp, lhs: Expr, rhs: Expr)
    | Cast(inner: Expr, ty: Type)
    | Field(receiver: Expr, name: string)
    | OptField(receiver: Expr, name: string)
    | Try(receiver: Expr)
    | Call(receiver: Expr, args: seq<Expr>, trailing: bool)
    | Index(receiver: Expr, index: Expr)
    | IndexRange(receiver: Expr, low: Option<Expr>, high: Option<Expr>, inclusive: bool)
    | Paren(inner: Expr)
    | Tuple(args: seq<Expr>, trailing: bool)
    | Missing

  /******* Operator tables *******/

  const ASSIGN := 0
  const CAST := 10
  const UNARY := 11
  const POSTFIX := 12
  const PRIMARY := 13

  // Binary operators bind at levels 1 (loosest) to 9 (tightest).
  function Level(op: BinOp): (l: nat)
    ensures 1 <= l <= 9
  {
    match op
    case LogOr => 1
    case LogAnd => 2
    case EqualTo | NotEqual | Less | LessEq | Greater | GreaterEq => 3
    case BitOr => 4
    case BitXor => 5
    case BitAnd => 6
    case ShiftL | ShiftR => 7
    case Add | Sub => 8
    case Mul | Div | Mod => 9
  }

  function BinTok(op: BinOp): Punct {
    match op
    case LogOr => PipePipe
    case LogAnd => AmpAmp
    case EqualTo => EqEq
    case NotEqual => BangEq
    case Less => Lt
    case LessEq => Le
    case Greater => Gt
    case GreaterEq => Ge
    case BitOr => Pipe
    case BitXor => Caret
    case BitAnd => Amp
    case ShiftL => Shl
    case ShiftR => Shr
    case Add => Plus
    case Sub => Minus
    case Mul => Star
    case Div => Slash
    case Mod => Percent
  }

  // The binary operator a token is, if any. No token is two operators.
  function BinOpOf(t: Token): (r: Option<BinOp>)
    ensures r.Some? ==> t == P(BinTok(r.value))
  {
    match t
    case P(PipePipe) => Some(LogOr)
    case P(AmpAmp) => Some(LogAnd)
    case P(EqEq) => Some(EqualTo)
    case P(BangEq) => Some(NotEqual)
    case P(Lt) => Some(Less)
    case P(Le) => Some(LessEq)
    case P(Gt) => Some(Greater)
    case P(Ge) => Some(GreaterEq)
    case P(Pipe) => Some(BitOr)
    case P(Caret) => Some(BitXor)
    case P(Amp) => Some(BitAnd)
    case P(Shl) => Some(ShiftL)
    case P(Shr) => Some(ShiftR)
    case P(Plus) => Some(Add)
    case P(Minus) => Some(Sub)
    case P(Star) => Some(Mul)
    case P(Slash) => Some(Div)
    case P(Percent) => Some(Mod)
    case _ => None
  }

  lemma BinOpRoundTrip(op: BinOp)
    ensures BinOpOf(P(BinTok(op))) == Some(op)
  {
  }

  function UnTok(op: UnOp): Punct {
    match op case Not => Bang case Neg => Minus case Deref => Star case Addr => Amp
  }

  function UnOpOf(t: Token): Option<UnOp> {
    match t
    case P(Bang) => Some(Not)
    case P(Minus) => Some(Neg)
    case P(Star) => Some(Deref)
    case P(Amp) => Some(Addr)
    case _ => None
  }

  function AssignTok(op: AssignOp): Punct {
    match op
    case Set => Eq
    case AddSet => PlusEq
    case SubSet => MinusEq
    case MulSet => StarEq
    case DivSet => SlashEq
    case ModSet => PercentEq
    case AndSet => AmpEq
    case OrSet => PipeEq
    case XorSet => CaretEq
    case ShlSet => ShlEq
    case ShrSet => ShrEq
  }

  function AssignOpOf(t: Token): Option<AssignOp> {
    match t
    case P(Eq) => Some(Set)
    case P(PlusEq) => Some(AddSet)
    case P(MinusEq) => Some(SubSet)
    case P(StarEq) => Some(MulSet)
    case P(SlashEq) => Some(DivSet)
    case P(PercentEq) => Some(ModSet)
    case P(AmpEq) => Some(AndSet)
    case P(PipeEq) => Some(OrSet)
    case P(CaretEq) => Some(XorSet)
    case P(ShlEq) => Some(ShlSet)
    case P(ShrEq) => Some(ShrSet)
    case _ => None
  }

  /******* Precedence *******/

  function Prec(e: Expr): (l: nat)
    ensures l <= PRIMARY
  {
    match e
    case Assign(_, _, _) => ASSIGN
    case Binary(op, _, _) => Level(op)
    case Cast(_, _) => CAST
    case Unary(_, _) => UNARY
    case Literal(_, _) | Path(_) | Paren(_) | Tuple(_, _) | Missing => PRIMARY
    case _ => POSTFIX
  }

  predicate TypeOk(t: Type) {
    match t
    case PathType(first, segs, brackets, args, trailing) =>
      && (first == "Self" || IsIdent(Word(first)))
      && first != "dyn"
      && (forall i :: 0 <= i < |segs| ==> IsIdent(Word(segs[i])))
      && (!brackets ==> args == []) && (args == [] ==> !trailing)
      && (first == "Ptr" && segs == [] ==> !brackets)
      && forall i :: 0 <= i < |args| ==> TypeOk(args[i])
    case PtrType(x) => TypeOk(x)
    case NoType => false
  }

  // The tree respects precedence and associativity: operands of a binary
  // operator bind at least as tightly on the left and more tightly on the
  // right, assignment groups to the right, and so on.
  predicate Ok(e: Expr)
    decreases e
  {
    match e
    case Literal(_, _) => true
    case Path(_) => true
    case Unary(_, x) => Prec(x) >= UNARY && Ok(x)
    case Binary(op, l, r) => Prec(l) >= Level(op) && Prec(r) > Level(op) && Ok(l) && Ok(r)
    case Assign(_, l, r) => Prec(l) > ASSIGN && Ok(l) && Ok(r)
    case Cast(x, t) => Prec(x) >= CAST && Ok(x) && TypeOk(t)
    case Field(x, n) => Prec(x) >= POSTFIX && Ok(x) && IsIdent(Word(n))
    case OptField(x, n) => Prec(x) >= POSTFIX && Ok(x) && IsIdent(Word(n))
    case Try(x) => Prec(x) >= POSTFIX && Ok(x)
    case Call(x, args, tr) => Prec(x) >= POSTFIX && Ok(x) && (tr ==> args != []) && AllOk(args)
    case Index(x, i) => Prec(x) >= POSTFIX && Ok(x) && Ok(i)
    case IndexRange(x, lo, hi, _) =>
      Prec(x) >= POSTFIX && Ok(x) && (lo.Some? ==> Ok(lo.value)) && (hi.Some? ==> Ok(hi.value))
    case Paren(x) => Ok(x)
    case Tuple(args, tr) => (|args| == 0 ==> !tr) && (|args| == 1 ==> tr) && AllOk(args)
    case Missing => false
  }

  predicate AllOk(es: seq<Expr>)
    decreases es
  {
    forall i :: 0 <= i < |es| ==> Ok(es[i])
  }

  /******* Flattening *******/

  function Segments(segs: seq<string>): seq<Token> {
    if segs == [] then [] else [P(Dot), Word(segs[0])] + Segments(segs[1..])
  }

  function FlatType(t: Type): (ts: seq<Token>)
    ensures ts != []
    decreases t, 1
  {
    match t
    case PathType(first, segs, brackets, args, trailing) =>
      [Word(first)] + Segments(segs) +
      (if brackets then [P(LBracket)] + FlatTypes(args, trailing) + [P(RBracket)] else [])
    case PtrType(x) => [Word("Ptr"), P(LBracket)] + FlatType(x) + [P(RBracket)]
    case NoType => [Eof]
  }

  // Items separated by commas, with one more comma at the end if `trailing`.
  function FlatTypes(ts: seq<Type>, trailing: bool): seq<Token>
    decreases ts, 0
  {
    if ts == [] then []
    else FlatType(ts[0]) + Separator(|ts|, trailing) + FlatTypes(ts[1..], trailing)
  }

  // The comma after an item of which n are left, itself included.
  function Separator(n: nat, trailing: bool): seq<Token> {
    if n > 1 || trailing then [P(Comma)] else []
  }

  function Flat(e: Expr): (ts: seq<Token>)
    ensures ts != []
    decreases e, 1
  {
    match e
    case Literal(k, t) => [Lit(k, t)]
    case Path(n) => [Word(n)]
    case Unary(op, x) => [P(UnTok(op))] + Flat(x)
    case Binary(op, l, r) => Flat(l) + [P(BinTok(op))] + Flat(r)
    case Assign(op, l, r) => Flat(l) + [P(AssignTok(op))] + Flat(r)
    case Cast(x, t) => Flat(x) + [P(As)] + FlatType(t)
    case Field(x, n) => Flat(x) + [P(Dot), Word(n)]
    case OptField(x, n) => Flat(x) + [P(QuestionDot), Word(n)]
    case Try(x) => Flat(x) + [P(Question)]
    case Call(x, args, tr) => Flat(x) + [P(LParen)] + FlatAll(args, tr) + [P(RParen)]
    case Index(x, i) => Flat(x) + [P(LBracket)] + Flat(i) + [P(RBracket)]
    case IndexRange(x, lo, hi, inc) =>
      Flat(x) + [P(LBracket)] + FlatOpt(lo) + [P(if inc then DotDotEq else DotDot)] + FlatOpt(hi) + [P(RBracket)]
    case Paren(x) => [P(LParen)] + Flat(x) + [P(RParen)]
    case Tuple(args, tr) => [P(LParen)] + FlatAll(args, tr) + [P(RParen)]
    case Missing => [Eof]
  }

  function FlatOpt(o: Option<Expr>): seq<Token>
    decreases o, 0
  {
    if o.Some? then Flat(o.value) else []
  }

  function FlatAll(es: seq<Expr>, trailing: bool): seq<Token>
    decreases es, 0
  {
    if es == [] then []
    else Flat(es[0]) + Separator(|es|, trailing) + FlatAll(es[1..], trailing)
  }

  /******* Nesting depth *******/

  function Max(a: nat, b: nat): nat {
    if a > b then a else b
  }

  // How many nested parseType calls a type needs, its own included.
  function TypeDepth(t: Type): nat
    decreases t, 1
  {
    match t
    case PathType(_, _, _, args, _) => 1 + TypesDepth(args)
    case PtrType(x) => 1 + TypeDepth(x)
    case NoType => 1
  }

  function TypesDepth(ts: seq<Type>): nat
    decreases ts, 0
  {
    if ts == [] then 0 else Max(TypeDepth(ts[0]), TypesDepth(ts[1..]))
  }

  // How many parseExpr or parseType calls are nested inside the one parsing e.
  function Depth(e: Expr): nat
    decreases e, 1
  {
    match e
    case Literal(_, _) => 0
    case Path(_) => 0
    case Unary(_, x) => Depth(x)
    case Binary(_, l, r) => Max(Depth(l), Depth(r))
    case Assign(_, l, r) => Max(Depth(l), Depth(r))
    case Cast(x, t) => Max(Depth(x), TypeDepth(t))
    case Field(x, _) => Depth(x)
    case OptField(x, _) => Depth(x)
    case Try(x) => Depth(x)
    case Call(x, args, _) => Max(Depth(x), DepthAll(args))
    case Index(x, i) => Max(Depth(x), 1 + Depth(i))
    case IndexRange(x, lo, hi, _) => Max(Depth(x), Max(DepthOpt(lo), DepthOpt(hi)))
    case Paren(x) => 1 + Depth(x)
    case Tuple(args, _) => DepthAll(args)
    case Missing => 0
  }

  function DepthOpt(o: Option<Expr>): nat
    decreases o, 0
  {
    if o.Some? then 1 + Depth(o.value) else 0
  }

  function DepthAll(es: seq<Expr>): nat
    decreases es, 0
  {
    if es == [] then 0 else Max(1 + Depth(es[0]), DepthAll(es[1..]))
  }
}
