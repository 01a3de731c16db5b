// The language of constant expressions and its reference semantics: plain
// recursive evaluation with no memo table. The two counters n and m bound the
// nesting of constants and calls and the turns of a loop; Limit says that a
// counter ran out, so a larger counter may still give an answer.
module Constants {
  import opened Integers
  import opened Literals

  datatype Value =
    | Invalid
    | IntV(ty: Ty, n: nat)
    | BoolV(b: bool)
    | CharV(cp: nat)
    | UnitV
    | TupleV(ty: Ty, elems: seq<Value>)

  datatype UnOp = Neg | Not | OtherUnary
  datatype Cmp = Eq | Ne | Lt | Le | Gt | Ge
  datatype BinOp = Arith(op: IntOp) | Compare(cmp: Cmp) | LogAnd | LogOr | OtherBinary

  // Other*: forms that are not constant expressions.
  datatype Expr =
    | IntLit(text: string, ty: Ty)
    | BoolLit(b: bool)
    | CharLit(text: string)
    | OtherLit
    | Path(segs: seq<string>, sym: nat, ty: Ty)
    | Unary(unop: UnOp, x: Expr)
    | Binary(op: BinOp, l: Expr, r: Expr)
    | Cast(x: Expr, ty: Ty)
    | Tuple(args: seq<Expr>, ty: Ty)
    | Field(x: Expr, index: Option<int>)
    | If(cond: Expr, yes: Block, els: Option<Expr>)
    | BlockExpr(block: Block)
    | Call(callee: Expr, args: seq<Expr>)
    | Match(scrutinee: Expr, arms: seq<Arm>)
    | Loop(body: Block)
    | While(cond: Expr, body: Block)
    | OtherExpr

  datatype Block = Block(stmts: seq<Stmt>, trailing: Option<Expr>)

  datatype Stmt =
    | Let(pat: Pattern, init: Option<Expr>)
    | Var(name: string, value: Expr)
    | Return(result: Option<Expr>)
    | Break(result: Option<Expr>)
    | Continue
    | ExprStmt(expr: Expr)
    | OtherStmt

  datatype Arm = Arm(pat: Pattern, guard: Option<Expr>, body: Block)

  // TuplePat has at least one sub-pattern.
  datatype Pattern =
    | Wild
    | Bind(name: string)
    | IntPat(text: string)
    | BoolPat(b: bool)
    | OtherLitPat
    | UnitPat(enumName: string, variant: string)
    | TuplePat(subs: seq<Pattern>)
    | OrPat(alts: seq<Pattern>)
    | RangePat(lo: Expr, hi: Expr, inclusive: bool)
    | OtherPat

  datatype Fn = Fn(isConst: bool, isExtern: bool, params: seq<string>, body: Option<Block>)
  datatype Enum = Enum(name: string, variants: seq<string>)

  // Declarations by symbol; symbol 0 names nothing.
  datatype Program = Program(
    consts: map<nat, Option<Expr>>, statics: map<nat, Option<Expr>>, fns: map<nat, Fn>, enums: seq<Enum>)

  // Bindings in scope. No constant expression assigns to a variable, so a
  // child scope is its parent's map with more bindings.
  type Env = map<string, Value>

  datatype Flow = Normal | Returns | Breaks | Continues | Error

  // Stuck: the evaluator reports a diagnostic.
  datatype Out = Out(v: Value, fl: Flow) | Stuck | Limit

  function Ok(v: Value): Out {
    Out(v, Normal)
  }

  /******* Strict operators *******/

  // The operands evaluated, left to right, before the operator is applied.
  function Operands(e: Expr): (es: seq<Expr>)
    ensures forall i :: 0 <= i < |es| ==> es[i] < e
  {
    match e
    case Unary(_, x) => [x]
    case Binary(_, l, r) => [l, r]
    case Cast(x, _) => [x]
    case Tuple(args, _) => args
    case Field(x, _) => [x]
    case Call(_, args) => args
    case _ => []
  }

  predicate Strict(e: Expr) {
    e.Unary? || (e.Binary? && !e.op.LogAnd? && !e.op.LogOr?) || e.Cast? || e.Tuple? || e.Field?
  }

  function ApplyUnary(op: UnOp, v: Value): Out {
    match op
    case Neg => if v.IntV? then Ok(IntV(v.ty, Negate(v.ty, v.n))) else Stuck
    case Not =>
      if v.BoolV? then Ok(BoolV(!v.b))
      else if v.IntV? && v.n < TWO64 then Ok(IntV(v.ty, Complement(v.ty, v.n)))
      else Stuck
    case OtherUnary => Stuck
  }

  predicate CompareInts(cmp: Cmp, a: int, b: int) {
    match cmp
    case Eq => a == b
    case Ne => a != b
    case Lt => a < b
    case Le => a <= b
    case Gt => a > b
    case Ge => a >= b
  }

  function ApplyCompare(cmp: Cmp, l: Value, r: Value): Out {
    match (l, r)
    case (IntV(t, a), IntV(u, b)) =>
      if IsSigned(t) then Ok(BoolV(CompareInts(cmp, SignedInt(t, a), SignedInt(u, b))))
      else Ok(BoolV(CompareInts(cmp, a, b)))
    case (BoolV(a), BoolV(b)) => Ok(BoolV(CompareInts(cmp, if a then 1 else 0, if b then 1 else 0)))
    case (CharV(a), CharV(b)) => Ok(BoolV(CompareInts(cmp, a, b)))
    case _ => Stuck
  }

  function ApplyBinary(op: BinOp, l: Value, r: Value): Out {
    match op
    case Compare(cmp) => ApplyCompare(cmp, l, r)
    case Arith(aop) =>
      if l.IntV? && r.IntV? && l.ty == r.ty then
        var n := Apply(aop, l.ty, l.n, r.n);
        if n.Some? then Ok(IntV(l.ty, n.value)) else Stuck
      else Stuck
    case _ => Stuck
  }

  function ApplyCast(v: Value, t: Ty): Out {
    if !IsInteger(t) && !t.CharTy? then Stuck
    else
      match v
      case BoolV(b) => Ok(IntV(t, if b then 1 else 0))
      case IntV(s, n) => Ok(IntV(t, Convert(s, t, n)))
      case CharV(cp) => Ok(IntV(t, Convert(CharTy, t, cp)))
      case _ => Stuck
  }

  function Compute(e: Expr, vs: seq<Value>): Out
    requires Strict(e) && |vs| == |Operands(e)|
  {
    match e
    case Unary(op, _) => ApplyUnary(op, vs[0])
    case Binary(op, _, _) => ApplyBinary(op, vs[0], vs[1])
    case Cast(_, t) => ApplyCast(vs[0], t)
    case Tuple(_, t) => Ok(TupleV(t, vs))
    case Field(_, i) =>
      if vs[0].TupleV? && i.Some? && 0 <= i.value < |vs[0].elems| then Ok(vs[0].elems[i.value]) else Stuck
  }

  /******* Names and patterns *******/

  function VariantIndex(variants: seq<string>, name: string): Option<nat> {
    if variants == [] then None
    else if variants[0] == name then Some(0)
    else
      var i := VariantIndex(variants[1..], name);
      if i.Some? then Some(i.value + 1) else None
  }

  // The first enum of that name that has the variant.
  function FindVariant(enums: seq<Enum>, name: string, variant: string): Option<nat> {
    if enums == [] then None
    else
      var i := if enums[0].name == name then VariantIndex(enums[0].variants, variant) else None;
      if i.Some? then i else FindVariant(enums[1..], name, variant)
  }

  // Binding a let pattern; None where the evaluator reports a diagnostic.
  function BindPattern(p: Pattern, v: Value, env: Env): Option<Env>
    decreases p, 1, 0
  {
    match p
    case Bind(x) => Some(env[x := v])
    case Wild => Some(env)
    case UnitPat(_, _) => Some(env)
    case TuplePat(subs) => if v.TupleV? && |v.elems| == |subs| then BindSubs(p, v, 0, env) else None
    case _ => None
  }

  function BindSubs(p: Pattern, v: Value, i: nat, env: Env): Option<Env>
    requires p.TuplePat? && v.TupleV? && |v.elems| == |p.subs| && i <= |p.subs|
    decreases p, 0, |p.subs| - i
  {
    if i == |p.subs| then Some(env)
    else
      var r := BindPattern(p.subs[i], v.elems[i], env);
      if r.Some? then BindSubs(p, v, i + 1, r.value) else None
  }

  function BindParams(params: seq<string>, vs: seq<Value>): Env
    requires |params| == |vs|
  {
    if params == [] then map[]
    else BindParams(params[..|params| - 1], vs[..|vs| - 1])[params[|params| - 1] := vs[|vs| - 1]]
  }

  // A pattern tried against a value: whether it matched, whether the trial
  // itself succeeded, and the bindings made on the way.
  datatype Trial = Trial(matched: bool, ok: bool, env: Env) | TrialStuck | TrialLimit

  datatype Vals = Vals(vs: seq<Value>) | Stop(o: Out)

  /******* Evaluation *******/

  function RefConst(p: Program, s: nat, n: nat, m: nat): Out
    requires s in p.consts
    decreases 2 * n + 1
  {
    if p.consts[s].None? then Stuck
    else
      var o := RefExpr(p, p.consts[s].value, map[], n, m);
      if !o.Out? then o
      else if o.fl != Normal then Stuck
      else if o.v.Invalid? then Out(Invalid, Error)
      else o
  }

  function RefStatic(p: Program, s: nat, n: nat, m: nat): Out
    requires s in p.statics
    decreases 2 * n + 1
  {
    if p.statics[s].None? then Out(Invalid, Error)
    else
      var o := RefExpr(p, p.statics[s].value, map[], n, m);
      if !o.Out? then o
      else if o.fl != Normal then Stuck
      else if o.v.Invalid? then Out(Invalid, Error)
      else o
  }

  function RefExpr(p: Program, e: Expr, env: Env, n: nat, m: nat): Out
    decreases 2 * n, e, 2, 0
  {
    if n == 0 then Limit
    else if Strict(e) then
      (match RefAll(p, e, 0, env, n, m)
       case Stop(o) => o
       case Vals(vs) => Compute(e, vs))
    else
      match e
      case IntLit(text, t) =>
        var u := ParseInteger(text);
        if u.Some? then Ok(IntV(t, Mask(u.value, Bits(t)))) else Stuck
      case BoolLit(b) => Ok(BoolV(b))
      case CharLit(text) =>
        var c := ParseChar(text);
        if c.Some? then Ok(CharV(c.value)) else Stuck
      case Path(segs, sym, t) =>
        if |segs| == 1 && segs[0] in env then Ok(env[segs[0]])
        else if sym != 0 && sym in p.consts then RefConst(p, sym, n - 1, m)
        else if sym != 0 && sym in p.statics then RefStatic(p, sym, n - 1, m)
        else if |segs| == 2 then
          var i := FindVariant(p.enums, segs[0], segs[1]);
          if i.Some? then Ok(IntV(t, i.value)) else Stuck
        else Stuck
      case Binary(_, _, _) => RefLogical(p, e, env, n, m)
      case If(c, b, els) =>
        var o := RefExpr(p, c, env, n, m);
        if !o.Out? || o.fl != Normal then o
        else if !o.v.BoolV? then Stuck
        else if o.v.b then RefBlock(p, b, 0, env, n, m)
        else if els.Some? then RefExpr(p, els.value, env, n, m)
        else Ok(UnitV)
      case BlockExpr(b) => RefBlock(p, b, 0, env, n, m)
      case Call(_, _) => RefCall(p, e, env, n, m)
      case Match(s, _) =>
        var o := RefExpr(p, s, env, n, m);
        if !o.Out? || o.fl != Normal then o else RefArms(p, e, o.v, 0, env, n, m)
      case Loop(_) => RefLoop(p, e, m, env, n, m)
      case While(_, _) => RefWhile(p, e, m, env, n, m)
      case _ => Stuck
  }

  // The operands of e from the i-th on.
  function RefAll(p: Program, e: Expr, i: nat, env: Env, n: nat, m: nat): (r: Vals)
    requires i <= |Operands(e)|
    ensures r.Vals? ==> |r.vs| == |Operands(e)| - i
    ensures r.Stop? ==> r.o.Out? ==> r.o.fl != Normal
    decreases 2 * n, e, 1, |Operands(e)| - i
  {
    if i == |Operands(e)| then Vals([])
    else
      var o := RefExpr(p, Operands(e)[i], env, n, m);
      if !o.Out? || o.fl != Normal then Stop(o)
      else
        match RefAll(p, e, i + 1, env, n, m)
        case Stop(o2) => Stop(o2)
        case Vals(vs) => Vals([o.v] + vs)
  }

  // `&&` and `||` evaluate the right operand only when they need it.
  function RefLogical(p: Program, e: Expr, env: Env, n: nat, m: nat): Out
    requires e.Binary? && (e.op.LogAnd? || e.op.LogOr?)
    decreases 2 * n, e, 1, 0
  {
    var o := RefExpr(p, e.l, env, n, m);
    if !o.Out? || o.fl != Normal then o
    else if !o.v.BoolV? then Stuck
    else if o.v.b == e.op.LogOr? then Ok(BoolV(o.v.b))
    else
      var q := RefExpr(p, e.r, env, n, m);
      if !q.Out? || q.fl != Normal then q
      else if q.v.BoolV? then Ok(BoolV(q.v.b))
      else Stuck
  }

  predicate Callable(p: Program, e: Expr)
    requires e.Call?
  {
    && e.callee.Path? && e.callee.sym in p.fns
    && var f := p.fns[e.callee.sym]; f.isConst && !f.isExtern && |f.params| == |e.args|
  }

  function RefCall(p: Program, e: Expr, env: Env, n: nat, m: nat): Out
    requires e.Call? && n > 0
    decreases 2 * n, e, 1, |e.args| + 1
  {
    if !Callable(p, e) then Stuck
    else
      var f := p.fns[e.callee.sym];
      match RefAll(p, e, 0, env, n, m)
      case Stop(o) => o
      case Vals(vs) =>
        if f.body.None? then Stuck
        else
          var o := RefBlock(p, f.body.value, 0, BindParams(f.params, vs), n - 1, m);
          if o.Out? && o.fl != Error then Ok(o.v) else o
  }

  // The statements of b from the i-th on, then its trailing expression.
  function RefBlock(p: Program, b: Block, i: nat, env: Env, n: nat, m: nat): Out
    requires i <= |b.stmts|
    decreases 2 * n, b, 1, |b.stmts| - i
  {
    if i == |b.stmts| then
      if b.trailing.Some? then RefExpr(p, b.trailing.value, env, n, m) else Ok(UnitV)
    else
      match b.stmts[i]
      case Let(pat, init) =>
        if init.None? then RefBlock(p, b, i + 1, env, n, m)
        else
          var o := RefExpr(p, init.value, env, n, m);
          if !o.Out? || o.fl != Normal then o
          else
            var env2 := BindPattern(pat, o.v, env);
            if env2.Some? then RefBlock(p, b, i + 1, env2.value, n, m) else Stuck
      case Var(x, value) =>
        var o := RefExpr(p, value, env, n, m);
        if !o.Out? || o.fl != Normal then o else RefBlock(p, b, i + 1, env[x := o.v], n, m)
      case Return(result) => RefLeave(p, result, Returns, env, n, m)
      case Break(result) => RefLeave(p, result, Breaks, env, n, m)
      case Continue => Out(UnitV, Continues)
      case ExprStmt(x) =>
        var o := RefExpr(p, x, env, n, m);
        if !o.Out? || o.fl != Normal then o else RefBlock(p, b, i + 1, env, n, m)
      case OtherStmt => Stuck
  }

  function RefLeave(p: Program, result: Option<Expr>, fl: Flow, env: Env, n: nat, m: nat): Out
    decreases 2 * n, result, 3, 0
  {
    if result.None? then Out(UnitV, fl)
    else
      var o := RefExpr(p, result.value, env, n, m);
      if o.Out? && o.fl != Error then Out(o.v, fl) else o
  }

  function RefArms(p: Program, e: Expr, v: Value, i: nat, env: Env, n: nat, m: nat): Out
    requires e.Match? && i <= |e.arms|
    decreases 2 * n, e, 1, |e.arms| - i
  {
    if i == |e.arms| then Stuck
    else
      var arm := e.arms[i];
      match RefMatch(p, arm.pat, v, env, n, m)
      case TrialLimit => Limit
      case TrialStuck => Stuck
      case Trial(matched, ok, env2) =>
        if !ok then Out(Invalid, Error)
        else if !matched then RefArms(p, e, v, i + 1, env, n, m)
        else if arm.guard.None? then RefBlock(p, arm.body, 0, env2, n, m)
        else
          var g := RefExpr(p, arm.guard.value, env2, n, m);
          if !g.Out? || g.fl != Normal then g
          else if g.v == BoolV(true) then RefBlock(p, arm.body, 0, env2, n, m)
          else RefArms(p, e, v, i + 1, env, n, m)
  }

  function RefMatch(p: Program, pat: Pattern, v: Value, env: Env, n: nat, m: nat): Trial
    decreases 2 * n, pat, 2, 0
  {
    match pat
    case Wild => Trial(true, true, env)
    case Bind(x) => Trial(true, true, env[x := v])
    case IntPat(text) =>
      if !v.IntV? then Trial(false, true, env)
      else
        var u := ParseInteger(text);
        if u.Some? then Trial(Mask(u.value, Bits(v.ty)) == v.n, true, env) else TrialStuck
    case BoolPat(b) => Trial(v.BoolV? && v.b == b, true, env)
    case OtherLitPat => Trial(false, true, env)
    case UnitPat(en, va) => Trial(v.IntV? && FindVariant(p.enums, en, va) == Some(v.n), true, env)
    case TuplePat(subs) =>
      if v.TupleV? && |v.elems| == |subs| then RefSubs(p, pat, v, 0, env, n, m) else Trial(false, true, env)
    case OrPat(_) => RefAlts(p, pat, v, 0, env, n, m)
    case RangePat(lo, hi, inclusive) =>
      var l := RefExpr(p, lo, env, n, m);
      if l.Limit? then TrialLimit
      else if l.Stuck? then TrialStuck
      else if l.fl != Normal then Trial(false, false, env)
      else
        var h := RefExpr(p, hi, env, n, m);
        if h.Limit? then TrialLimit
        else if h.Stuck? then TrialStuck
        else if h.fl != Normal then Trial(false, false, env)
        else Trial(v.IntV? && l.v.IntV? && h.v.IntV? && l.v.n <= v.n && (if inclusive then v.n <= h.v.n else v.n < h.v.n), true, env)
    case OtherPat => TrialStuck
  }

  // Inside a tuple pattern a trial that fails counts as no match.
  function RefSubs(p: Program, pat: Pattern, v: Value, i: nat, env: Env, n: nat, m: nat): Trial
    requires pat.TuplePat? && v.TupleV? && |v.elems| == |pat.subs| && i <= |pat.subs|
    decreases 2 * n, pat, 1, |pat.subs| - i
  {
    if i == |pat.subs| then Trial(true, true, env)
    else
      match RefMatch(p, pat.subs[i], v.elems[i], env, n, m)
      case Trial(matched, ok, env2) =>
        if ok && matched then RefSubs(p, pat, v, i + 1, env2, n, m) else Trial(false, true, env2)
      case other => other
  }

  // Bindings made by an alternative that failed stay in scope.
  function RefAlts(p: Program, pat: Pattern, v: Value, i: nat, env: Env, n: nat, m: nat): Trial
    requires pat.OrPat? && i <= |pat.alts|
    decreases 2 * n, pat, 1, |pat.alts| - i
  {
    if i == |pat.alts| then Trial(false, true, env)
    else
      match RefMatch(p, pat.alts[i], v, env, n, m)
      case Trial(matched, ok, env2) =>
        if !ok then Trial(false, false, env2)
        else if matched then Trial(true, true, env2)
        else RefAlts(p, pat, v, i + 1, env2, n, m)
      case other => other
  }

  // At most i more turns.
  function RefLoop(p: Program, e: Expr, i: nat, env: Env, n: nat, m: nat): Out
    requires e.Loop?
    decreases 2 * n, e, 1, i
  {
    if i == 0 then Limit
    else
      var o := RefBlock(p, e.body, 0, env, n, m);
      if !o.Out? then o
      else
        match o.fl
        case Normal => RefLoop(p, e, i - 1, env, n, m)
        case Continues => RefLoop(p, e, i - 1, env, n, m)
        case Breaks => Ok(o.v)
        case _ => o
  }

  function RefWhile(p: Program, e: Expr, i: nat, env: Env, n: nat, m: nat): Out
    requires e.While?
    decreases 2 * n, e, 1, i
  {
    if i == 0 then Limit
    else
      var c := RefExpr(p, e.cond, env, n, m);
      if !c.Out? || c.fl != Normal then c
      else if !c.v.BoolV? then Stuck
      else if !c.v.b then Ok(UnitV)
      else
        var o := RefBlock(p, e.body, 0, env, n, m);
        if !o.Out? then o
        else
          match o.fl
          case Normal => RefWhile(p, e, i - 1, env, n, m)
          case Continues => RefWhile(p, e, i - 1, env, n, m)
          case Breaks => Ok(o.v)
          case _ => o
  }

  /******* Conditions on the paths of an expression *******/

  predicate AllPaths(f: Expr -> bool, e: Expr)
    decreases e
  {
    match e
    case Path(_, _, _) => f(e)
    case Unary(_, x) => AllPaths(f, x)
    case Binary(_, l, r) => AllPaths(f, l) && AllPaths(f, r)
    case Cast(x, _) => AllPaths(f, x)
    case Tuple(args, _) => forall i :: 0 <= i < |args| ==> AllPaths(f, args[i])
    case Field(x, _) => AllPaths(f, x)
    case If(c, b, els) => AllPaths(f, c) && BlockPaths(f, b) && (els.Some? ==> AllPaths(f, els.value))
    case BlockExpr(b) => BlockPaths(f, b)
    case Call(_, args) => forall i :: 0 <= i < |args| ==> AllPaths(f, args[i])
    case Match(s, arms) => AllPaths(f, s) && forall i :: 0 <= i < |arms| ==> ArmPaths(f, arms[i])
    case Loop(b) => BlockPaths(f, b)
    case While(c, b) => AllPaths(f, c) && BlockPaths(f, b)
    case _ => true
  }

  predicate BlockPaths(f: Expr -> bool, b: Block)
    decreases b
  {
    (forall i :: 0 <= i < |b.stmts| ==> StmtPaths(f, b.stmts[i])) && (b.trailing.Some? ==> AllPaths(f, b.trailing.value))
  }

  predicate StmtPaths(f: Expr -> bool, s: Stmt)
    decreases s
  {
    match s
    case Let(_, init) => init.Some? ==> AllPaths(f, init.value)
    case Var(_, value) => AllPaths(f, value)
    case Return(r) => r.Some? ==> AllPaths(f, r.value)
    case Break(r) => r.Some? ==> AllPaths(f, r.value)
    case ExprStmt(x) => AllPaths(f, x)
    case _ => true
  }

  predicate ArmPaths(f: Expr -> bool, a: Arm)
    decreases a
  {
    PatternPaths(f, a.pat) && (a.guard.Some? ==> AllPaths(f, a.guard.value)) && BlockPaths(f, a.body)
  }

  predicate PatternPaths(f: Expr -> bool, p: Pattern)
    decreases p
  {
    match p
    case TuplePat(subs) => forall i :: 0 <= i < |subs| ==> PatternPaths(f, subs[i])
    case OrPat(alts) => forall i :: 0 <= i < |alts| ==> PatternPaths(f, alts[i])
    case RangePat(lo, hi, _) => AllPaths(f, lo) && AllPaths(f, hi)
    case _ => true
  }
}
