// Replacing the paths that name evaluated constants by literals, and when that
// keeps the meaning of an expression.
module Substitution {
  import opened Integers
  import opened Literals
  import opened Constants
  import opened ConstantMeaning
  import opened ConstantValues
  import opened Evaluator

  /******* The rewriting *******/

  function ValueOf(res: Result, sym: nat): Option<Value> {
    if sym in res.consts then Some(res.consts[sym])
    else if sym in res.statics then Some(res.statics[sym])
    else None
  }

  // A literal of the path's own type; characters become integer literals.
  function ToLiteral(v: Value, t: Ty): Option<Expr> {
    match v
    case IntV(_, n) => Some(IntLit(Decimal(n), t))
    case BoolV(b) => Some(BoolLit(b))
    case CharV(cp) => Some(IntLit(Decimal(cp), t))
    case _ => None
  }

  function Replacement(res: Result, e: Expr): Option<Expr>
    requires e.Path?
  {
    if e.sym == 0 || ValueOf(res, e.sym).None? then None else ToLiteral(ValueOf(res, e.sym).value, e.ty)
  }

  function Replace(res: Result, e: Expr): Expr
    decreases e
  {
    match e
    case Path(_, _, _) => if Replacement(res, e).Some? then Replacement(res, e).value else e
    case Unary(op, x) => Unary(op, Replace(res, x))
    case Binary(op, l, r) => Binary(op, Replace(res, l), Replace(res, r))
    case Cast(x, t) => Cast(Replace(res, x), t)
    case Tuple(args, t) => Tuple(seq(|args|, i requires 0 <= i < |args| => Replace(res, args[i])), t)
    case Field(x, i) => Field(Replace(res, x), i)
    case If(c, b, els) => If(Replace(res, c), ReplaceBlock(res, b), ReplaceOpt(res, els))
    case BlockExpr(b) => BlockExpr(ReplaceBlock(res, b))
    case Call(callee, args) =>
      Call(Replace(res, callee), seq(|args|, i requires 0 <= i < |args| => Replace(res, args[i])))
    case Match(s, arms) =>
      Match(Replace(res, s), seq(|arms|, i requires 0 <= i < |arms| => ReplaceArm(res, arms[i])))
    case Loop(b) => Loop(ReplaceBlock(res, b))
    case While(c, b) => While(Replace(res, c), ReplaceBlock(res, b))
    case _ => e
  }

  function ReplaceOpt(res: Result, o: Option<Expr>): Option<Expr>
    decreases o
  {
    if o.Some? then Some(Replace(res, o.value)) else None
  }

  function ReplaceBlock(res: Result, b: Block): Block
    decreases b
  {
    Block(seq(|b.stmts|, i requires 0 <= i < |b.stmts| => ReplaceStmt(res, b.stmts[i])), ReplaceOpt(res, b.trailing))
  }

  function ReplaceStmt(res: Result, s: Stmt): Stmt
    decreases s
  {
    match s
    case Let(pat, init) => Let(pat, ReplaceOpt(res, init))
    case Var(x, value) => Var(x, Replace(res, value))
    case Return(r) => Return(ReplaceOpt(res, r))
    case Break(r) => Break(ReplaceOpt(res, r))
    case ExprStmt(x) => ExprStmt(Replace(res, x))
    case _ => s
  }

  // Patterns are left alone.
  function ReplaceArm(res: Result, a: Arm): Arm
    decreases a
  {
    Arm(a.pat, ReplaceOpt(res, a.guard), ReplaceBlock(res, a.body))
  }

  /******* When it is safe *******/

  // The literal read back is the value: it is a boolean, or an integer of the
  // path's own type.
  predicate Keeps(v: Value, t: Ty) {
    v.BoolV? || (v.IntV? && v.ty == t)
  }

  // Replaced paths keep their value and are not shadowed by a name of `bound`;
  // every binder introduces a name of `bound`.
  predicate Clear(res: Result, bound: set<string>, e: Expr)
    decreases e
  {
    match e
    case Path(segs, sym, t) =>
      Replacement(res, e).Some? ==> Keeps(ValueOf(res, sym).value, t) && (|segs| == 1 ==> segs[0] !in bound)
    case Unary(_, x) => Clear(res, bound, x)
    case Binary(_, l, r) => Clear(res, bound, l) && Clear(res, bound, r)
    case Cast(x, _) => Clear(res, bound, x)
    case Tuple(args, _) => forall i :: 0 <= i < |args| ==> Clear(res, bound, args[i])
    case Field(x, _) => Clear(res, bound, x)
    case If(c, b, els) => Clear(res, bound, c) && ClearBlock(res, bound, b) && (els.Some? ==> Clear(res, bound, els.value))
    case BlockExpr(b) => ClearBlock(res, bound, b)
    case Call(_, args) => forall i :: 0 <= i < |args| ==> Clear(res, bound, args[i])
    case Match(s, arms) => Clear(res, bound, s) && forall i :: 0 <= i < |arms| ==> ClearArm(res, bound, arms[i])
    case Loop(b) => ClearBlock(res, bound, b)
    case While(c, b) => Clear(res, bound, c) && ClearBlock(res, bound, b)
    case _ => true
  }

  predicate ClearBlock(res: Result, bound: set<string>, b: Block)
    decreases b
  {
    (forall i :: 0 <= i < |b.stmts| ==> ClearStmt(res, bound, b.stmts[i])) &&
    (b.trailing.Some? ==> Clear(res, bound, b.trailing.value))
  }

  predicate ClearStmt(res: Result, bound: set<string>, s: Stmt)
    decreases s
  {
    match s
    case Let(pat, init) => Binds(bound, pat) && (init.Some? ==> Clear(res, bound, init.value))
    case Var(x, value) => x in bound && Clear(res, bound, value)
    case Return(r) => r.Some? ==> Clear(res, bound, r.value)
    case Break(r) => r.Some? ==> Clear(res, bound, r.value)
    case ExprStmt(x) => Clear(res, bound, x)
    case _ => true
  }

  predicate ClearArm(res: Result, bound: set<string>, a: Arm)
    decreases a
  {
    Binds(bound, a.pat) && (a.guard.Some? ==> Clear(res, bound, a.guard.value)) && ClearBlock(res, bound, a.body)
  }

  predicate Binds(bound: set<string>, p: Pattern) {
    match p
    case Bind(x) => x in bound
    case TuplePat(subs) => forall i :: 0 <= i < |subs| ==> Binds(bound, subs[i])
    case OrPat(alts) => forall i :: 0 <= i < |alts| ==> Binds(bound, alts[i])
    case _ => true
  }

  // Symbols are unique across the kinds of declaration.
  predicate Distinct(p: Program) {
    p.consts.Keys !! p.statics.Keys && p.consts.Keys !! p.fns.Keys && p.statics.Keys !! p.fns.Keys
  }

  // Every value is canonical and is what its declaration evaluates to from
  // counter K on.
  ghost predicate SoundAt(p: Program, res: Result, K: nat) {
    && (forall s :: s in res.consts ==> ConstSettles(p, s, res.consts[s], K) && Good(true, res.consts[s]))
    && (forall s :: s in res.statics ==>
         s in p.statics && StaticSettles(p, s, res.statics[s], K) && Good(true, res.statics[s]))
  }

  /******* Names in scope *******/

  lemma {:induction false} BindNames(bound: set<string>, pat: Pattern, v: Value, env: Env)
    requires Binds(bound, pat) && env.Keys <= bound && BindPattern(pat, v, env).Some?
    ensures BindPattern(pat, v, env).value.Keys <= bound
    decreases pat, 1, 0
  {
    if pat.TuplePat? {
      BindSubsNames(bound, pat, v, 0, env);
    }
  }

  lemma {:induction false} BindSubsNames(bound: set<string>, pat: Pattern, v: Value, i: nat, env: Env)
    requires pat.TuplePat? && v.TupleV? && |v.elems| == |pat.subs| && i <= |pat.subs|
    requires Binds(bound, pat) && env.Keys <= bound && BindSubs(pat, v, i, env).Some?
    ensures BindSubs(pat, v, i, env).value.Keys <= bound
    decreases pat, 0, |pat.subs| - i
  {
    if i < |pat.subs| {
      BindNames(bound, pat.subs[i], v.elems[i], env);
      BindSubsNames(bound, pat, v, i + 1, BindPattern(pat.subs[i], v.elems[i], env).value);
    }
  }

  lemma {:induction false} MatchNames(bound: set<string>, p: Program, pat: Pattern, v: Value, env: Env, n: nat, m: nat)
    requires Binds(bound, pat) && env.Keys <= bound
    ensures var t := RefMatch(p, pat, v, env, n, m); t.Trial? ==> t.env.Keys <= bound
    decreases pat, 1, 0
  {
    hide RefExpr, RefSubs, RefAlts;
    match pat
    case TuplePat(subs) =>
      if v.TupleV? && |v.elems| == |subs| {
        SubsNames(bound, p, pat, v, 0, env, n, m);
      }
    case OrPat(_) => AltsNames(bound, p, pat, v, 0, env, n, m);
    case _ =>
  }

  lemma {:induction false} SubsNames(bound: set<string>, p: Program, pat: Pattern, v: Value, i: nat, env: Env, n: nat, m: nat)
    requires pat.TuplePat? && v.TupleV? && |v.elems| == |pat.subs| && i <= |pat.subs|
    requires Binds(bound, pat) && env.Keys <= bound
    ensures var t := RefSubs(p, pat, v, i, env, n, m); t.Trial? ==> t.env.Keys <= bound
    decreases pat, 0, |pat.subs| - i
  {
    hide RefMatch;
    if i < |pat.subs| {
      MatchNames(bound, p, pat.subs[i], v.elems[i], env, n, m);
      var t := RefMatch(p, pat.subs[i], v.elems[i], env, n, m);
      if t.Trial? && t.ok && t.matched {
        SubsNames(bound, p, pat, v, i + 1, t.env, n, m);
      }
    }
  }

  lemma {:induction false} AltsNames(bound: set<string>, p: Program, pat: Pattern, v: Value, i: nat, env: Env, n: nat, m: nat)
    requires pat.OrPat? && i <= |pat.alts| && Binds(bound, pat) && env.Keys <= bound
    ensures var t := RefAlts(p, pat, v, i, env, n, m); t.Trial? ==> t.env.Keys <= bound
    decreases pat, 0, |pat.alts| - i
  {
    hide RefMatch;
    if i < |pat.alts| {
      MatchNames(bound, p, pat.alts[i], v, env, n, m);
      var t := RefMatch(p, pat.alts[i], v, env, n, m);
      if t.Trial? && t.ok && !t.matched {
        AltsNames(bound, p, pat, v, i + 1, t.env, n, m);
      }
    }
  }

  /******* The literal of a value *******/

  // For a canonical value the literal evaluates to the value itself exactly
  // when Keeps says so; a character or a value of another type changes.
  lemma LiteralKeepsIff(p: Program, v: Value, t: Ty, env: Env, n: nat, m: nat)
    requires Good(true, v) && ToLiteral(v, t).Some? && n > 0
    ensures RefExpr(p, ToLiteral(v, t).value, env, n, m) == Ok(v) <==> Keeps(v, t)
  {
    hide ParseInteger, Decimal, Mask, Canonical;
    match v
    case IntV(s, k) =>
      SmallWord(s, k);
      PrintThenRead(k);
      if s == t {
        MaskCanonical(t, k);
      }
    case CharV(cp) =>
      SmallWord(CharTy, cp);
      PrintThenRead(cp);
    case BoolV(b) =>
  }

  /******* The substituted program *******/

  const NOTHING := Result(map[], map[])

  function ReplaceFn(res: Result, f: Fn): Fn {
    f.(body := if f.body.Some? then Some(ReplaceBlock(res, f.body.value)) else None)
  }

  // Every initialiser and every function body rewritten.
  function Substituted(p: Program, res: Result): Program {
    Program(map s | s in p.consts :: ReplaceOpt(res, p.consts[s]),
            map s | s in p.statics :: ReplaceOpt(res, p.statics[s]),
            map s | s in p.fns :: ReplaceFn(res, p.fns[s]), p.enums)
  }

  ghost predicate ClearInit(res: Result, e: Expr) {
    exists bound :: Clear(res, bound, e)
  }

  predicate ClearBody(res: Result, bound: set<string>, f: Fn) {
    (forall i :: 0 <= i < |f.params| ==> f.params[i] in bound) && (f.body.Some? ==> ClearBlock(res, bound, f.body.value))
  }

  ghost predicate ClearFn(res: Result, f: Fn) {
    exists bound :: ClearBody(res, bound, f)
  }

  // Rewriting is safe in every initialiser and function body, each with its
  // own names.
  ghost predicate ClearProgram(p: Program, res: Result) {
    && (forall s :: s in p.consts && p.consts[s].Some? ==> ClearInit(res, p.consts[s].value))
    && (forall s :: s in p.statics && p.statics[s].Some? ==> ClearInit(res, p.statics[s].value))
    && (forall s :: s in p.fns ==> ClearFn(res, p.fns[s]))
  }

  lemma {:induction false} ReplaceNothing(e: Expr)
    ensures Replace(NOTHING, e) == e
    decreases e
  {
    match e
    case Unary(_, x) => ReplaceNothing(x);
    case Binary(_, l, r) =>
      ReplaceNothing(l);
      ReplaceNothing(r);
    case Cast(x, _) => ReplaceNothing(x);
    case Tuple(args, _) =>
      forall i | 0 <= i < |args|
        ensures Replace(NOTHING, args[i]) == args[i]
      {
        ReplaceNothing(args[i]);
      }
    case Field(x, _) => ReplaceNothing(x);
    case If(c, b, els) =>
      ReplaceNothing(c);
      ReplaceBlockNothing(b);
      ReplaceOptNothing(els);
    case BlockExpr(b) => ReplaceBlockNothing(b);
    case Call(callee, args) =>
      ReplaceNothing(callee);
      forall i | 0 <= i < |args|
        ensures Replace(NOTHING, args[i]) == args[i]
      {
        ReplaceNothing(args[i]);
      }
    case Match(s, arms) =>
      ReplaceNothing(s);
      forall i | 0 <= i < |arms|
        ensures ReplaceArm(NOTHING, arms[i]) == arms[i]
      {
        ReplaceOptNothing(arms[i].guard);
        ReplaceBlockNothing(arms[i].body);
      }
    case Loop(b) => ReplaceBlockNothing(b);
    case While(c, b) =>
      ReplaceNothing(c);
      ReplaceBlockNothing(b);
    case _ =>
  }

  lemma {:induction false} ReplaceOptNothing(o: Option<Expr>)
    ensures ReplaceOpt(NOTHING, o) == o
    decreases o
  {
    if o.Some? {
      ReplaceNothing(o.value);
    }
  }

  lemma {:induction false} ReplaceBlockNothing(b: Block)
    ensures ReplaceBlock(NOTHING, b) == b
    decreases b
  {
    ReplaceOptNothing(b.trailing);
    forall i | 0 <= i < |b.stmts|
      ensures ReplaceStmt(NOTHING, b.stmts[i]) == b.stmts[i]
    {
      match b.stmts[i]
      case Let(_, init) => ReplaceOptNothing(init);
      case Var(_, value) => ReplaceNothing(value);
      case Return(r) => ReplaceOptNothing(r);
      case Break(r) => ReplaceOptNothing(r);
      case ExprStmt(x) => ReplaceNothing(x);
      case _ =>
    }
  }

  lemma SubstitutedNothing(p: Program)
    ensures Substituted(p, NOTHING) == p
  {
    hide ReplaceOpt, ReplaceBlock;
    var q := Substituted(p, NOTHING);
    forall s | s in p.consts
      ensures q.consts[s] == p.consts[s]
    {
      ReplaceOptNothing(p.consts[s]);
    }
    forall s | s in p.statics
      ensures q.statics[s] == p.statics[s]
    {
      ReplaceOptNothing(p.statics[s]);
    }
    forall s | s in p.fns
      ensures q.fns[s] == p.fns[s]
    {
      if p.fns[s].body.Some? {
        ReplaceBlockNothing(p.fns[s].body.value);
      }
    }
    assert q.consts == p.consts && q.statics == p.statics && q.fns == p.fns;
  }

  /******* Two sides with the same meaning *******/

  // Two programs, each the given one or its substituted form.
  datatype Sides = Sides(p: Program, res: Result, K: nat, q1: Result, q2: Result) {
    function P1(): Program { Substituted(p, q1) }
    function P2(): Program { Substituted(p, q2) }

    ghost predicate Valid() {
      && Distinct(p) && SoundAt(p, res, K)
      && (q1 == NOTHING || q1 == res) && (q2 == NOTHING || q2 == res)
      && (q1 == NOTHING || q2 == NOTHING)
      && (q1 == q2 == NOTHING || ClearProgram(p, res))
    }

    predicate Enough(n: nat, m: nat, N: nat, M: nat) {
      N >= n + K + 1 && M >= m + K
    }
  }

  // Two forms of an expression, each as it stands or rewritten; a form is
  // rewritten only when the other side's program is not.
  datatype View = View(r1: Result, r2: Result, bound: set<string>) {
    predicate Allowed(x: Sides) {
      && (r1 == NOTHING || (r1 == x.res && x.q2 == NOTHING))
      && (r2 == NOTHING || (r2 == x.res && x.q1 == NOTHING))
    }

    predicate Plain() {
      r1 == r2 == NOTHING
    }

    predicate Scope(env: Env) {
      Plain() || env.Keys <= bound
    }
  }

  const PLAIN := View(NOTHING, NOTHING, {})

  predicate Fits(x: Sides, v: View, e: Expr) {
    v.Allowed(x) && (v.Plain() || Clear(x.res, v.bound, e))
  }

  predicate FitsBlock(x: Sides, v: View, b: Block) {
    v.Allowed(x) && (v.Plain() || ClearBlock(x.res, v.bound, b))
  }

  predicate FitsPattern(v: View, pat: Pattern) {
    v.Plain() || Binds(v.bound, pat)
  }

  lemma FitsParts(x: Sides, v: View, e: Expr)
    requires Fits(x, v, e)
    ensures Strict(e) || e.Call? ==> forall i :: 0 <= i < |Operands(e)| ==> Fits(x, v, Operands(e)[i])
    ensures e.Binary? ==> Fits(x, v, e.l) && Fits(x, v, e.r)
    ensures e.If? ==> Fits(x, v, e.cond) && FitsBlock(x, v, e.yes) && (e.els.Some? ==> Fits(x, v, e.els.value))
    ensures e.BlockExpr? ==> FitsBlock(x, v, e.block)
    ensures e.Match? ==> Fits(x, v, e.scrutinee) && forall i :: 0 <= i < |e.arms| ==>
      FitsPattern(v, e.arms[i].pat) && FitsBlock(x, v, e.arms[i].body)
      && (e.arms[i].guard.Some? ==> Fits(x, v, e.arms[i].guard.value))
    ensures e.Loop? ==> FitsBlock(x, v, e.body)
    ensures e.While? ==> Fits(x, v, e.cond) && FitsBlock(x, v, e.body)
  {
    if e.Match? && !v.Plain() {
      forall i | 0 <= i < |e.arms|
        ensures ClearArm(x.res, v.bound, e.arms[i])
      {
      }
    }
  }

  lemma FitsBlockParts(x: Sides, v: View, b: Block, i: nat)
    requires FitsBlock(x, v, b)
    ensures b.trailing.Some? ==> Fits(x, v, b.trailing.value)
    ensures i < |b.stmts| ==>
      var s := b.stmts[i];
      && (s.Let? ==> FitsPattern(v, s.pat) && (s.init.Some? ==> Fits(x, v, s.init.value)))
      && (s.Var? ==> Fits(x, v, s.value) && (v.Plain() || s.name in v.bound))
      && (s.Return? || s.Break? ==> s.result.Some? ==> Fits(x, v, s.result.value))
      && (s.ExprStmt? ==> Fits(x, v, s.expr))
  {
    hide Clear;
    if i < |b.stmts| && !v.Plain() {
      assert ClearStmt(x.res, v.bound, b.stmts[i]);
    }
  }

  lemma {:induction false} SameConst(x: Sides, s: nat, n: nat, m: nat, N: nat, M: nat)
    requires x.Valid() && x.Enough(n, m, N, M) && s in x.p.consts && !RefConst(x.P1(), s, n, m).Limit?
    ensures RefConst(x.P2(), s, N, M) == RefConst(x.P1(), s, n, m)
    decreases 2 * n + 1
  {
    if x.p.consts[s].Some? {
      hide RefExpr, Replace;
      var v := InitView(x, x.p.consts[s].value);
      SameExpr(x, v, x.p.consts[s].value, map[], n, m, N, M);
    }
  }

  lemma {:induction false} SameStatic(x: Sides, s: nat, n: nat, m: nat, N: nat, M: nat)
    requires x.Valid() && x.Enough(n, m, N, M) && s in x.p.statics && !RefStatic(x.P1(), s, n, m).Limit?
    ensures RefStatic(x.P2(), s, N, M) == RefStatic(x.P1(), s, n, m)
    decreases 2 * n + 1
  {
    if x.p.statics[s].Some? {
      hide RefExpr, Replace;
      var v := InitView(x, x.p.statics[s].value);
      SameExpr(x, v, x.p.statics[s].value, map[], n, m, N, M);
    }
  }

  lemma InitView(x: Sides, e: Expr) returns (v: View)
    requires x.Valid() && (x.q1 == x.q2 == NOTHING || ClearInit(x.res, e))
    ensures v.r1 == x.q1 && v.r2 == x.q2 && Fits(x, v, e) && v.Scope(map[])
  {
    hide Clear;
    if x.q1 == x.q2 == NOTHING {
      v := PLAIN;
    } else {
      var bound :| Clear(x.res, bound, e);
      v := View(x.q1, x.q2, bound);
    }
  }

  // Whatever the first side settles, the second settles alike with counters
  // that leave room for the constants it evaluates.
  lemma {:induction false} SameExpr(x: Sides, v: View, e: Expr, env: Env, n: nat, m: nat, N: nat, M: nat)
    requires x.Valid() && x.Enough(n, m, N, M) && Fits(x, v, e) && v.Scope(env)
    requires !RefExpr(x.P1(), Replace(v.r1, e), env, n, m).Limit?
    ensures RefExpr(x.P2(), Replace(v.r2, e), env, N, M) == RefExpr(x.P1(), Replace(v.r1, e), env, n, m)
    decreases 2 * n, e, 2, 0
  {
    hide RefConst, RefStatic, RefAll, RefLogical, RefCall, RefBlock, RefArms, RefLoop, RefWhile, Sides.Valid, Fits, FitsBlock, Substituted,
      ParseInteger, ParseChar, FindVariant, Replacement, ReplaceBlock, Mask;
    FitsParts(x, v, e);
    if Strict(e) {
      SameStrict(x, v, e, env, n, m, N, M);
    } else {
      match e
      case Path(_, _, _) => SamePath(x, v, e, env, n, m, N, M);
      case Binary(_, _, _) => SameLogical(x, v, e, env, n, m, N, M);
      case If(_, _, _) => SameIf(x, v, e, env, n, m, N, M);
      case BlockExpr(b) => SameBlock(x, v, b, 0, env, n, m, N, M);
      case Call(_, _) => SameCall(x, v, e, env, n, m, N, M);
      case Match(_, _) => SameMatchExpr(x, v, e, env, n, m, N, M);
      case Loop(_) => SameLoop(x, v, e, m, M, env, n, m, N, M);
      case While(_, _) => SameWhile(x, v, e, m, M, env, n, m, N, M);
      case _ =>
    }
  }

  lemma {:induction false} SameStrict(x: Sides, v: View, e: Expr, env: Env, n: nat, m: nat, N: nat, M: nat)
    requires x.Valid() && x.Enough(n, m, N, M) && Fits(x, v, e) && v.Scope(env) && Strict(e)
    requires !RefExpr(x.P1(), Replace(v.r1, e), env, n, m).Limit?
    ensures RefExpr(x.P2(), Replace(v.r2, e), env, N, M) == RefExpr(x.P1(), Replace(v.r1, e), env, n, m)
    decreases 2 * n, e, 1, |Operands(e)| + 1
  {
    hide RefAll, ApplyUnary, ApplyBinary, ApplyCast, Sides.Valid, Substituted, Fits;
    SameOperands(v.r1, e);
    SameOperands(v.r2, e);
    SameAll(x, v, e, 0, env, n, m, N, M);
  }

  lemma SameOperands(res: Result, e: Expr)
    requires Strict(e) || e.Call?
    ensures |Operands(Replace(res, e))| == |Operands(e)|
    ensures forall i :: 0 <= i < |Operands(e)| ==> Operands(Replace(res, e))[i] == Replace(res, Operands(e)[i])
    ensures Strict(e) <==> Strict(Replace(res, e))
  {
  }

  lemma {:induction false} SameAll(x: Sides, v: View, e: Expr, i: nat, env: Env, n: nat, m: nat, N: nat, M: nat)
    requires x.Valid() && x.Enough(n, m, N, M) && Fits(x, v, e) && v.Scope(env) && (Strict(e) || e.Call?)
    requires i <= |Operands(e)| == |Operands(Replace(v.r1, e))| == |Operands(Replace(v.r2, e))|
    requires RefAll(x.P1(), Replace(v.r1, e), i, env, n, m) != Stop(Limit)
    ensures RefAll(x.P2(), Replace(v.r2, e), i, env, N, M) == RefAll(x.P1(), Replace(v.r1, e), i, env, n, m)
    decreases 2 * n, e, 1, |Operands(e)| - i
  {
    hide RefExpr, Sides.Valid, Substituted, Replace, Fits;
    SameOperands(v.r1, e);
    SameOperands(v.r2, e);
    FitsParts(x, v, e);
    if i < |Operands(e)| {
      SameExpr(x, v, Operands(e)[i], env, n, m, N, M);
      var o := RefExpr(x.P1(), Replace(v.r1, Operands(e)[i]), env, n, m);
      if o.Out? && o.fl == Normal {
        SameAll(x, v, e, i + 1, env, n, m, N, M);
      }
    }
  }

  lemma {:induction false} SameLogical(x: Sides, v: View, e: Expr, env: Env, n: nat, m: nat, N: nat, M: nat)
    requires x.Valid() && x.Enough(n, m, N, M) && Fits(x, v, e) && v.Scope(env) && e.Binary? && (e.op.LogAnd? || e.op.LogOr?)
    requires !RefLogical(x.P1(), Replace(v.r1, e), env, n, m).Limit?
    ensures RefLogical(x.P2(), Replace(v.r2, e), env, N, M) == RefLogical(x.P1(), Replace(v.r1, e), env, n, m)
    decreases 2 * n, e, 1, 0
  {
    hide RefExpr, Sides.Valid, Substituted, Fits;
    FitsParts(x, v, e);
    SameExpr(x, v, e.l, env, n, m, N, M);
    var o := RefExpr(x.P1(), Replace(v.r1, e.l), env, n, m);
    if o.Out? && o.fl == Normal && o.v.BoolV? && o.v.b != e.op.LogOr? {
      SameExpr(x, v, e.r, env, n, m, N, M);
    }
  }

  lemma {:induction false} SameIf(x: Sides, v: View, e: Expr, env: Env, n: nat, m: nat, N: nat, M: nat)
    requires x.Valid() && x.Enough(n, m, N, M) && Fits(x, v, e) && v.Scope(env) && e.If?
    requires !RefExpr(x.P1(), Replace(v.r1, e), env, n, m).Limit?
    ensures RefExpr(x.P2(), Replace(v.r2, e), env, N, M) == RefExpr(x.P1(), Replace(v.r1, e), env, n, m)
    decreases 2 * n, e, 1, 0
  {
    hide RefBlock, ReplaceBlock, Sides.Valid, Substituted, Fits, FitsBlock;
    FitsParts(x, v, e);
    SameExpr(x, v, e.cond, env, n, m, N, M);
    var o := RefExpr(x.P1(), Replace(v.r1, e.cond), env, n, m);
    if o.Out? && o.fl == Normal && o.v.BoolV? {
      if o.v.b {
        SameBlock(x, v, e.yes, 0, env, n, m, N, M);
      } else if e.els.Some? {
        SameExpr(x, v, e.els.value, env, n, m, N, M);
      }
    }
  }

  lemma {:induction false} SamePath(x: Sides, v: View, e: Expr, env: Env, n: nat, m: nat, N: nat, M: nat)
    requires x.Valid() && x.Enough(n, m, N, M) && Fits(x, v, e) && v.Scope(env) && e.Path?
    requires !RefExpr(x.P1(), Replace(v.r1, e), env, n, m).Limit?
    ensures RefExpr(x.P2(), Replace(v.r2, e), env, N, M) == RefExpr(x.P1(), Replace(v.r1, e), env, n, m)
    decreases 2 * n, e, 1, 0
  {
    hide RefConst, RefStatic, Sides.Valid, Substituted, Fits, FindVariant, Replacement, View.Scope;
    if Replacement(v.r1, e).Some? || Replacement(v.r2, e).Some? {
      SameReplaced(x, v, e, env, n, m, N, M);
    } else {
      SubstitutedKeys(x.p, x.q1);
      SubstitutedKeys(x.p, x.q2);
      if e.sym in x.p.consts && n > 0 && !RefConst(x.P1(), e.sym, n - 1, m).Limit? {
        SameConst(x, e.sym, n - 1, m, N - 1, M);
      } else if e.sym in x.p.statics && n > 0 && !RefStatic(x.P1(), e.sym, n - 1, m).Limit? {
        SameStatic(x, e.sym, n - 1, m, N - 1, M);
      }
    }
  }

  lemma SubstitutedKeys(p: Program, q: Result)
    ensures Substituted(p, q).consts.Keys == p.consts.Keys && Substituted(p, q).statics.Keys == p.statics.Keys && Substituted(p, q).fns.Keys == p.fns.Keys
    ensures Substituted(p, q).enums == p.enums
  {
  }

  // A path replaced on one side: the other side evaluates the declaration, in
  // the program as it stands, to the value of the literal.
  lemma SameReplaced(x: Sides, v: View, e: Expr, env: Env, n: nat, m: nat, N: nat, M: nat)
    requires x.Valid() && x.Enough(n, m, N, M) && Fits(x, v, e) && v.Scope(env) && e.Path?
    requires Replacement(v.r1, e).Some? || Replacement(v.r2, e).Some?
    requires !RefExpr(x.P1(), Replace(v.r1, e), env, n, m).Limit?
    ensures RefExpr(x.P2(), Replace(v.r2, e), env, N, M) == RefExpr(x.P1(), Replace(v.r1, e), env, n, m)
  {
    hide RefExpr, Substituted, Good, Keeps, ToLiteral, SoundAt, Distinct, ClearProgram;
    SubstitutedNothing(x.p);
    assert Replacement(x.res, e).Some?;
    assert Clear(x.res, v.bound, e) && env.Keys <= v.bound;
    var u := ValueOf(x.res, e.sym).value;
    if Replacement(v.r1, e).Some? {
      LiteralValue(x.p, x.res, x.K, x.P1(), e, env, n, m);
    } else {
      PathValue(x.p, x.res, x.K, v.bound, e, env, n, m);
    }
    if Replacement(v.r2, e).Some? {
      LiteralValue(x.p, x.res, x.K, x.P2(), e, env, N, M);
    } else {
      PathValue(x.p, x.res, x.K, v.bound, e, env, N, M);
    }
  }

  lemma LiteralValue(p: Program, res: Result, K: nat, q: Program, e: Expr, env: Env, n: nat, m: nat)
    requires Distinct(p) && SoundAt(p, res, K) && e.Path? && Replacement(res, e).Some?
    requires Keeps(ValueOf(res, e.sym).value, e.ty)
    requires n > 0 || !RefExpr(q, Replace(res, e), env, n, m).Limit?
    ensures RefExpr(q, Replace(res, e), env, n, m) == Ok(ValueOf(res, e.sym).value)
  {
    hide Good, Decimal, ParseInteger, Mask;
    assert n > 0;
    LiteralKeepsIff(q, ValueOf(res, e.sym).value, e.ty, env, n, m);
  }

  lemma PathValue(p: Program, res: Result, K: nat, bound: set<string>, e: Expr, env: Env, n: nat, m: nat)
    requires Distinct(p) && SoundAt(p, res, K) && e.Path? && Replacement(res, e).Some?
    requires Clear(res, bound, e) && env.Keys <= bound
    requires (n > K && m >= K) || !RefExpr(p, e, env, n, m).Limit?
    ensures RefExpr(p, e, env, n, m) == Ok(ValueOf(res, e.sym).value)
  {
    hide RefConst, RefStatic, Good, FindVariant;
    if e.sym in res.consts {
      assert ConstSettles(p, e.sym, res.consts[e.sym], K);
      if !(n > K && m >= K) {
        MonoConst(p, e.sym, n - 1, m, Max(n - 1, K), Max(m, K));
      }
    } else {
      assert StaticSettles(p, e.sym, res.statics[e.sym], K);
      if !(n > K && m >= K) {
        MonoStatic(p, e.sym, n - 1, m, Max(n - 1, K), Max(m, K));
      }
    }
  }

  lemma {:induction false} SameCall(x: Sides, v: View, e: Expr, env: Env, n: nat, m: nat, N: nat, M: nat)
    requires x.Valid() && x.Enough(n, m, N, M) && Fits(x, v, e) && v.Scope(env) && e.Call? && n > 0
    requires !RefCall(x.P1(), Replace(v.r1, e), env, n, m).Limit?
    ensures RefCall(x.P2(), Replace(v.r2, e), env, N, M) == RefCall(x.P1(), Replace(v.r1, e), env, n, m)
    decreases 2 * n, e, 1, |e.args| + 1
  {
    hide RefAll, RefBlock, Callable, Sides.Valid, Substituted, Fits, Replace, ReplaceBlock, BindParams;
    FitsAllowed(x, v, e);
    SameCallable(x, v, e);
    SameOperands(v.r1, e);
    SameOperands(v.r2, e);
    if Callable(x.p, e) {
      var f := x.p.fns[e.callee.sym];
      SameAll(x, v, e, 0, env, n, m, N, M);
      var r := RefAll(x.P1(), Replace(v.r1, e), 0, env, n, m);
      if r.Vals? && f.body.Some? {
        SameBody(x, f, e.callee.sym, r.vs, n - 1, m, N - 1, M);
      }
    }
  }

  lemma FitsAllowed(x: Sides, v: View, e: Expr)
    requires Fits(x, v, e)
    ensures v.Allowed(x)
  {
  }

  lemma SameCallable(x: Sides, v: View, e: Expr)
    requires x.Valid() && v.Allowed(x) && e.Call?
    ensures Replace(v.r1, e).Call? && Replace(v.r2, e).Call?
    ensures Callable(x.P1(), Replace(v.r1, e)) <==> Callable(x.p, e)
    ensures Callable(x.P2(), Replace(v.r2, e)) <==> Callable(x.p, e)
    ensures Callable(x.p, e) ==>
      var s := e.callee.sym;
      && e.callee.Path? && s in x.p.fns && |e.args| == |x.p.fns[s].params|
      && Replace(v.r1, e).callee == e.callee && Replace(v.r2, e).callee == e.callee
      && s in x.P1().fns && x.P1().fns[s] == ReplaceFn(x.q1, x.p.fns[s])
      && s in x.P2().fns && x.P2().fns[s] == ReplaceFn(x.q2, x.p.fns[s])
  {
    hide ClearProgram, SoundAt, Replace, Callable, Substituted, ReplaceFn;
    CallableSide(x.p, x.res, x.K, x.q1, v.r1, e);
    CallableSide(x.p, x.res, x.K, x.q2, v.r2, e);
  }

  // Symbols of functions are not replaced.
  lemma CallableSide(p: Program, res: Result, K: nat, q: Result, r: Result, e: Expr)
    requires Distinct(p) && SoundAt(p, res, K) && (r == NOTHING || r == res) && e.Call?
    ensures Replace(r, e).Call? && (Callable(Substituted(p, q), Replace(r, e)) <==> Callable(p, e))
    ensures Callable(p, e) ==>
      var s := e.callee.sym;
      && e.callee.Path? && s in p.fns && |e.args| == |p.fns[s].params| && Replace(r, e).callee == e.callee
      && s in Substituted(p, q).fns && Substituted(p, q).fns[s] == ReplaceFn(q, p.fns[s])
  {
    hide ReplaceBlock, RefConst, RefStatic, Good, ReplaceOpt, Decimal;
    assert e.callee.Path? && e.callee.sym in p.fns ==> Replacement(r, e.callee).None?;
    assert e.callee.Path? && e.callee.sym !in p.fns ==> !Callable(Substituted(p, q), Replace(r, e));
  }

  lemma {:induction false} SameBody(x: Sides, f: Fn, s: nat, vs: seq<Value>, n: nat, m: nat, N: nat, M: nat)
    requires x.Valid() && x.Enough(n, m, N, M) && s in x.p.fns && f == x.p.fns[s] && f.body.Some? && |vs| == |f.params|
    requires !RefBlock(x.P1(), ReplaceBlock(x.q1, f.body.value), 0, BindParams(f.params, vs), n, m).Limit?
    ensures RefBlock(x.P2(), ReplaceBlock(x.q2, f.body.value), 0, BindParams(f.params, vs), N, M) ==
      RefBlock(x.P1(), ReplaceBlock(x.q1, f.body.value), 0, BindParams(f.params, vs), n, m)
    decreases 2 * n + 1
  {
    hide RefBlock, ReplaceBlock, ClearBlock, Substituted;
    var v := PLAIN;
    if !(x.q1 == x.q2 == NOTHING) {
      assert ClearFn(x.res, f);
      var bound :| ClearBody(x.res, bound, f);
      v := View(x.q1, x.q2, bound);
      ParamNames(bound, f.params, vs);
    }
    SameBlock(x, v, f.body.value, 0, BindParams(f.params, vs), n, m, N, M);
  }

  lemma {:induction false} ParamNames(bound: set<string>, params: seq<string>, vs: seq<Value>)
    requires |params| == |vs| && forall i :: 0 <= i < |params| ==> params[i] in bound
    ensures BindParams(params, vs).Keys <= bound
  {
    if params != [] {
      ParamNames(bound, params[..|params| - 1], vs[..|vs| - 1]);
    }
  }

  lemma {:induction false} SameBlock(x: Sides, v: View, b: Block, i: nat, env: Env, n: nat, m: nat, N: nat, M: nat)
    requires x.Valid() && x.Enough(n, m, N, M) && FitsBlock(x, v, b) && v.Scope(env) && i <= |b.stmts|
    requires !RefBlock(x.P1(), ReplaceBlock(v.r1, b), i, env, n, m).Limit?
    ensures RefBlock(x.P2(), ReplaceBlock(v.r2, b), i, env, N, M) == RefBlock(x.P1(), ReplaceBlock(v.r1, b), i, env, n, m)
    decreases 2 * n, b, 1, |b.stmts| - i
  {
    hide RefExpr, BindPattern, RefLeave, Replace, ReplaceBlock, Sides.Valid, Substituted, Fits, FitsBlock, FitsPattern;
    ReplacedBlock(v.r1, b, i);
    ReplacedBlock(v.r2, b, i);
    FitsBlockParts(x, v, b, i);
    if i == |b.stmts| {
      if b.trailing.Some? {
        SameExpr(x, v, b.trailing.value, env, n, m, N, M);
      }
    } else {
      match b.stmts[i]
      case Let(pat, init) => SameLet(x, v, b, i, env, n, m, N, M);
      case Var(y, value) =>
        SameExpr(x, v, value, env, n, m, N, M);
        var o := RefExpr(x.P1(), Replace(v.r1, value), env, n, m);
        if o.Out? && o.fl == Normal {
          SameBlock(x, v, b, i + 1, env[y := o.v], n, m, N, M);
        }
      case Return(result) => SameLeave(x, v, result, Returns, env, n, m, N, M);
      case Break(result) => SameLeave(x, v, result, Breaks, env, n, m, N, M);
      case ExprStmt(y) =>
        SameExpr(x, v, y, env, n, m, N, M);
        var o := RefExpr(x.P1(), Replace(v.r1, y), env, n, m);
        if o.Out? && o.fl == Normal {
          SameBlock(x, v, b, i + 1, env, n, m, N, M);
        }
      case _ =>
    }
  }

  lemma {:induction false} SameLet(x: Sides, v: View, b: Block, i: nat, env: Env, n: nat, m: nat, N: nat, M: nat)
    requires x.Valid() && x.Enough(n, m, N, M) && FitsBlock(x, v, b) && v.Scope(env) && i < |b.stmts| && b.stmts[i].Let?
    requires !RefBlock(x.P1(), ReplaceBlock(v.r1, b), i, env, n, m).Limit?
    ensures RefBlock(x.P2(), ReplaceBlock(v.r2, b), i, env, N, M) == RefBlock(x.P1(), ReplaceBlock(v.r1, b), i, env, n, m)
    decreases 2 * n, b, 1, |b.stmts| - i, 0
  {
    hide RefExpr, BindPattern, RefLeave, Replace, ReplaceBlock, Sides.Valid, Substituted, Fits, FitsBlock;
    ReplacedBlock(v.r1, b, i);
    ReplacedBlock(v.r2, b, i);
    FitsBlockParts(x, v, b, i);
    var pat, init := b.stmts[i].pat, b.stmts[i].init;
    if init.None? {
      SameBlock(x, v, b, i + 1, env, n, m, N, M);
    } else {
      SameExpr(x, v, init.value, env, n, m, N, M);
      var o := RefExpr(x.P1(), Replace(v.r1, init.value), env, n, m);
      if o.Out? && o.fl == Normal && BindPattern(pat, o.v, env).Some? {
        if !v.Plain() {
          BindNames(v.bound, pat, o.v, env);
        }
        SameBlock(x, v, b, i + 1, BindPattern(pat, o.v, env).value, n, m, N, M);
      }
    }
  }

  lemma ReplacedBlock(res: Result, b: Block, i: nat)
    ensures var b2 := ReplaceBlock(res, b);
      && |b2.stmts| == |b.stmts| && b2.trailing == ReplaceOpt(res, b.trailing)
      && (i < |b.stmts| ==> b2.stmts[i] == ReplaceStmt(res, b.stmts[i]))
  {
    hide ReplaceStmt, ReplaceOpt;
  }

  lemma {:induction false} SameLeave(x: Sides, v: View, r: Option<Expr>, fl: Flow, env: Env, n: nat, m: nat, N: nat, M: nat)
    requires x.Valid() && x.Enough(n, m, N, M) && v.Scope(env) && (r.Some? ==> Fits(x, v, r.value))
    requires !RefLeave(x.P1(), ReplaceOpt(v.r1, r), fl, env, n, m).Limit?
    ensures RefLeave(x.P2(), ReplaceOpt(v.r2, r), fl, env, N, M) == RefLeave(x.P1(), ReplaceOpt(v.r1, r), fl, env, n, m)
    decreases 2 * n, r, 3, 0
  {
    hide RefExpr, Replace, Sides.Valid, Substituted, Fits;
    if r.Some? {
      SameExpr(x, v, r.value, env, n, m, N, M);
    }
  }

  lemma {:induction false} SameMatchExpr(x: Sides, v: View, e: Expr, env: Env, n: nat, m: nat, N: nat, M: nat)
    requires x.Valid() && x.Enough(n, m, N, M) && Fits(x, v, e) && v.Scope(env) && e.Match?
    requires !RefExpr(x.P1(), Replace(v.r1, e), env, n, m).Limit?
    ensures RefExpr(x.P2(), Replace(v.r2, e), env, N, M) == RefExpr(x.P1(), Replace(v.r1, e), env, n, m)
    decreases 2 * n, e, 1, |e.arms| + 1
  {
    hide RefArms, ReplaceArm, Sides.Valid, Substituted, Fits;
    FitsParts(x, v, e);
    SameExpr(x, v, e.scrutinee, env, n, m, N, M);
    var o := RefExpr(x.P1(), Replace(v.r1, e.scrutinee), env, n, m);
    if o.Out? && o.fl == Normal {
      SameArms(x, v, e, o.v, 0, env, n, m, N, M);
    }
  }

  lemma {:induction false} SameArms(x: Sides, v: View, e: Expr, u: Value, i: nat, env: Env, n: nat, m: nat, N: nat, M: nat)
    requires x.Valid() && x.Enough(n, m, N, M) && Fits(x, v, e) && v.Scope(env) && e.Match? && i <= |e.arms|
    requires Replace(v.r1, e).Match? && |Replace(v.r1, e).arms| == |e.arms|
    requires Replace(v.r2, e).Match? && |Replace(v.r2, e).arms| == |e.arms|
    requires !RefArms(x.P1(), Replace(v.r1, e), u, i, env, n, m).Limit?
    ensures RefArms(x.P2(), Replace(v.r2, e), u, i, env, N, M) == RefArms(x.P1(), Replace(v.r1, e), u, i, env, n, m)
    decreases 2 * n, e, 1, |e.arms| - i
  {
    hide RefExpr, RefMatch, RefBlock, ReplaceBlock, Replace, Sides.Valid, Substituted, Fits, FitsBlock, FitsPattern;
    ReplacedArms(v.r1, e, i);
    ReplacedArms(v.r2, e, i);
    FitsParts(x, v, e);
    if i < |e.arms| {
      var arm := e.arms[i];
      SameMatch(x, arm.pat, u, env, n, m, N, M);
      var t := RefMatch(x.P1(), arm.pat, u, env, n, m);
      if t.Trial? && t.ok {
        if !t.matched {
          SameArms(x, v, e, u, i + 1, env, n, m, N, M);
        } else {
          ScopeAfter(x, v, arm.pat, u, env, n, m);
          SameArm(x, v, e, u, i, env, t.env, n, m, N, M);
        }
      }
    }
  }

  lemma ScopeAfter(x: Sides, v: View, pat: Pattern, u: Value, env: Env, n: nat, m: nat)
    requires FitsPattern(v, pat) && v.Scope(env)
    ensures var t := RefMatch(x.P1(), pat, u, env, n, m); t.Trial? ==> v.Scope(t.env)
  {
    hide RefMatch;
    if !v.Plain() {
      MatchNames(v.bound, x.P1(), pat, u, env, n, m);
    }
  }

  // The outcome of a matched arm, with its guard.
  function ArmRest(p: Program, e: Expr, u: Value, i: nat, env: Env, env2: Env, n: nat, m: nat): Out
    requires e.Match? && i < |e.arms|
  {
    var arm := e.arms[i];
    if arm.guard.None? then RefBlock(p, arm.body, 0, env2, n, m)
    else
      var g := RefExpr(p, arm.guard.value, env2, n, m);
      if !g.Out? || g.fl != Normal then g
      else if g.v == BoolV(true) then RefBlock(p, arm.body, 0, env2, n, m)
      else RefArms(p, e, u, i + 1, env, n, m)
  }

  lemma {:induction false} SameArm(x: Sides, v: View, e: Expr, u: Value, i: nat, env: Env, env2: Env, n: nat, m: nat, N: nat, M: nat)
    requires x.Valid() && x.Enough(n, m, N, M) && Fits(x, v, e) && v.Scope(env) && v.Scope(env2) && e.Match? && i < |e.arms|
    requires Replace(v.r1, e).Match? && |Replace(v.r1, e).arms| == |e.arms|
    requires Replace(v.r2, e).Match? && |Replace(v.r2, e).arms| == |e.arms|
    requires !ArmRest(x.P1(), Replace(v.r1, e), u, i, env, env2, n, m).Limit?
    ensures ArmRest(x.P2(), Replace(v.r2, e), u, i, env, env2, N, M) == ArmRest(x.P1(), Replace(v.r1, e), u, i, env, env2, n, m)
    decreases 2 * n, e, 1, |e.arms| - i, 0
  {
    hide RefExpr, RefBlock, RefArms, ReplaceBlock, Replace, Sides.Valid, Substituted, Fits, FitsBlock, FitsPattern;
    ReplacedArms(v.r1, e, i);
    ReplacedArms(v.r2, e, i);
    FitsParts(x, v, e);
    var arm := e.arms[i];
    if arm.guard.None? {
      SameBlock(x, v, arm.body, 0, env2, n, m, N, M);
    } else {
      SameExpr(x, v, arm.guard.value, env2, n, m, N, M);
      var g := RefExpr(x.P1(), Replace(v.r1, arm.guard.value), env2, n, m);
      if g == Ok(BoolV(true)) {
        SameBlock(x, v, arm.body, 0, env2, n, m, N, M);
      } else if g.Out? && g.fl == Normal {
        SameArms(x, v, e, u, i + 1, env, n, m, N, M);
      }
    }
  }

  lemma ReplacedArms(res: Result, e: Expr, i: nat)
    requires e.Match?
    ensures var e2 := Replace(res, e);
      && e2.Match? && |e2.arms| == |e.arms|
      && (i < |e.arms| ==> e2.arms[i] == Arm(e.arms[i].pat, ReplaceOpt(res, e.arms[i].guard), ReplaceBlock(res, e.arms[i].body)))
  {
    hide ReplaceOpt, ReplaceBlock;
  }

  // Patterns are not rewritten, but their bounds may name constants.
  lemma {:induction false} SameMatch(x: Sides, pat: Pattern, u: Value, env: Env, n: nat, m: nat, N: nat, M: nat)
    requires x.Valid() && x.Enough(n, m, N, M) && !RefMatch(x.P1(), pat, u, env, n, m).TrialLimit?
    ensures RefMatch(x.P2(), pat, u, env, N, M) == RefMatch(x.P1(), pat, u, env, n, m)
    decreases 2 * n, pat, 2, 0
  {
    hide RefExpr, RefSubs, RefAlts, Sides.Valid, ReplaceOpt, ReplaceFn, Replace;
    match pat
    case TuplePat(subs) =>
      if u.TupleV? && |u.elems| == |subs| {
        SameSubs(x, pat, u, 0, env, n, m, N, M);
      }
    case OrPat(_) => SameAlts(x, pat, u, 0, env, n, m, N, M);
    case RangePat(lo, hi, _) =>
      ReplaceNothing(lo);
      ReplaceNothing(hi);
      SameExpr(x, PLAIN, lo, env, n, m, N, M);
      var l := RefExpr(x.P1(), lo, env, n, m);
      if l.Out? && l.fl == Normal {
        SameExpr(x, PLAIN, hi, env, n, m, N, M);
      }
    case _ =>
  }

  lemma {:induction false} SameSubs(x: Sides, pat: Pattern, u: Value, i: nat, env: Env, n: nat, m: nat, N: nat, M: nat)
    requires pat.TuplePat? && u.TupleV? && |u.elems| == |pat.subs| && i <= |pat.subs|
    requires x.Valid() && x.Enough(n, m, N, M) && !RefSubs(x.P1(), pat, u, i, env, n, m).TrialLimit?
    ensures RefSubs(x.P2(), pat, u, i, env, N, M) == RefSubs(x.P1(), pat, u, i, env, n, m)
    decreases 2 * n, pat, 1, |pat.subs| - i
  {
    hide RefMatch, Sides.Valid, Substituted;
    if i < |pat.subs| {
      SameMatch(x, pat.subs[i], u.elems[i], env, n, m, N, M);
      var t := RefMatch(x.P1(), pat.subs[i], u.elems[i], env, n, m);
      if t.Trial? && t.ok && t.matched {
        SameSubs(x, pat, u, i + 1, t.env, n, m, N, M);
      }
    }
  }

  lemma {:induction false} SameAlts(x: Sides, pat: Pattern, u: Value, i: nat, env: Env, n: nat, m: nat, N: nat, M: nat)
    requires pat.OrPat? && i <= |pat.alts|
    requires x.Valid() && x.Enough(n, m, N, M) && !RefAlts(x.P1(), pat, u, i, env, n, m).TrialLimit?
    ensures RefAlts(x.P2(), pat, u, i, env, N, M) == RefAlts(x.P1(), pat, u, i, env, n, m)
    decreases 2 * n, pat, 1, |pat.alts| - i
  {
    hide RefMatch, Sides.Valid, Substituted;
    if i < |pat.alts| {
      SameMatch(x, pat.alts[i], u, env, n, m, N, M);
      var t := RefMatch(x.P1(), pat.alts[i], u, env, n, m);
      if t.Trial? && t.ok && !t.matched {
        SameAlts(x, pat, u, i + 1, t.env, n, m, N, M);
      }
    }
  }

  lemma {:induction false} SameLoop(x: Sides, v: View, e: Expr, i: nat, j: nat, env: Env, n: nat, m: nat, N: nat, M: nat)
    requires x.Valid() && x.Enough(n, m, N, M) && Fits(x, v, e) && v.Scope(env) && e.Loop? && i <= j
    requires !RefLoop(x.P1(), Replace(v.r1, e), i, env, n, m).Limit?
    ensures RefLoop(x.P2(), Replace(v.r2, e), j, env, N, M) == RefLoop(x.P1(), Replace(v.r1, e), i, env, n, m)
    decreases 2 * n, e, 1, i
  {
    hide RefBlock, ReplaceBlock, Sides.Valid, Substituted, Fits, FitsBlock;
    FitsParts(x, v, e);
    SameBlock(x, v, e.body, 0, env, n, m, N, M);
    var o := RefBlock(x.P1(), ReplaceBlock(v.r1, e.body), 0, env, n, m);
    if o.Out? && (o.fl.Normal? || o.fl.Continues?) {
      SameLoop(x, v, e, i - 1, j - 1, env, n, m, N, M);
    }
  }

  lemma {:induction false} SameWhile(x: Sides, v: View, e: Expr, i: nat, j: nat, env: Env, n: nat, m: nat, N: nat, M: nat)
    requires x.Valid() && x.Enough(n, m, N, M) && Fits(x, v, e) && v.Scope(env) && e.While? && i <= j
    requires !RefWhile(x.P1(), Replace(v.r1, e), i, env, n, m).Limit?
    ensures RefWhile(x.P2(), Replace(v.r2, e), j, env, N, M) == RefWhile(x.P1(), Replace(v.r1, e), i, env, n, m)
    decreases 2 * n, e, 1, i
  {
    hide RefBlock, RefExpr, ReplaceBlock, Sides.Valid, Substituted, Fits, FitsBlock;
    FitsParts(x, v, e);
    SameExpr(x, v, e.cond, env, n, m, N, M);
    if RefExpr(x.P1(), Replace(v.r1, e.cond), env, n, m) == Ok(BoolV(true)) {
      SameBlock(x, v, e.body, 0, env, n, m, N, M);
      var o := RefBlock(x.P1(), ReplaceBlock(v.r1, e.body), 0, env, n, m);
      if o.Out? && (o.fl.Normal? || o.fl.Continues?) {
        SameWhile(x, v, e, i - 1, j - 1, env, n, m, N, M);
      }
    }
  }

  /******* The theorem *******/

  // The unbounded outcome of e in env is o.
  ghost predicate Settles(p: Program, e: Expr, env: Env, o: Out) {
    exists k :: SettlesFrom(p, e, env, o, k)
  }

  ghost predicate SettlesFrom(p: Program, e: Expr, env: Env, o: Out, k: nat) {
    !o.Limit? && forall N, M :: N >= k && M >= k ==> RefExpr(p, e, env, N, M) == o
  }

  lemma ConstBound(p: Program, vs: map<nat, Value>) returns (K: nat)
    requires forall s :: s in vs ==> ConstMeans(p, s, vs[s])
    ensures forall s :: s in vs ==> ConstSettles(p, s, vs[s], K)
    decreases |vs|
  {
    hide RefConst;
    if vs == map[] {
      K := 0;
    } else {
      var s :| s in vs;
      var rest := vs - {s};
      assert vs.Keys == rest.Keys + {s};
      var k :| ConstSettles(p, s, vs[s], k);
      var j := ConstBound(p, rest);
      K := Max(k, j);
    }
  }

  lemma StaticBound(p: Program, vs: map<nat, Value>) returns (K: nat)
    requires forall s :: s in vs ==> StaticMeans(p, s, vs[s])
    ensures forall s :: s in vs ==> s in p.statics && StaticSettles(p, s, vs[s], K)
    decreases |vs|
  {
    hide RefStatic;
    if vs == map[] {
      K := 0;
    } else {
      var s :| s in vs;
      var rest := vs - {s};
      assert vs.Keys == rest.Keys + {s};
      var k :| StaticSettles(p, s, vs[s], k);
      var j := StaticBound(p, rest);
      K := Max(k, j);
    }
  }

  // A clean evaluation of a typed program is sound from some counter on.
  lemma ResultSound(p: Program, items: seq<Item>, res: Result) returns (K: nat)
    requires RightResult(p, items, res) && TypedProgram(true, p)
    ensures SoundAt(p, res, K)
  {
    hide RefConst, RefStatic, TypedProgram, Good, ConstSyms, StaticSyms;
    var a := ConstBound(p, res.consts);
    var b := StaticBound(p, res.statics);
    K := Max(a, b);
    forall s | s in res.consts
      ensures ConstSettles(p, s, res.consts[s], K) && Good(true, res.consts[s])
    {
      assert RefConst(p, s, K, K) == Ok(res.consts[s]);
      GoodConst(true, p, s, K, K);
    }
    forall s | s in res.statics
      ensures StaticSettles(p, s, res.statics[s], K) && Good(true, res.statics[s])
    {
      assert RefStatic(p, s, K, K) == Ok(res.statics[s]);
      GoodStatic(true, p, s, K, K);
    }
  }

  // What a program's expression settles to: in every scope whose names do not
  // shadow a replaced constant, its substituted form settles to the same, both
  // in the program as it stands and in the substituted one.
  lemma SubstitutionKeepsMeaning(p: Program, items: seq<Item>, res: Result, bound: set<string>, e: Expr, env: Env, o: Out)
    requires RightResult(p, items, res) && TypedProgram(true, p) && Distinct(p)
    requires Clear(res, bound, e) && env.Keys <= bound
    ensures Settles(p, e, env, o) <==> Settles(p, Replace(res, e), env, o)
    ensures ClearProgram(p, res) ==>
      (Settles(p, e, env, o) <==> Settles(Substituted(p, res), Replace(res, e), env, o))
  {
    var K := ResultSound(p, items, res);
    hide *;
    SubstitutedNothing(p);
    SettlesBoth(Sides(p, res, K, NOTHING, NOTHING), res, bound, e, env, o);
    if ClearProgram(p, res) {
      SettlesBoth(Sides(p, res, K, NOTHING, res), res, bound, e, env, o);
    }
  }

  // From the program as it stands to the second side, and back.
  lemma SettlesBoth(x: Sides, r: Result, bound: set<string>, e: Expr, env: Env, o: Out)
    requires Distinct(x.p) && SoundAt(x.p, x.res, x.K) && r == x.res && Clear(r, bound, e) && env.Keys <= bound
    requires x.q1 == NOTHING && (x.q2 == NOTHING || (x.q2 == x.res && ClearProgram(x.p, x.res)))
    ensures Settles(x.p, e, env, o) <==> Settles(Substituted(x.p, x.q2), Replace(r, e), env, o)
  {
    hide Distinct, SoundAt, Clear, ClearProgram, Settles, Substituted, Replace;
    var y := Sides(x.p, x.res, x.K, x.q2, NOTHING);
    SubstitutedNothing(x.p);
    ReplaceNothing(e);
    SettlesMoves(x, View(NOTHING, r, bound), e, env, o);
    SettlesMoves(y, View(r, NOTHING, bound), e, env, o);
  }

  lemma SettlesMoves(x: Sides, v: View, e: Expr, env: Env, o: Out)
    requires x.Valid() && Fits(x, v, e) && v.Scope(env)
    ensures Settles(x.P1(), Replace(v.r1, e), env, o) ==> Settles(x.P2(), Replace(v.r2, e), env, o)
  {
    hide RefExpr, Sides.Valid, Fits, View.Scope, Replace, Substituted;
    if !Settles(x.P1(), Replace(v.r1, e), env, o) {
      return;
    }
    var k: nat :| SettlesFrom(x.P1(), Replace(v.r1, e), env, o, k);
    var j := k + x.K + 1;
    forall N: nat, M: nat | N >= j && M >= j
      ensures RefExpr(x.P2(), Replace(v.r2, e), env, N, M) == o
    {
      assert RefExpr(x.P1(), Replace(v.r1, e), env, k, k) == o;
      SameExpr(x, v, e, env, k, k, N, M);
    }
    assert SettlesFrom(x.P2(), Replace(v.r2, e), env, o, j);
  }

  // So every constant keeps its value when the whole program is rewritten.
  lemma SubstitutedConstants(p: Program, items: seq<Item>, res: Result, s: nat, u: Value)
    requires RightResult(p, items, res) && TypedProgram(true, p) && Distinct(p) && ClearProgram(p, res) && s in p.consts
    ensures ConstMeans(p, s, u) <==> ConstMeans(Substituted(p, res), s, u)
  {
    var K := ResultSound(p, items, res);
    hide RightResult, TypedProgram, ConstMeans, SoundAt, ClearProgram, Distinct, Substituted;
    SubstitutedNothing(p);
    if ConstMeans(p, s, u) {
      ConstMoves(Sides(p, res, K, NOTHING, res), s, u);
    }
    if ConstMeans(Substituted(p, res), s, u) {
      ConstMoves(Sides(p, res, K, res, NOTHING), s, u);
    }
  }

  lemma ConstMoves(x: Sides, s: nat, u: Value)
    requires x.Valid() && s in x.p.consts && ConstMeans(x.P1(), s, u)
    ensures ConstMeans(x.P2(), s, u)
  {
    hide RefConst, Sides.Valid, ReplaceOpt, ReplaceFn;
    var k: nat :| ConstSettles(x.P1(), s, u, k);
    var j := k + x.K + 1;
    forall N: nat, M: nat | N >= j && M >= j
      ensures RefConst(x.P2(), s, N, M) == Ok(u)
    {
      assert RefConst(x.P1(), s, k, k) == Ok(u);
      SameConst(x, s, k, k, N, M);
    }
    assert ConstSettles(x.P2(), s, u, j);
  }

  // For one replaced path the condition is exact: shadowed, the local must
  // hold what the literal reads as; otherwise the constant must keep its value.
  lemma PathKeptIff(p: Program, res: Result, K: nat, e: Expr, env: Env, n: nat, m: nat)
    requires Distinct(p) && SoundAt(p, res, K) && n > K && m >= K && e.Path? && Replacement(res, e).Some?
    ensures RefExpr(p, Replace(res, e), env, n, m) == RefExpr(p, e, env, n, m) <==>
      if |e.segs| == 1 && e.segs[0] in env
      then RefExpr(p, Replacement(res, e).value, env, n, m) == Ok(env[e.segs[0]])
      else Keeps(ValueOf(res, e.sym).value, e.ty)
  {
    hide RefConst, RefStatic, ParseInteger, Decimal, Mask, Good, FindVariant;
    var v := ValueOf(res, e.sym).value;
    LiteralKeepsIff(p, v, e.ty, env, n, m);
    if !(|e.segs| == 1 && e.segs[0] in env) {
      assert RefExpr(p, e, env, n, m) == Ok(v);
    }
  }

  /******* A character constant does change *******/

  function OneChar(): Program {
    Program(map[1 := Some(CharLit("'a'"))], map[], map[], [])
  }

  const CharPath := Path(["C"], 1, CharTy)
  const CharResult := Result(map[1 := CharV(97)], map[])

  // The constant 'a' comes back from substitution as the integer 97.
  lemma CharacterConstantChanges()
    ensures RightResult(OneChar(), [ConstItem(1)], CharResult)
    ensures Settles(OneChar(), CharPath, map[], Ok(CharV(97)))
    ensures Settles(OneChar(), Replace(CharResult, CharPath), map[], Ok(IntV(CharTy, 97)))
  {
    hide RightResult, Settles;
    CharEvaluates();
    CharIsResult();
    CharBecomesInt();
  }

  lemma CharEvaluates()
    ensures ConstSettles(OneChar(), 1, CharV(97), 1)
    ensures Settles(OneChar(), CharPath, map[], Ok(CharV(97)))
  {
    var p := OneChar();
    assert "'a'"[1..2] == "a" && ParseChar("'a'") == Some(97);
    hide ParseChar;
    forall N: nat, M: nat | N >= 1
      ensures RefConst(p, 1, N, M) == Ok(CharV(97))
    {
      assert p.consts[1] == Some(CharLit("'a'"));
      assert RefExpr(p, CharLit("'a'"), map[], N, M) == Ok(CharV(97));
    }
    forall N: nat, M: nat | N >= 2
      ensures RefExpr(p, CharPath, map[], N, M) == Ok(CharV(97))
    {
      assert RefExpr(p, CharPath, map[], N, M) == RefConst(p, 1, N - 1, M);
    }
    hide RefConst, RefExpr;
    assert SettlesFrom(p, CharPath, map[], Ok(CharV(97)), 2);
  }

  lemma CharIsResult()
    requires ConstSettles(OneChar(), 1, CharV(97), 1)
    ensures RightResult(OneChar(), [ConstItem(1)], CharResult)
  {
    hide ConstSettles;
    assert ConstSyms([ConstItem(1)]) == {1} by {
      assert [ConstItem(1)][0].sym == 1;
    }
    assert StaticSyms([ConstItem(1)]) == {};
  }

  lemma CharBecomesInt()
    ensures Settles(OneChar(), Replace(CharResult, CharPath), map[], Ok(IntV(CharTy, 97)))
  {
    hide ParseInteger, Decimal, FindVariant, RefAll;
    PrintThenRead(97);
    var lit := IntLit(Decimal(97), CharTy);
    assert Replace(CharResult, CharPath) == lit;
    assert SettlesFrom(OneChar(), lit, map[], Ok(IntV(CharTy, 97)), 2);
  }
}
