// The constant evaluator: a memo table, a nesting counter and a list of
// diagnostics, updated while walking the expression. Every method is proved
// against the reference semantics in both directions: with no diagnostic at
// all the result is the uncached, unbounded outcome, and whenever the uncached
// evaluation stays within the evaluator's own bounds, the evaluator reports
// nothing and returns that outcome.
module Evaluator {
  import opened Integers
  import opened Literals
  import opened Constants
  import opened ConstantMeaning
  import opened ConstantValues

  const MAX_DEPTH: nat := 256
  const MAX_TURNS: nat := 0x10_0000

  datatype Diag = TooDeep | TooManyTurns | NotConstant

  // From counter k on, the constant s evaluates to v.
  ghost predicate ConstSettles(p: Program, s: nat, v: Value, k: nat) {
    s in p.consts && forall N, M :: N >= k && M >= k ==> RefConst(p, s, N, M) == Ok(v)
  }

  // The unbounded, uncached value of the constant s is v.
  ghost predicate ConstMeans(p: Program, s: nat, v: Value) {
    exists k :: ConstSettles(p, s, v, k)
  }

  function Max(a: nat, b: nat): nat {
    if a > b then a else b
  }

  function Prefix(vs: seq<Value>, r: Vals): Vals {
    if r.Stop? then r else Vals(vs + r.vs)
  }

  class Evaluator {
    const p: Program
    var cache: map<nat, Value>
    var depth: nat
    var diags: seq<Diag>

    constructor (p: Program)
      ensures this.p == p && cache == map[] && depth == 0 && diags == [] && Ready()
    {
      this.p := p;
      cache, depth, diags := map[], 0, [];
    }

    ghost predicate CacheSound()
      reads this
    {
      forall s :: s in cache ==> ConstMeans(p, s, cache[s])
    }

    // Until something is reported, every cached value is right.
    ghost predicate Ready()
      reads this
    {
      depth <= MAX_DEPTH + 1 && (diags == [] ==> CacheSound())
    }

    // The nesting that is left.
    function Left(): nat
      reads this
    {
      if depth <= MAX_DEPTH then MAX_DEPTH + 1 - depth else 0
    }

    method Report(d: Diag)
      requires Ready()
      modifies this`diags
      ensures Ready() && diags == old(diags) + [d]
    {
      diags := diags + [d];
    }

    /******* Declarations *******/

    method EvalConst(s: nat) returns (v: Value, ok: bool, ghost k: nat)
      requires Ready() && s in p.consts
      modifies this
      ensures Ready() && depth == old(depth) && |old(diags)| <= |diags|
      ensures diags == [] ==> forall N, M :: N >= k && M >= k ==> RefConst(p, s, N, M) == if ok then Ok(v) else Out(Invalid, Error)
      ensures old(diags) == [] && RefConst(p, s, Left(), MAX_TURNS).Out? ==>
        diags == [] && RefConst(p, s, Left(), MAX_TURNS) == if ok then Ok(v) else Out(Invalid, Error)
      decreases 2 * Left() + 1
    {
      k := 0;
      if s in cache {
        v, ok := cache[s], true;
        if diags == [] {
          k :| ConstSettles(p, s, v, k);
          CachedAgrees(s, v, k, Left());
        }
        return;
      }
      if p.consts[s].None? {
        Report(NotConstant);
        return Invalid, false, 0;
      }
      var fl;
      v, fl, k := EvalExpr(p.consts[s].value, map[]);
      if fl != Normal {
        Report(NotConstant);
        return Invalid, false, k;
      }
      if v.Invalid? {
        return Invalid, false, k;
      }
      assert diags == [] ==> ConstSettles(p, s, v, k);
      cache := cache[s := v];
      ok := true;
    }

    // A cached value is what a bounded evaluation gives, if that gives any.
    lemma CachedAgrees(s: nat, v: Value, k: nat, n: nat)
      requires ConstSettles(p, s, v, k)
      ensures RefConst(p, s, n, MAX_TURNS).Limit? || RefConst(p, s, n, MAX_TURNS) == Ok(v)
    {
      if !RefConst(p, s, n, MAX_TURNS).Limit? {
        var K := Max(k, Max(n, MAX_TURNS));
        MonoConst(p, s, n, MAX_TURNS, K, K);
      }
    }

    method EvalStatic(s: nat) returns (v: Value, ok: bool, ghost k: nat)
      requires Ready() && s in p.statics
      modifies this
      ensures Ready() && depth == old(depth) && |old(diags)| <= |diags|
      ensures diags == [] ==> forall N, M :: N >= k && M >= k ==> RefStatic(p, s, N, M) == if ok then Ok(v) else Out(Invalid, Error)
      ensures old(diags) == [] && RefStatic(p, s, Left(), MAX_TURNS).Out? ==>
        diags == [] && RefStatic(p, s, Left(), MAX_TURNS) == if ok then Ok(v) else Out(Invalid, Error)
      decreases 2 * Left() + 1
    {
      k := 0;
      if p.statics[s].None? {
        return Invalid, false, 0;
      }
      var fl;
      v, fl, k := EvalExpr(p.statics[s].value, map[]);
      if fl != Normal {
        Report(NotConstant);
        return Invalid, false, k;
      }
      if v.Invalid? {
        return Invalid, false, k;
      }
      ok := true;
    }

    /******* Expressions *******/

    method EvalExpr(e: Expr, env: Env) returns (v: Value, fl: Flow, ghost k: nat)
      requires Ready()
      modifies this
      ensures Ready() && depth == old(depth) && |old(diags)| <= |diags|
      ensures diags == [] ==> forall N, M :: N >= k && M >= k ==> RefExpr(p, e, env, N, M) == Out(v, fl)
      ensures old(diags) == [] && RefExpr(p, e, env, Left(), MAX_TURNS).Out? ==>
        diags == [] && RefExpr(p, e, env, Left(), MAX_TURNS) == Out(v, fl)
      decreases 2 * Left(), e, 2, 0
    {
      hide RefAll, RefLogical, RefCall, RefBlock, RefArms, RefLoop, RefWhile, RefConst, RefStatic, Compute, ParseChar, ParseInteger;
      k := 1;
      if depth > MAX_DEPTH {
        Report(TooDeep);
        return Invalid, Error, 1;
      }
      if Strict(e) {
        v, fl, k := EvalStrict(e, env);
        k := k + 1;
        return;
      }
      match e
      case IntLit(text, t) =>
        var u := ParseInteger(text);
        if u.Some? {
          return IntV(t, Mask(u.value, Bits(t))), Normal, 1;
        }
        Report(NotConstant);
        return Invalid, Error, 1;
      case BoolLit(b) => return BoolV(b), Normal, 1;
      case CharLit(text) =>
        var c := ParseChar(text);
        if c.Some? {
          return CharV(c.value), Normal, 1;
        }
        Report(NotConstant);
        return Invalid, Error, 1;
      case Path(_, _, _) =>
        v, fl, k := EvalPath(e, env);
      case Binary(_, _, _) =>
        v, fl, k := EvalLogical(e, env);
        k := k + 1;
      case If(_, _, _) =>
        v, fl, k := EvalIf(e, env);
      case BlockExpr(b) =>
        v, fl, k := EvalBlock(b, env);
        k := k + 1;
      case Call(_, _) =>
        v, fl, k := EvalCall(e, env);
      case Match(_, _) =>
        v, fl, k := EvalMatch(e, env);
      case Loop(_) =>
        v, fl, k := EvalLoop(e, env);
        k := k + 1;
      case While(_, _) =>
        v, fl, k := EvalWhile(e, env);
        k := k + 1;
      case OtherLit =>
        Report(NotConstant);
        return Invalid, Error, 1;
      case OtherExpr =>
        Report(NotConstant);
        return Invalid, Error, 1;
    }

    method EvalPath(e: Expr, env: Env) returns (v: Value, fl: Flow, ghost k: nat)
      requires Ready() && e.Path? && depth <= MAX_DEPTH
      modifies this
      ensures Ready() && depth == old(depth) && |old(diags)| <= |diags|
      ensures diags == [] ==> forall N, M :: N >= k && M >= k ==> RefExpr(p, e, env, N, M) == Out(v, fl)
      ensures old(diags) == [] && RefExpr(p, e, env, Left(), MAX_TURNS).Out? ==>
        diags == [] && RefExpr(p, e, env, Left(), MAX_TURNS) == Out(v, fl)
      decreases 2 * Left(), e, 1, 0
    {
      hide RefConst, RefStatic, FindVariant;
      if |e.segs| == 1 && e.segs[0] in env {
        return env[e.segs[0]], Normal, 1;
      }
      if e.sym != 0 && e.sym in p.consts {
        depth := depth + 1;
        var ok;
        v, ok, k := EvalConst(e.sym);
        depth := depth - 1;
        return if ok then v else Invalid, if ok then Normal else Error, k + 1;
      }
      if e.sym != 0 && e.sym in p.statics {
        depth := depth + 1;
        var ok;
        v, ok, k := EvalStatic(e.sym);
        depth := depth - 1;
        return if ok then v else Invalid, if ok then Normal else Error, k + 1;
      }
      if |e.segs| == 2 {
        var i := FindVariant(p.enums, e.segs[0], e.segs[1]);
        if i.Some? {
          return IntV(e.ty, i.value), Normal, 1;
        }
      }
      Report(NotConstant);
      return Invalid, Error, 1;
    }

    method EvalStrict(e: Expr, env: Env) returns (v: Value, fl: Flow, ghost k: nat)
      requires Ready() && Strict(e) && depth <= MAX_DEPTH
      modifies this
      ensures Ready() && depth == old(depth) && |old(diags)| <= |diags|
      ensures diags == [] ==> forall N, M :: N >= k && M >= k ==> RefExpr(p, e, env, N, M) == Out(v, fl)
      ensures old(diags) == [] && RefExpr(p, e, env, Left(), MAX_TURNS).Out? ==>
        diags == [] && RefExpr(p, e, env, Left(), MAX_TURNS) == Out(v, fl)
      decreases 2 * Left(), e, 1, |Operands(e)| + 1
    {
      hide RefAll, Compute;
      var stopped, vs;
      stopped, vs, v, fl, k := EvalAll(e, env);
      k := k + 1;
      if stopped {
        return;
      }
      var o := Compute(e, vs);
      if o.Out? {
        return o.v, o.fl, k;
      }
      Report(NotConstant);
      return Invalid, Error, k;
    }

    // The operands in order; stopped tells that one of them did not end
    // normally, as v and fl say.
    method EvalAll(e: Expr, env: Env) returns (stopped: bool, vs: seq<Value>, v: Value, fl: Flow, ghost k: nat)
      requires Ready()
      modifies this
      ensures Ready() && depth == old(depth) && |old(diags)| <= |diags|
      ensures !stopped ==> |vs| == |Operands(e)|
      ensures diags == [] ==> forall N, M :: N >= k && M >= k ==>
        RefAll(p, e, 0, env, N, M) == if stopped then Stop(Out(v, fl)) else Vals(vs)
      ensures var r := RefAll(p, e, 0, env, Left(), MAX_TURNS);
        old(diags) == [] && (r.Vals? || r.o.Out?) ==> diags == [] && r == if stopped then Stop(Out(v, fl)) else Vals(vs)
      decreases 2 * Left(), e, 1, |Operands(e)|
    {
      hide RefExpr, RefAll, Prefix;
      PrefixFacts(e, env);
      stopped, vs, v, fl, k := false, [], Invalid, Normal, 0;
      ghost var r := RefAll(p, e, 0, env, Left(), MAX_TURNS);
      var i := 0;
      while i < |Operands(e)|
        invariant Ready() && depth == old(depth) && |old(diags)| <= |diags|
        invariant i == |vs| <= |Operands(e)|
        invariant diags == [] ==> forall N, M :: N >= k && M >= k ==>
          RefAll(p, e, 0, env, N, M) == Prefix(vs, RefAll(p, e, i, env, N, M))
        invariant old(diags) == [] && (r.Vals? || r.o.Out?) ==>
          diags == [] && r == Prefix(vs, RefAll(p, e, i, env, Left(), MAX_TURNS))
      {
        ghost var k2;
        v, fl, k2 := EvalExpr(Operands(e)[i], env);
        k := Max(k, k2);
        PrefixStep(vs, v, fl, e, i, env);
        if fl != Normal {
          stopped := true;
          return;
        }
        vs := vs + [v];
        i := i + 1;
      }
    }

    lemma PrefixFacts(e: Expr, env: Env)
      ensures forall r :: Prefix([], r) == r
      ensures forall vs, n: nat, m: nat :: Prefix(vs, RefAll(p, e, |Operands(e)|, env, n, m)) == Vals(vs)
    {
      hide RefExpr;
      forall r: Vals ensures Prefix([], r) == r
      {
        if r.Vals? {
          assert [] + r.vs == r.vs;
        }
      }
      forall vs, n: nat, m: nat ensures Prefix(vs, RefAll(p, e, |Operands(e)|, env, n, m)) == Vals(vs)
      {
        assert RefAll(p, e, |Operands(e)|, env, n, m) == Vals([]);
        assert vs + [] == vs;
      }
    }

    lemma PrefixStep(vs: seq<Value>, v: Value, fl: Flow, e: Expr, i: nat, env: Env)
      requires i < |Operands(e)|
      ensures forall n: nat, m: nat :: RefExpr(p, Operands(e)[i], env, n, m) == Out(v, fl) ==>
        Prefix(vs, RefAll(p, e, i, env, n, m)) ==
          if fl == Normal then Prefix(vs + [v], RefAll(p, e, i + 1, env, n, m)) else Stop(Out(v, fl))
      ensures forall n: nat, m: nat :: var o := RefExpr(p, Operands(e)[i], env, n, m);
        !o.Out? ==> Prefix(vs, RefAll(p, e, i, env, n, m)) == Stop(o)
    {
      hide RefExpr;
      forall n: nat, m: nat | RefExpr(p, Operands(e)[i], env, n, m) == Ok(v)
        ensures Prefix(vs, RefAll(p, e, i, env, n, m)) == Prefix(vs + [v], RefAll(p, e, i + 1, env, n, m))
      {
        var r := RefAll(p, e, i + 1, env, n, m);
        if r.Vals? {
          assert vs + ([v] + r.vs) == vs + [v] + r.vs;
        }
      }
    }

    method EvalLogical(e: Expr, env: Env) returns (v: Value, fl: Flow, ghost k: nat)
      requires Ready() && e.Binary? && (e.op.LogAnd? || e.op.LogOr?)
      modifies this
      ensures Ready() && depth == old(depth) && |old(diags)| <= |diags|
      ensures diags == [] ==> forall N, M :: N >= k && M >= k ==> RefLogical(p, e, env, N, M) == Out(v, fl)
      ensures old(diags) == [] && RefLogical(p, e, env, Left(), MAX_TURNS).Out? ==>
        diags == [] && RefLogical(p, e, env, Left(), MAX_TURNS) == Out(v, fl)
      decreases 2 * Left(), e, 1, 0
    {
      hide RefExpr;
      v, fl, k := EvalExpr(e.l, env);
      if fl != Normal {
        return;
      }
      if !v.BoolV? {
        Report(NotConstant);
        return Invalid, Error, k;
      }
      if e.op.LogAnd? && !v.b {
        return BoolV(false), Normal, k;
      }
      if e.op.LogOr? && v.b {
        return BoolV(true), Normal, k;
      }
      ghost var k2;
      v, fl, k2 := EvalExpr(e.r, env);
      k := Max(k, k2);
      if fl != Normal {
        return;
      }
      if !v.BoolV? {
        Report(NotConstant);
        return Invalid, Error, k;
      }
    }

    method EvalIf(e: Expr, env: Env) returns (v: Value, fl: Flow, ghost k: nat)
      requires Ready() && e.If? && depth <= MAX_DEPTH
      modifies this
      ensures Ready() && depth == old(depth) && |old(diags)| <= |diags|
      ensures diags == [] ==> forall N, M :: N >= k && M >= k ==> RefExpr(p, e, env, N, M) == Out(v, fl)
      ensures old(diags) == [] && RefExpr(p, e, env, Left(), MAX_TURNS).Out? ==>
        diags == [] && RefExpr(p, e, env, Left(), MAX_TURNS) == Out(v, fl)
      decreases 2 * Left(), e, 1, 0
    {
      hide RefBlock;
      v, fl, k := EvalExpr(e.cond, env);
      k := k + 1;
      if fl != Normal {
        return;
      }
      if !v.BoolV? {
        Report(NotConstant);
        return Invalid, Error, k;
      }
      ghost var k2 := 0;
      if v.b {
        v, fl, k2 := EvalBlock(e.yes, env);
      } else if e.els.None? {
        v := UnitV;
      } else {
        v, fl, k2 := EvalExpr(e.els.value, env);
      }
      k := Max(k, k2);
    }

    method EvalCall(e: Expr, env: Env) returns (v: Value, fl: Flow, ghost k: nat)
      requires Ready() && e.Call? && depth <= MAX_DEPTH
      modifies this
      ensures Ready() && depth == old(depth) && |old(diags)| <= |diags| && k > 0
      ensures diags == [] ==> forall N, M :: N >= k && M >= k ==> RefCall(p, e, env, N, M) == Out(v, fl)
      ensures old(diags) == [] && RefCall(p, e, env, Left(), MAX_TURNS).Out? ==>
        diags == [] && RefCall(p, e, env, Left(), MAX_TURNS) == Out(v, fl)
      decreases 2 * Left(), e, 1, |e.args| + 1
    {
      hide RefAll, RefBlock;
      if !e.callee.Path? || e.callee.sym !in p.fns {
        Report(NotConstant);
        return Invalid, Error, 1;
      }
      var f := p.fns[e.callee.sym];
      if !f.isConst || f.isExtern || |f.params| != |e.args| {
        Report(NotConstant);
        return Invalid, Error, 1;
      }
      var stopped, vs;
      stopped, vs, v, fl, k := EvalAll(e, env);
      k := k + 1;
      if stopped {
        return;
      }
      if f.body.None? {
        Report(NotConstant);
        return Invalid, Error, k;
      }
      depth := depth + 1;
      ghost var k2;
      v, fl, k2 := EvalBlock(f.body.value, BindParams(f.params, vs));
      depth := depth - 1;
      k := Max(k, k2 + 1);
      if fl != Error {
        fl := Normal;
      }
    }

    /******* Blocks *******/

    method EvalBlock(b: Block, env: Env) returns (v: Value, fl: Flow, ghost k: nat)
      requires Ready()
      modifies this
      ensures Ready() && depth == old(depth) && |old(diags)| <= |diags|
      ensures diags == [] ==> forall N, M :: N >= k && M >= k ==> RefBlock(p, b, 0, env, N, M) == Out(v, fl)
      ensures old(diags) == [] && RefBlock(p, b, 0, env, Left(), MAX_TURNS).Out? ==>
        diags == [] && RefBlock(p, b, 0, env, Left(), MAX_TURNS) == Out(v, fl)
      decreases 2 * Left(), b, 1, |b.stmts|
    {
      hide RefExpr;
      k := 0;
      var child := env;
      var i := 0;
      while i < |b.stmts|
        invariant Ready() && depth == old(depth) && |old(diags)| <= |diags| && i <= |b.stmts|
        invariant diags == [] ==> forall N, M :: N >= k && M >= k ==>
          RefBlock(p, b, 0, env, N, M) == RefBlock(p, b, i, child, N, M)
        invariant old(diags) == [] && RefBlock(p, b, 0, env, Left(), MAX_TURNS).Out? ==>
          diags == [] && RefBlock(p, b, 0, env, Left(), MAX_TURNS) == RefBlock(p, b, i, child, Left(), MAX_TURNS)
      {
        hide RefBlock;
        ghost var k2;
        v, fl, child, k2 := EvalStmt(b, i, child);
        k := Max(k, k2);
        if fl != Normal {
          return;
        }
        i := i + 1;
      }
      if b.trailing.None? {
        return UnitV, Normal, k;
      }
      ghost var k2;
      v, fl, k2 := EvalExpr(b.trailing.value, child);
      k := Max(k, k2);
    }

    // The i-th statement of b; after a normal end env2 is in force.
    method EvalStmt(b: Block, i: nat, env: Env) returns (v: Value, fl: Flow, env2: Env, ghost k: nat)
      requires Ready() && i < |b.stmts|
      modifies this
      ensures Ready() && depth == old(depth) && |old(diags)| <= |diags|
      ensures diags == [] ==> forall N, M :: N >= k && M >= k ==>
        RefBlock(p, b, i, env, N, M) == if fl == Normal then RefBlock(p, b, i + 1, env2, N, M) else Out(v, fl)
      ensures old(diags) == [] && RefBlock(p, b, i, env, Left(), MAX_TURNS).Out? ==>
        && diags == []
        && RefBlock(p, b, i, env, Left(), MAX_TURNS) ==
           if fl == Normal then RefBlock(p, b, i + 1, env2, Left(), MAX_TURNS) else Out(v, fl)
      decreases 2 * Left(), b, 1, |b.stmts| - i - 1
    {
      hide RefExpr, BindPattern;
      env2, k := env, 0;
      match b.stmts[i]
      case Let(pat, init) =>
        if init.None? {
          return UnitV, Normal, env, 0;
        }
        v, fl, k := EvalExpr(init.value, env);
        if fl != Normal {
          return;
        }
        var r := BindPattern(pat, v, env);
        if r.None? {
          Report(NotConstant);
          return Invalid, Error, env, k;
        }
        return UnitV, Normal, r.value, k;
      case Var(x, value) =>
        v, fl, k := EvalExpr(value, env);
        if fl != Normal {
          return;
        }
        return UnitV, Normal, env[x := v], k;
      case Return(result) =>
        v, fl, k := EvalLeave(result, Returns, env);
      case Break(result) =>
        v, fl, k := EvalLeave(result, Breaks, env);
      case Continue =>
        return UnitV, Continues, env, 0;
      case ExprStmt(x) =>
        v, fl, k := EvalExpr(x, env);
      case OtherStmt =>
        Report(NotConstant);
        return Invalid, Error, env, 0;
    }

    method EvalLeave(result: Option<Expr>, leave: Flow, env: Env) returns (v: Value, fl: Flow, ghost k: nat)
      requires Ready() && (leave == Returns || leave == Breaks)
      modifies this
      ensures Ready() && depth == old(depth) && |old(diags)| <= |diags| && fl != Normal
      ensures diags == [] ==> forall N, M :: N >= k && M >= k ==> RefLeave(p, result, leave, env, N, M) == Out(v, fl)
      ensures old(diags) == [] && RefLeave(p, result, leave, env, Left(), MAX_TURNS).Out? ==>
        diags == [] && RefLeave(p, result, leave, env, Left(), MAX_TURNS) == Out(v, fl)
      decreases 2 * Left(), result, 3, 0
    {
      hide RefExpr;
      if result.None? {
        return UnitV, leave, 0;
      }
      v, fl, k := EvalExpr(result.value, env);
      if fl != Error {
        fl := leave;
      }
    }

    /******* Matching *******/

    method EvalMatch(e: Expr, env: Env) returns (v: Value, fl: Flow, ghost k: nat)
      requires Ready() && e.Match? && depth <= MAX_DEPTH
      modifies this
      ensures Ready() && depth == old(depth) && |old(diags)| <= |diags|
      ensures diags == [] ==> forall N, M :: N >= k && M >= k ==> RefExpr(p, e, env, N, M) == Out(v, fl)
      ensures old(diags) == [] && RefExpr(p, e, env, Left(), MAX_TURNS).Out? ==>
        diags == [] && RefExpr(p, e, env, Left(), MAX_TURNS) == Out(v, fl)
      decreases 2 * Left(), e, 1, |e.arms| + 1
    {
      hide RefArms;
      v, fl, k := EvalExpr(e.scrutinee, env);
      k := k + 1;
      if fl != Normal {
        return;
      }
      ghost var k2;
      v, fl, k2 := EvalArms(e, v, env);
      k := Max(k, k2);
    }

    method EvalArms(e: Expr, scrutinee: Value, env: Env) returns (v: Value, fl: Flow, ghost k: nat)
      requires Ready() && e.Match?
      modifies this
      ensures Ready() && depth == old(depth) && |old(diags)| <= |diags|
      ensures diags == [] ==> forall N, M :: N >= k && M >= k ==> RefArms(p, e, scrutinee, 0, env, N, M) == Out(v, fl)
      ensures old(diags) == [] && RefArms(p, e, scrutinee, 0, env, Left(), MAX_TURNS).Out? ==>
        diags == [] && RefArms(p, e, scrutinee, 0, env, Left(), MAX_TURNS) == Out(v, fl)
      decreases 2 * Left(), e, 1, |e.arms|
    {
      hide RefExpr, RefBlock, RefMatch, RefArms;
      k := 0;
      var i := 0;
      while i < |e.arms|
        invariant Ready() && depth == old(depth) && |old(diags)| <= |diags| && i <= |e.arms|
        invariant diags == [] ==> forall N, M :: N >= k && M >= k ==>
          RefArms(p, e, scrutinee, 0, env, N, M) == RefArms(p, e, scrutinee, i, env, N, M)
        invariant old(diags) == [] && RefArms(p, e, scrutinee, 0, env, Left(), MAX_TURNS).Out? ==>
          diags == [] && RefArms(p, e, scrutinee, 0, env, Left(), MAX_TURNS) == RefArms(p, e, scrutinee, i, env, Left(), MAX_TURNS)
      {
        var taken;
        ghost var k2;
        taken, v, fl, k2 := EvalArm(e, scrutinee, i, env);
        k := Max(k, k2);
        if taken {
          return;
        }
        i := i + 1;
      }
      NoArmLeft(e, scrutinee, env);
      Report(NotConstant);
      return Invalid, Error, k;
    }

    lemma NoArmLeft(e: Expr, scrutinee: Value, env: Env)
      requires e.Match?
      ensures forall n: nat, m: nat :: RefArms(p, e, scrutinee, |e.arms|, env, n, m) == Stuck
    {
    }

    // The i-th arm: taken tells that the match ends here, as v and fl say.
    method EvalArm(e: Expr, scrutinee: Value, i: nat, env: Env) returns (taken: bool, v: Value, fl: Flow, ghost k: nat)
      requires Ready() && e.Match? && i < |e.arms|
      modifies this
      ensures Ready() && depth == old(depth) && |old(diags)| <= |diags|
      ensures diags == [] ==> forall N, M :: N >= k && M >= k ==>
        RefArms(p, e, scrutinee, i, env, N, M) == if taken then Out(v, fl) else RefArms(p, e, scrutinee, i + 1, env, N, M)
      ensures old(diags) == [] && RefArms(p, e, scrutinee, i, env, Left(), MAX_TURNS).Out? ==>
        && diags == []
        && RefArms(p, e, scrutinee, i, env, Left(), MAX_TURNS) ==
           if taken then Out(v, fl) else RefArms(p, e, scrutinee, i + 1, env, Left(), MAX_TURNS)
      decreases 2 * Left(), e, 1, |e.arms| - i - 1
    {
      hide RefExpr, RefBlock, RefMatch;
      var arm := e.arms[i];
      v, fl := Invalid, Error;
      var matched, ok, armEnv;
      matched, ok, armEnv, k := MatchPattern(arm.pat, scrutinee, env);
      if !ok {
        return true, Invalid, Error, k;
      }
      if !matched {
        return false, v, fl, k;
      }
      ghost var k2;
      if arm.guard.Some? {
        v, fl, k2 := EvalExpr(arm.guard.value, armEnv);
        k := Max(k, k2);
        if fl != Normal {
          return true, v, fl, k;
        }
        if v != BoolV(true) {
          return false, v, fl, k;
        }
      }
      v, fl, k2 := EvalBlock(arm.body, armEnv);
      return true, v, fl, Max(k, k2);
    }

    method MatchPattern(pat: Pattern, v: Value, env: Env) returns (matched: bool, ok: bool, env2: Env, ghost k: nat)
      requires Ready()
      modifies this
      ensures Ready() && depth == old(depth) && |old(diags)| <= |diags|
      ensures diags == [] ==> forall N, M :: N >= k && M >= k ==> RefMatch(p, pat, v, env, N, M) == Trial(matched, ok, env2)
      ensures old(diags) == [] && RefMatch(p, pat, v, env, Left(), MAX_TURNS).Trial? ==>
        diags == [] && RefMatch(p, pat, v, env, Left(), MAX_TURNS) == Trial(matched, ok, env2)
      decreases 2 * Left(), pat, 2, 0
    {
      hide RefExpr, RefSubs, RefAlts, ParseInteger, FindVariant, Mask, Bits, ConstSettles;
      matched, ok, env2, k := false, true, env, 0;
      match pat
      case Wild => matched := true;
      case Bind(x) => matched, env2 := true, env[x := v];
      case IntPat(text) =>
        if v.IntV? {
          var u := ParseInteger(text);
          if u.None? {
            Report(NotConstant);
            return false, false, env, 0;
          }
          matched := Mask(u.value, Bits(v.ty)) == v.n;
        }
      case BoolPat(b) => matched := v.BoolV? && v.b == b;
      case OtherLitPat =>
      case UnitPat(en, va) => matched := v.IntV? && FindVariant(p.enums, en, va) == Some(v.n);
      case TuplePat(subs) =>
        if v.TupleV? && |v.elems| == |subs| {
          matched, env2, k := MatchSubs(pat, v, env);
        }
      case OrPat(_) => matched, ok, env2, k := MatchAlts(pat, v, env);
      case RangePat(_, _, _) => matched, ok, k := MatchRange(pat, v, env);
      case OtherPat =>
        Report(NotConstant);
        return false, false, env, 0;
    }

    method MatchRange(pat: Pattern, v: Value, env: Env) returns (matched: bool, ok: bool, ghost k: nat)
      requires Ready() && pat.RangePat?
      modifies this
      ensures Ready() && depth == old(depth) && |old(diags)| <= |diags|
      ensures diags == [] ==> forall N, M :: N >= k && M >= k ==> RefMatch(p, pat, v, env, N, M) == Trial(matched, ok, env)
      ensures old(diags) == [] && RefMatch(p, pat, v, env, Left(), MAX_TURNS).Trial? ==>
        diags == [] && RefMatch(p, pat, v, env, Left(), MAX_TURNS) == Trial(matched, ok, env)
      decreases 2 * Left(), pat, 1, 0
    {
      hide RefExpr, RefSubs, RefAlts, ConstSettles;
      var l, lfl, h, hfl;
      l, lfl, k := EvalExpr(pat.lo, env);
      if lfl != Normal {
        return false, false, k;
      }
      ghost var k2;
      h, hfl, k2 := EvalExpr(pat.hi, env);
      k := Max(k, k2);
      if hfl != Normal {
        return false, false, k;
      }
      matched := v.IntV? && l.IntV? && h.IntV? && l.n <= v.n && (if pat.inclusive then v.n <= h.n else v.n < h.n);
      ok := true;
    }

    method MatchSubs(pat: Pattern, v: Value, env: Env) returns (matched: bool, env2: Env, ghost k: nat)
      requires Ready() && pat.TuplePat? && v.TupleV? && |v.elems| == |pat.subs|
      modifies this
      ensures Ready() && depth == old(depth) && |old(diags)| <= |diags|
      ensures diags == [] ==> forall N, M :: N >= k && M >= k ==> RefSubs(p, pat, v, 0, env, N, M) == Trial(matched, true, env2)
      ensures old(diags) == [] && RefSubs(p, pat, v, 0, env, Left(), MAX_TURNS).Trial? ==>
        diags == [] && RefSubs(p, pat, v, 0, env, Left(), MAX_TURNS) == Trial(matched, true, env2)
      decreases 2 * Left(), pat, 1, |pat.subs|
    {
      hide RefMatch;
      env2, k := env, 0;
      var i := 0;
      while i < |pat.subs|
        invariant Ready() && depth == old(depth) && |old(diags)| <= |diags| && i <= |pat.subs|
        invariant diags == [] ==> forall N, M :: N >= k && M >= k ==>
          RefSubs(p, pat, v, 0, env, N, M) == RefSubs(p, pat, v, i, env2, N, M)
        invariant old(diags) == [] && RefSubs(p, pat, v, 0, env, Left(), MAX_TURNS).Trial? ==>
          diags == [] && RefSubs(p, pat, v, 0, env, Left(), MAX_TURNS) == RefSubs(p, pat, v, i, env2, Left(), MAX_TURNS)
      {
        var ok;
        ghost var k2;
        matched, ok, env2, k2 := MatchPattern(pat.subs[i], v.elems[i], env2);
        k := Max(k, k2);
        if !(ok && matched) {
          return false, env2, k;
        }
        i := i + 1;
      }
      matched := true;
    }

    method MatchAlts(pat: Pattern, v: Value, env: Env) returns (matched: bool, ok: bool, env2: Env, ghost k: nat)
      requires Ready() && pat.OrPat?
      modifies this
      ensures Ready() && depth == old(depth) && |old(diags)| <= |diags|
      ensures diags == [] ==> forall N, M :: N >= k && M >= k ==> RefAlts(p, pat, v, 0, env, N, M) == Trial(matched, ok, env2)
      ensures old(diags) == [] && RefAlts(p, pat, v, 0, env, Left(), MAX_TURNS).Trial? ==>
        diags == [] && RefAlts(p, pat, v, 0, env, Left(), MAX_TURNS) == Trial(matched, ok, env2)
      decreases 2 * Left(), pat, 1, |pat.alts|
    {
      hide RefMatch;
      env2, k := env, 0;
      var i := 0;
      while i < |pat.alts|
        invariant Ready() && depth == old(depth) && |old(diags)| <= |diags| && i <= |pat.alts|
        invariant diags == [] ==> forall N, M :: N >= k && M >= k ==>
          RefAlts(p, pat, v, 0, env, N, M) == RefAlts(p, pat, v, i, env2, N, M)
        invariant old(diags) == [] && RefAlts(p, pat, v, 0, env, Left(), MAX_TURNS).Trial? ==>
          diags == [] && RefAlts(p, pat, v, 0, env, Left(), MAX_TURNS) == RefAlts(p, pat, v, i, env2, Left(), MAX_TURNS)
      {
        ghost var k2;
        matched, ok, env2, k2 := MatchPattern(pat.alts[i], v, env2);
        k := Max(k, k2);
        if !ok {
          return false, false, env2, k;
        }
        if matched {
          return true, true, env2, k;
        }
        i := i + 1;
      }
      return false, true, env2, k;
    }

    /******* Loops *******/

    method EvalLoop(e: Expr, env: Env) returns (v: Value, fl: Flow, ghost k: nat)
      requires Ready() && e.Loop?
      modifies this
      ensures Ready() && depth == old(depth) && |old(diags)| <= |diags|
      ensures diags == [] ==> forall N, M :: N >= k && M >= k ==> RefLoop(p, e, M, env, N, M) == Out(v, fl)
      ensures old(diags) == [] && RefLoop(p, e, MAX_TURNS, env, Left(), MAX_TURNS).Out? ==>
        diags == [] && RefLoop(p, e, MAX_TURNS, env, Left(), MAX_TURNS) == Out(v, fl)
      decreases 2 * Left(), e, 1, 0
    {
      hide RefBlock;
      k := 0;
      for i := 0 to MAX_TURNS
        invariant Ready() && depth == old(depth) && |old(diags)| <= |diags| && i <= k
        invariant diags == [] ==> forall N, M :: N >= k && M >= k ==>
          RefLoop(p, e, M, env, N, M) == RefLoop(p, e, M - i, env, N, M)
        invariant old(diags) == [] && RefLoop(p, e, MAX_TURNS, env, Left(), MAX_TURNS).Out? ==>
          diags == [] && RefLoop(p, e, MAX_TURNS, env, Left(), MAX_TURNS) == RefLoop(p, e, MAX_TURNS - i, env, Left(), MAX_TURNS)
      {
        ghost var k2;
        v, fl, k2 := EvalBlock(e.body, env);
        k := Max(Max(k, k2), i + 1);
        if fl == Breaks {
          return v, Normal, k;
        }
        if fl == Returns || fl == Error {
          return;
        }
      }
      Report(TooManyTurns);
      return Invalid, Error, k;
    }

    method EvalWhile(e: Expr, env: Env) returns (v: Value, fl: Flow, ghost k: nat)
      requires Ready() && e.While?
      modifies this
      ensures Ready() && depth == old(depth) && |old(diags)| <= |diags|
      ensures diags == [] ==> forall N, M :: N >= k && M >= k ==> RefWhile(p, e, M, env, N, M) == Out(v, fl)
      ensures old(diags) == [] && RefWhile(p, e, MAX_TURNS, env, Left(), MAX_TURNS).Out? ==>
        diags == [] && RefWhile(p, e, MAX_TURNS, env, Left(), MAX_TURNS) == Out(v, fl)
      decreases 2 * Left(), e, 1, 0
    {
      hide RefBlock, RefExpr;
      k := 0;
      for i := 0 to MAX_TURNS
        invariant Ready() && depth == old(depth) && |old(diags)| <= |diags| && i <= k
        invariant diags == [] ==> forall N, M :: N >= k && M >= k ==>
          RefWhile(p, e, M, env, N, M) == RefWhile(p, e, M - i, env, N, M)
        invariant old(diags) == [] && RefWhile(p, e, MAX_TURNS, env, Left(), MAX_TURNS).Out? ==>
          diags == [] && RefWhile(p, e, MAX_TURNS, env, Left(), MAX_TURNS) == RefWhile(p, e, MAX_TURNS - i, env, Left(), MAX_TURNS)
      {
        ghost var k2;
        v, fl, k2 := EvalExpr(e.cond, env);
        k := Max(Max(k, k2), i + 1);
        if fl != Normal {
          return;
        }
        if !v.BoolV? {
          Report(NotConstant);
          return Invalid, Error, k;
        }
        if !v.b {
          return UnitV, Normal, k;
        }
        v, fl, k2 := EvalBlock(e.body, env);
        k := Max(k, k2);
        if fl == Breaks {
          return v, Normal, k;
        }
        if fl == Returns || fl == Error {
          return;
        }
      }
      Report(TooManyTurns);
      return Invalid, Error, k;
    }
  }
  /******* Whole programs *******/

  datatype Item = ConstItem(sym: nat) | StaticItem(sym: nat)

  datatype Result = Result(consts: map<nat, Value>, statics: map<nat, Value>)

  ghost predicate StaticMeans(p: Program, s: nat, v: Value) {
    s in p.statics && exists k :: StaticSettles(p, s, v, k)
  }

  ghost predicate StaticSettles(p: Program, s: nat, v: Value, k: nat)
    requires s in p.statics
  {
    forall N, M :: N >= k && M >= k ==> RefStatic(p, s, N, M) == Ok(v)
  }

  predicate Declared(p: Program, items: seq<Item>) {
    forall i :: 0 <= i < |items| ==>
      match items[i] case ConstItem(s) => s != 0 && s in p.consts case StaticItem(s) => s != 0 && s in p.statics && p.statics[s].Some?
  }

  // Each item's uncached evaluation stays within the evaluator's bounds.
  ghost predicate WithinBounds(p: Program, items: seq<Item>)
    requires Declared(p, items)
  {
    forall i :: 0 <= i < |items| ==>
      match items[i]
      case ConstItem(s) => RefConst(p, s, MAX_DEPTH + 1, MAX_TURNS).Out?
      case StaticItem(s) => RefStatic(p, s, MAX_DEPTH + 1, MAX_TURNS).Out?
  }

  function ConstSyms(items: seq<Item>): set<nat> {
    set i | 0 <= i < |items| && items[i].ConstItem? :: items[i].sym
  }

  function StaticSyms(items: seq<Item>): set<nat> {
    set i | 0 <= i < |items| && items[i].StaticItem? :: items[i].sym
  }

  // One value per item, each the uncached, unbounded one.
  ghost predicate RightResult(p: Program, items: seq<Item>, res: Result) {
    && res.consts.Keys == ConstSyms(items) && res.statics.Keys == StaticSyms(items)
    && (forall s :: s in res.consts ==> ConstMeans(p, s, res.consts[s]))
    && (forall s :: s in res.statics ==> StaticMeans(p, s, res.statics[s]))
  }

  lemma AddItem(items: seq<Item>, it: Item)
    ensures ConstSyms(items + [it]) == ConstSyms(items) + if it.ConstItem? then {it.sym} else {}
    ensures StaticSyms(items + [it]) == StaticSyms(items) + if it.StaticItem? then {it.sym} else {}
  {
    var all := items + [it];
    assert all[|items|] == it;
    assert forall i :: 0 <= i < |items| ==> all[i] == items[i];
    forall s | s in ConstSyms(items) ensures s in ConstSyms(all)
    {
      var i :| 0 <= i < |items| && items[i].ConstItem? && items[i].sym == s;
      assert all[i] == items[i];
    }
    forall s | s in StaticSyms(items) ensures s in StaticSyms(all)
    {
      var i :| 0 <= i < |items| && items[i].StaticItem? && items[i].sym == s;
      assert all[i] == items[i];
    }
  }

  // A settled constant or initialised static has a value.
  lemma SettledHasValue(p: Program, s: nat, n: nat, m: nat)
    ensures s in p.consts ==> RefConst(p, s, n, m) != Out(Invalid, Error)
    ensures s in p.statics && p.statics[s].Some? ==> RefStatic(p, s, n, m) != Out(Invalid, Error)
  {
    if s in p.consts {
      GoodConst(false, p, s, n, m);
    }
    if s in p.statics {
      GoodStatic(false, p, s, n, m);
    }
  }

  // Every declared constant and initialised static, in declaration order;
  // items lists them as the modules do.
  method Evaluate(p: Program, items: seq<Item>) returns (res: Result, diags: seq<Diag>)
    requires Declared(p, items)
    ensures diags == [] ==> RightResult(p, items, res)
    ensures WithinBounds(p, items) ==> diags == []
  {
    hide RefConst, RefStatic, ConstSyms, StaticSyms;
    var ev := new Evaluator(p);
    res := Result(map[], map[]);
    var i := 0;
    NoItems();
    while i < |items|
      invariant ev.Ready() && ev.depth == 0 && ev.p == p && fresh(ev) && i <= |items|
      invariant ev.diags == [] ==> RightResult(p, items[..i], res)
      invariant WithinBounds(p, items) ==> ev.diags == []
    {
      assert items[..i + 1] == items[..i] + [items[i]];
      AddItem(items[..i], items[i]);
      match items[i] {
        case ConstItem(s) =>
          var v, ok, k := ev.EvalConst(s);
          SettledHasValue(p, s, k, k);
          if ok {
            assert ev.diags == [] ==> ConstSettles(p, s, v, k);
            res := res.(consts := res.consts[s := v]);
          }
          assert ev.diags == [] ==> ok by {
            if ev.diags == [] { assert RefConst(p, s, k, k) == if ok then Ok(v) else Out(Invalid, Error); }
          }
        case StaticItem(s) =>
          var v, ok, k := ev.EvalStatic(s);
          SettledHasValue(p, s, k, k);
          if ok {
            assert ev.diags == [] ==> StaticSettles(p, s, v, k);
            res := res.(statics := res.statics[s := v]);
          }
          assert ev.diags == [] ==> ok by {
            if ev.diags == [] { assert RefStatic(p, s, k, k) == if ok then Ok(v) else Out(Invalid, Error); }
          }
      }
      i := i + 1;
    }
    assert items[..|items|] == items;
    diags := ev.diags;
  }

  lemma NoItems()
    ensures ConstSyms([]) == {} && StaticSyms([]) == {}
  {
  }

  lemma UniqueConst(p: Program, s: nat, v: Value, w: Value)
    requires ConstMeans(p, s, v) && ConstMeans(p, s, w)
    ensures v == w
  {
    hide RefConst;
    var k :| ConstSettles(p, s, v, k);
    var j :| ConstSettles(p, s, w, j);
    assert RefConst(p, s, Max(k, j), Max(k, j)) == Ok(v);
  }

  lemma UniqueStatic(p: Program, s: nat, v: Value, w: Value)
    requires StaticMeans(p, s, v) && StaticMeans(p, s, w)
    ensures v == w
  {
    hide RefStatic;
    var k :| StaticSettles(p, s, v, k);
    var j :| StaticSettles(p, s, w, j);
    assert RefStatic(p, s, Max(k, j), Max(k, j)) == Ok(v);
  }

  // Two declaration orders that both succeed give the same values.
  lemma OrderDoesNotMatter(p: Program, items1: seq<Item>, items2: seq<Item>, r1: Result, r2: Result)
    requires RightResult(p, items1, r1) && RightResult(p, items2, r2)
    ensures forall s :: s in r1.consts && s in r2.consts ==> r1.consts[s] == r2.consts[s]
    ensures forall s :: s in r1.statics && s in r2.statics ==> r1.statics[s] == r2.statics[s]
    ensures ConstSyms(items1) == ConstSyms(items2) && StaticSyms(items1) == StaticSyms(items2) ==> r1 == r2
  {
    hide ConstMeans, StaticMeans, ConstSyms, StaticSyms;
    forall s | s in r1.consts && s in r2.consts ensures r1.consts[s] == r2.consts[s]
    {
      UniqueConst(p, s, r1.consts[s], r2.consts[s]);
    }
    forall s | s in r1.statics && s in r2.statics ensures r1.statics[s] == r2.statics[s]
    {
      UniqueStatic(p, s, r1.statics[s], r2.statics[s]);
    }
    if ConstSyms(items1) == ConstSyms(items2) && StaticSyms(items1) == StaticSyms(items2) {
      assert r1.consts == r2.consts && r1.statics == r2.statics;
    }
  }

  // The path that evaluating e comes to first, if it begins with one.
  function FirstPath(e: Expr): Option<Expr> {
    match e
    case Path(_, _, _) => Some(e)
    case Unary(_, x) => FirstPath(x)
    case Binary(_, l, _) => FirstPath(l)
    case Cast(x, _) => FirstPath(x)
    case Tuple(args, _) => if args == [] then None else FirstPath(args[0])
    case Field(x, _) => FirstPath(x)
    case If(c, _, _) => FirstPath(c)
    case Match(x, _) => FirstPath(x)
    case While(c, _) => FirstPath(c)
    case _ => None
  }

  // The initialiser of constant s begins by evaluating constant t.
  predicate BeginsWith(p: Program, s: nat, t: nat) {
    && s in p.consts && p.consts[s].Some? && t != 0 && t in p.consts
    && FirstPath(p.consts[s].value).Some? && FirstPath(p.consts[s].value).value.Path?
    && FirstPath(p.consts[s].value).value.sym == t
  }

  lemma {:induction false} FirstPathLimits(p: Program, e: Expr, n: nat, m: nat)
    requires FirstPath(e).Some? && FirstPath(e).value.Path?
    requires var t := FirstPath(e).value.sym; t != 0 && t in p.consts && (n > 0 ==> RefConst(p, t, n - 1, m) == Limit)
    ensures RefExpr(p, e, map[], n, m) == Limit
    decreases e
  {
    hide RefConst, Compute, RefBlock, RefArms;
    if n > 0 {
      match e
      case Path(_, _, _) =>
      case Unary(_, x) => FirstPathLimits(p, x, n, m);
      case Binary(_, l, _) => FirstPathLimits(p, l, n, m);
      case Cast(x, _) => FirstPathLimits(p, x, n, m);
      case Tuple(args, _) => FirstPathLimits(p, args[0], n, m);
      case Field(x, _) => FirstPathLimits(p, x, n, m);
      case If(c, _, _) => FirstPathLimits(p, c, n, m);
      case Match(x, _) => FirstPathLimits(p, x, n, m);
      case While(c, _) => FirstPathLimits(p, c, n, m);
    }
  }

  predicate Cyclic(p: Program, cycle: seq<nat>) {
    forall k :: 0 <= k < |cycle| ==>
      cycle[k] in p.consts && BeginsWith(p, cycle[k], cycle[if k + 1 < |cycle| then k + 1 else 0])
  }

  // A cycle of constants, of any length, is never settled: no constant on it
  // has a value under any bounds, so none is given one without a diagnostic.
  lemma {:induction false} CyclicConstant(p: Program, cycle: seq<nat>, i: nat, n: nat, m: nat)
    requires i < |cycle| && Cyclic(p, cycle)
    ensures RefConst(p, cycle[i], n, m) == Limit
    decreases n
  {
    hide RefExpr, FirstPath;
    var next := if i + 1 < |cycle| then i + 1 else 0;
    assert BeginsWith(p, cycle[i], cycle[next]);
    if n > 0 {
      CyclicConstant(p, cycle, next, n - 1, m);
    }
    FirstPathLimits(p, p.consts[cycle[i]].value, n, m);
  }

  // No constant expression can change a binding, so every turn of a loop
  // does the same: a loop ends, if ever, in its first turn, and its iteration
  // bound only ever stops loops that would not end.
  lemma {:induction false} LoopEndsAtOnce(p: Program, e: Expr, i: nat, env: Env, n: nat, m: nat)
    requires e.Loop? && i > 0
    ensures RefLoop(p, e, i, env, n, m) == RefLoop(p, e, 1, env, n, m)
    decreases i
  {
    hide RefBlock;
    if i > 1 {
      LoopEndsAtOnce(p, e, i - 1, env, n, m);
    }
  }

  // The same for `while`.
  lemma {:induction false} WhileEndsAtOnce(p: Program, e: Expr, i: nat, env: Env, n: nat, m: nat)
    requires e.While? && i > 0
    ensures RefWhile(p, e, i, env, n, m) == RefWhile(p, e, 1, env, n, m)
    decreases i
  {
    hide RefBlock, RefExpr;
    if i > 1 {
      WhileEndsAtOnce(p, e, i - 1, env, n, m);
    }
  }
}
