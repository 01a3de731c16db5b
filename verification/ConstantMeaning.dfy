// The counters of the reference semantics only ever withhold an answer: once
// a run settles, larger counters give the same outcome. So every expression
// has at most one unbounded outcome.
module ConstantMeaning {
  import opened Integers
  import opened Constants

  lemma {:induction false} MonoConst(p: Program, s: nat, n: nat, m: nat, n2: nat, m2: nat)
    requires s in p.consts && n <= n2 && m <= m2 && !RefConst(p, s, n, m).Limit?
    ensures RefConst(p, s, n2, m2) == RefConst(p, s, n, m)
    decreases 2 * n + 1
  {
    if p.consts[s].Some? {
      MonoExpr(p, p.consts[s].value, map[], n, m, n2, m2);
    }
  }

  lemma {:induction false} MonoStatic(p: Program, s: nat, n: nat, m: nat, n2: nat, m2: nat)
    requires s in p.statics && n <= n2 && m <= m2 && !RefStatic(p, s, n, m).Limit?
    ensures RefStatic(p, s, n2, m2) == RefStatic(p, s, n, m)
    decreases 2 * n + 1
  {
    if p.statics[s].Some? {
      MonoExpr(p, p.statics[s].value, map[], n, m, n2, m2);
    }
  }

  lemma {:induction false} MonoExpr(p: Program, e: Expr, env: Env, n: nat, m: nat, n2: nat, m2: nat)
    requires n <= n2 && m <= m2 && !RefExpr(p, e, env, n, m).Limit?
    ensures RefExpr(p, e, env, n2, m2) == RefExpr(p, e, env, n, m)
    decreases 2 * n, e, 2, 0
  {
    hide RefConst, RefStatic, RefAll, RefLogical, RefCall, RefBlock, RefArms, RefLoop, RefWhile, Compute;
    if Strict(e) {
      MonoAll(p, e, 0, env, n, m, n2, m2);
    } else {
      match e
      case Path(segs, sym, _) =>
        if sym in p.consts && !RefConst(p, sym, n - 1, m).Limit? {
          MonoConst(p, sym, n - 1, m, n2 - 1, m2);
        } else if sym in p.statics && !RefStatic(p, sym, n - 1, m).Limit? {
          MonoStatic(p, sym, n - 1, m, n2 - 1, m2);
        }
      case Binary(_, _, _) => MonoLogical(p, e, env, n, m, n2, m2);
      case If(c, b, els) =>
        MonoExpr(p, c, env, n, m, n2, m2);
        var o := RefExpr(p, c, env, n, m);
        if o.Out? && o.fl == Normal && o.v.BoolV? {
          if o.v.b {
            MonoBlock(p, b, 0, env, n, m, n2, m2);
          } else if els.Some? {
            MonoExpr(p, els.value, env, n, m, n2, m2);
          }
        }
      case BlockExpr(b) => MonoBlock(p, b, 0, env, n, m, n2, m2);
      case Call(_, _) => MonoCall(p, e, env, n, m, n2, m2);
      case Match(s, _) =>
        MonoExpr(p, s, env, n, m, n2, m2);
        var o := RefExpr(p, s, env, n, m);
        if o.Out? && o.fl == Normal {
          MonoArms(p, e, o.v, 0, env, n, m, n2, m2);
        }
      case Loop(_) => MonoLoop(p, e, m, m2, env, n, m, n2, m2);
      case While(_, _) => MonoWhile(p, e, m, m2, env, n, m, n2, m2);
      case _ =>
    }
  }

  lemma {:induction false} MonoAll(p: Program, e: Expr, i: nat, env: Env, n: nat, m: nat, n2: nat, m2: nat)
    requires n <= n2 && m <= m2 && i <= |Operands(e)| && RefAll(p, e, i, env, n, m) != Stop(Limit)
    ensures RefAll(p, e, i, env, n2, m2) == RefAll(p, e, i, env, n, m)
    decreases 2 * n, e, 1, |Operands(e)| - i
  {
    hide RefExpr;
    if i < |Operands(e)| {
      MonoExpr(p, Operands(e)[i], env, n, m, n2, m2);
      var o := RefExpr(p, Operands(e)[i], env, n, m);
      if o.Out? && o.fl == Normal {
        MonoAll(p, e, i + 1, env, n, m, n2, m2);
      }
    }
  }

  lemma {:induction false} MonoLogical(p: Program, e: Expr, env: Env, n: nat, m: nat, n2: nat, m2: nat)
    requires e.Binary? && (e.op.LogAnd? || e.op.LogOr?) && n <= n2 && m <= m2 && !RefLogical(p, e, env, n, m).Limit?
    ensures RefLogical(p, e, env, n2, m2) == RefLogical(p, e, env, n, m)
    decreases 2 * n, e, 1, 0
  {
    hide RefExpr;
    MonoExpr(p, e.l, env, n, m, n2, m2);
    var o := RefExpr(p, e.l, env, n, m);
    if o.Out? && o.fl == Normal && o.v.BoolV? && o.v.b != e.op.LogOr? {
      MonoExpr(p, e.r, env, n, m, n2, m2);
    }
  }

  lemma {:induction false} MonoCall(p: Program, e: Expr, env: Env, n: nat, m: nat, n2: nat, m2: nat)
    requires e.Call? && 0 < n <= n2 && m <= m2 && !RefCall(p, e, env, n, m).Limit?
    ensures RefCall(p, e, env, n2, m2) == RefCall(p, e, env, n, m)
    decreases 2 * n, e, 1, |e.args| + 1
  {
    hide RefAll, RefBlock;
    if Callable(p, e) {
      var f := p.fns[e.callee.sym];
      MonoAll(p, e, 0, env, n, m, n2, m2);
      var r := RefAll(p, e, 0, env, n, m);
      if r.Vals? && f.body.Some? {
        MonoBlock(p, f.body.value, 0, BindParams(f.params, r.vs), n - 1, m, n2 - 1, m2);
      }
    }
  }

  lemma {:induction false} MonoBlock(p: Program, b: Block, i: nat, env: Env, n: nat, m: nat, n2: nat, m2: nat)
    requires i <= |b.stmts| && n <= n2 && m <= m2 && !RefBlock(p, b, i, env, n, m).Limit?
    ensures RefBlock(p, b, i, env, n2, m2) == RefBlock(p, b, i, env, n, m)
    decreases 2 * n, b, 1, |b.stmts| - i
  {
    hide RefExpr, BindPattern, RefLeave;
    if i == |b.stmts| {
      if b.trailing.Some? {
        MonoExpr(p, b.trailing.value, env, n, m, n2, m2);
      }
    } else {
      match b.stmts[i]
      case Let(pat, init) =>
        if init.None? {
          MonoBlock(p, b, i + 1, env, n, m, n2, m2);
        } else {
          MonoExpr(p, init.value, env, n, m, n2, m2);
          var o := RefExpr(p, init.value, env, n, m);
          if o.Out? && o.fl == Normal && BindPattern(pat, o.v, env).Some? {
            MonoBlock(p, b, i + 1, BindPattern(pat, o.v, env).value, n, m, n2, m2);
          }
        }
      case Var(x, value) =>
        MonoExpr(p, value, env, n, m, n2, m2);
        var o := RefExpr(p, value, env, n, m);
        if o.Out? && o.fl == Normal {
          MonoBlock(p, b, i + 1, env[x := o.v], n, m, n2, m2);
        }
      case Return(result) => MonoLeave(p, result, Returns, env, n, m, n2, m2);
      case Break(result) => MonoLeave(p, result, Breaks, env, n, m, n2, m2);
      case ExprStmt(x) =>
        MonoExpr(p, x, env, n, m, n2, m2);
        var o := RefExpr(p, x, env, n, m);
        if o.Out? && o.fl == Normal {
          MonoBlock(p, b, i + 1, env, n, m, n2, m2);
        }
      case _ =>
    }
  }

  lemma {:induction false} MonoLeave(p: Program, r: Option<Expr>, fl: Flow, env: Env, n: nat, m: nat, n2: nat, m2: nat)
    requires n <= n2 && m <= m2 && !RefLeave(p, r, fl, env, n, m).Limit?
    ensures RefLeave(p, r, fl, env, n2, m2) == RefLeave(p, r, fl, env, n, m)
    decreases 2 * n, r, 3, 0
  {
    hide RefExpr;
    if r.Some? {
      MonoExpr(p, r.value, env, n, m, n2, m2);
    }
  }

  lemma {:induction false} MonoArms(p: Program, e: Expr, v: Value, i: nat, env: Env, n: nat, m: nat, n2: nat, m2: nat)
    requires e.Match? && i <= |e.arms| && n <= n2 && m <= m2 && !RefArms(p, e, v, i, env, n, m).Limit?
    ensures RefArms(p, e, v, i, env, n2, m2) == RefArms(p, e, v, i, env, n, m)
    decreases 2 * n, e, 1, |e.arms| - i
  {
    hide RefExpr, RefMatch, RefBlock;
    if i < |e.arms| {
      var arm := e.arms[i];
      MonoMatch(p, arm.pat, v, env, n, m, n2, m2);
      var t := RefMatch(p, arm.pat, v, env, n, m);
      if t.Trial? && t.ok {
        if !t.matched {
          MonoArms(p, e, v, i + 1, env, n, m, n2, m2);
        } else if arm.guard.None? {
          MonoBlock(p, arm.body, 0, t.env, n, m, n2, m2);
        } else {
          MonoExpr(p, arm.guard.value, t.env, n, m, n2, m2);
          var g := RefExpr(p, arm.guard.value, t.env, n, m);
          if g == Ok(BoolV(true)) {
            MonoBlock(p, arm.body, 0, t.env, n, m, n2, m2);
          } else if g.Out? && g.fl == Normal {
            MonoArms(p, e, v, i + 1, env, n, m, n2, m2);
          }
        }
      }
    }
  }

  lemma {:induction false} MonoMatch(p: Program, pat: Pattern, v: Value, env: Env, n: nat, m: nat, n2: nat, m2: nat)
    requires n <= n2 && m <= m2 && !RefMatch(p, pat, v, env, n, m).TrialLimit?
    ensures RefMatch(p, pat, v, env, n2, m2) == RefMatch(p, pat, v, env, n, m)
    decreases 2 * n, pat, 2, 0
  {
    hide RefExpr, RefSubs, RefAlts;
    match pat
    case TuplePat(subs) =>
      if v.TupleV? && |v.elems| == |subs| {
        MonoSubs(p, pat, v, 0, env, n, m, n2, m2);
      }
    case OrPat(_) => MonoAlts(p, pat, v, 0, env, n, m, n2, m2);
    case RangePat(lo, hi, _) =>
      MonoExpr(p, lo, env, n, m, n2, m2);
      var l := RefExpr(p, lo, env, n, m);
      if l.Out? && l.fl == Normal {
        MonoExpr(p, hi, env, n, m, n2, m2);
      }
    case _ =>
  }

  lemma {:induction false} MonoSubs(p: Program, pat: Pattern, v: Value, i: nat, env: Env, n: nat, m: nat, n2: nat, m2: nat)
    requires pat.TuplePat? && v.TupleV? && |v.elems| == |pat.subs| && i <= |pat.subs|
    requires n <= n2 && m <= m2 && !RefSubs(p, pat, v, i, env, n, m).TrialLimit?
    ensures RefSubs(p, pat, v, i, env, n2, m2) == RefSubs(p, pat, v, i, env, n, m)
    decreases 2 * n, pat, 1, |pat.subs| - i
  {
    hide RefMatch;
    if i < |pat.subs| {
      MonoMatch(p, pat.subs[i], v.elems[i], env, n, m, n2, m2);
      var t := RefMatch(p, pat.subs[i], v.elems[i], env, n, m);
      if t.Trial? && t.ok && t.matched {
        MonoSubs(p, pat, v, i + 1, t.env, n, m, n2, m2);
      }
    }
  }

  lemma {:induction false} MonoAlts(p: Program, pat: Pattern, v: Value, i: nat, env: Env, n: nat, m: nat, n2: nat, m2: nat)
    requires pat.OrPat? && i <= |pat.alts| && n <= n2 && m <= m2 && !RefAlts(p, pat, v, i, env, n, m).TrialLimit?
    ensures RefAlts(p, pat, v, i, env, n2, m2) == RefAlts(p, pat, v, i, env, n, m)
    decreases 2 * n, pat, 1, |pat.alts| - i
  {
    hide RefMatch;
    if i < |pat.alts| {
      MonoMatch(p, pat.alts[i], v, env, n, m, n2, m2);
      var t := RefMatch(p, pat.alts[i], v, env, n, m);
      if t.Trial? && t.ok && !t.matched {
        MonoAlts(p, pat, v, i + 1, t.env, n, m, n2, m2);
      }
    }
  }

  lemma {:induction false} MonoLoop(p: Program, e: Expr, i: nat, i2: nat, env: Env, n: nat, m: nat, n2: nat, m2: nat)
    requires e.Loop? && i <= i2 && n <= n2 && m <= m2 && !RefLoop(p, e, i, env, n, m).Limit?
    ensures RefLoop(p, e, i2, env, n2, m2) == RefLoop(p, e, i, env, n, m)
    decreases 2 * n, e, 1, i
  {
    hide RefBlock;
    MonoBlock(p, e.body, 0, env, n, m, n2, m2);
    var o := RefBlock(p, e.body, 0, env, n, m);
    if o.Out? && (o.fl.Normal? || o.fl.Continues?) {
      MonoLoop(p, e, i - 1, i2 - 1, env, n, m, n2, m2);
    }
  }

  lemma {:induction false} MonoWhile(p: Program, e: Expr, i: nat, i2: nat, env: Env, n: nat, m: nat, n2: nat, m2: nat)
    requires e.While? && i <= i2 && n <= n2 && m <= m2 && !RefWhile(p, e, i, env, n, m).Limit?
    ensures RefWhile(p, e, i2, env, n2, m2) == RefWhile(p, e, i, env, n, m)
    decreases 2 * n, e, 1, i
  {
    hide RefBlock, RefExpr;
    MonoExpr(p, e.cond, env, n, m, n2, m2);
    if RefExpr(p, e.cond, env, n, m) == Ok(BoolV(true)) {
      MonoBlock(p, e.body, 0, env, n, m, n2, m2);
      var o := RefBlock(p, e.body, 0, env, n, m);
      if o.Out? && (o.fl.Normal? || o.fl.Continues?) {
        MonoWhile(p, e, i - 1, i2 - 1, env, n, m, n2, m2);
      }
    }
  }
}
