// Which parts of a constant expression are evaluated, with which names bound,
// and where control goes.
module ConstantControl {
  import opened Integers
  import opened Literals
  import opened Constants

  /******* Choices *******/

  // The condition decides, and the branch not taken is not looked at.
  lemma IfChooses(p: Program, c: Expr, yes: Block, no: Expr, env: Env, n: nat, m: nat)
    requires n > 0
    ensures RefExpr(p, c, env, n, m) == Ok(BoolV(true)) ==>
      && RefExpr(p, If(c, yes, Some(no)), env, n, m) == RefExpr(p, BlockExpr(yes), env, n, m)
      && RefExpr(p, If(c, yes, None), env, n, m) == RefExpr(p, BlockExpr(yes), env, n, m)
    ensures RefExpr(p, c, env, n, m) == Ok(BoolV(false)) ==>
      && RefExpr(p, If(c, yes, Some(no)), env, n, m) == RefExpr(p, no, env, n, m)
      && RefExpr(p, If(c, yes, None), env, n, m) == Ok(UnitV)
  {
    hide RefBlock;
  }

  // An arm is passed by: its pattern does not match, or its guard is not true.
  predicate PassedBy(p: Program, arm: Arm, v: Value, env: Env, n: nat, m: nat) {
    match RefMatch(p, arm.pat, v, env, n, m)
    case Trial(matched, ok, env2) =>
      ok && (matched ==> arm.guard.Some? && Refuses(RefExpr(p, arm.guard.value, env2, n, m)))
    case _ => false
  }

  predicate Refuses(o: Out) {
    o.Out? && o.fl == Normal && o.v != BoolV(true)
  }

  // An arm is taken, with these bindings.
  predicate Taken(p: Program, arm: Arm, v: Value, env: Env, env2: Env, n: nat, m: nat) {
    && RefMatch(p, arm.pat, v, env, n, m) == Trial(true, true, env2)
    && (arm.guard.Some? ==> RefExpr(p, arm.guard.value, env2, n, m) == Ok(BoolV(true)))
  }

  lemma {:induction false} ArmsPassed(p: Program, s: Expr, arms: seq<Arm>, v: Value, i: nat, k: nat, env: Env, n: nat, m: nat)
    requires i <= k <= |arms| && forall j :: i <= j < k ==> PassedBy(p, arms[j], v, env, n, m)
    ensures RefArms(p, Match(s, arms), v, i, env, n, m) == RefArms(p, Match(s, arms), v, k, env, n, m)
    decreases k - i
  {
    hide RefMatch, RefExpr, RefBlock;
    if i < k {
      assert PassedBy(p, arms[i], v, env, n, m);
      ArmsPassed(p, s, arms, v, i + 1, k, env, n, m);
    }
  }

  // The first arm that is not passed by is the one; its body sees the bindings
  // of its own pattern only. Where all are passed by there is a diagnostic.
  lemma FirstArmWins(p: Program, s: Expr, arms: seq<Arm>, v: Value, k: nat, env: Env, env2: Env, n: nat, m: nat)
    requires n > 0 && RefExpr(p, s, env, n, m) == Ok(v)
    requires k <= |arms| && forall j :: 0 <= j < k ==> PassedBy(p, arms[j], v, env, n, m)
    ensures k == |arms| ==> RefExpr(p, Match(s, arms), env, n, m) == Stuck
    ensures k < |arms| && Taken(p, arms[k], v, env, env2, n, m) ==>
      RefExpr(p, Match(s, arms), env, n, m) == RefExpr(p, BlockExpr(arms[k].body), env2, n, m)
  {
    ArmsPassed(p, s, arms, v, 0, k, env, n, m);
    MatchIs(p, s, arms, v, env, n, m);
    BlockIs(p, if k < |arms| then arms[k].body else Block([], None), env2, n, m);
    hide RefMatch, RefExpr, RefBlock;
  }

  lemma MatchIs(p: Program, s: Expr, arms: seq<Arm>, v: Value, env: Env, n: nat, m: nat)
    requires n > 0 && RefExpr(p, s, env, n, m) == Ok(v)
    ensures RefExpr(p, Match(s, arms), env, n, m) == RefArms(p, Match(s, arms), v, 0, env, n, m)
  {
    hide RefArms;
  }

  lemma BlockIs(p: Program, b: Block, env: Env, n: nat, m: nat)
    requires n > 0
    ensures RefExpr(p, BlockExpr(b), env, n, m) == RefBlock(p, b, 0, env, n, m)
  {
    hide RefBlock;
  }

  /******* Patterns *******/

  // A literal pattern matches its own value only.
  lemma LiteralPatterns(p: Program, text: string, b: bool, v: Value, u: nat, env: Env, n: nat, m: nat)
    ensures RefMatch(p, BoolPat(b), v, env, n, m) == Trial(v == BoolV(b), true, env)
    ensures v.IntV? && ParseInteger(text) == Some(u) ==>
      RefMatch(p, IntPat(text), v, env, n, m) == Trial(v.n == Mask(u, Bits(v.ty)), true, env)
    ensures RefMatch(p, Wild, v, env, n, m) == Trial(true, true, env)
    ensures !v.IntV? ==> RefMatch(p, IntPat(text), v, env, n, m) == Trial(false, true, env)
  {
  }

  lemma NamePattern(p: Program, x: string, v: Value, env: Env, n: nat, m: nat)
    ensures var t := RefMatch(p, Bind(x), v, env, n, m);
      && t.Trial? && t.ok && t.matched && x in t.env && t.env[x] == v
      && forall y :: y != x ==> (y in t.env <==> y in env) && (y in env ==> t.env[y] == env[y])
  {
  }

  lemma {:induction false} AltsTried(p: Program, alts: seq<Pattern>, v: Value, i: nat, k: nat, env: Env, n: nat, m: nat)
    requires i <= k <= |alts| && forall j :: i <= j < k ==> RefMatch(p, alts[j], v, env, n, m) == Trial(false, true, env)
    ensures RefAlts(p, OrPat(alts), v, i, env, n, m) == RefAlts(p, OrPat(alts), v, k, env, n, m)
    decreases k - i
  {
    hide RefMatch;
    if i < k {
      AltsTried(p, alts, v, i + 1, k, env, n, m);
    }
  }

  // The first alternative that matches decides, if those before it bind nothing.
  lemma FirstAlternative(p: Program, alts: seq<Pattern>, v: Value, k: nat, env: Env, n: nat, m: nat)
    requires k <= |alts| && forall j :: 0 <= j < k ==> RefMatch(p, alts[j], v, env, n, m) == Trial(false, true, env)
    ensures k == |alts| ==> RefMatch(p, OrPat(alts), v, env, n, m) == Trial(false, true, env)
    ensures k < |alts| && RefMatch(p, alts[k], v, env, n, m).Trial? && RefMatch(p, alts[k], v, env, n, m).matched
              && RefMatch(p, alts[k], v, env, n, m).ok ==>
      RefMatch(p, OrPat(alts), v, env, n, m) == RefMatch(p, alts[k], v, env, n, m)
  {
    AltsTried(p, alts, v, 0, k, env, n, m);
    assert RefMatch(p, OrPat(alts), v, env, n, m) == RefAlts(p, OrPat(alts), v, 0, env, n, m);
    hide RefMatch;
  }

  /******* Statements *******/

  // What a block is worth after its first statement.
  lemma {:induction false} BlockFrom(p: Program, b: Block, s: Stmt, i: nat, env: Env, n: nat, m: nat)
    requires i <= |b.stmts|
    ensures RefBlock(p, Block([s] + b.stmts, b.trailing), i + 1, env, n, m) == RefBlock(p, b, i, env, n, m)
    decreases |b.stmts| - i
  {
    hide RefExpr, RefLeave, BindPattern;
    if i < |b.stmts| {
      var c := Block([s] + b.stmts, b.trailing);
      assert c.stmts[i + 1] == b.stmts[i];
      var j := i + 1;
      forall env2 {:trigger RefBlock(p, b, j, env2, n, m)}
        ensures RefBlock(p, c, i + 2, env2, n, m) == RefBlock(p, b, j, env2, n, m)
      {
        BlockFrom(p, b, s, i + 1, env2, n, m);
      }
    }
  }

  // A let or var binds its value for what follows; an expression is evaluated
  // and its value dropped; `return`, `break` and `continue` leave what follows
  // unevaluated.
  lemma StatementsFlow(p: Program, x: string, e: Expr, v: Value, b: Block, env: Env, n: nat, m: nat)
    requires n > 0 && RefExpr(p, e, env, n, m) == Ok(v)
    ensures var bound := RefExpr(p, BlockExpr(b), env[x := v], n, m);
      && RefExpr(p, BlockExpr(Block([Let(Bind(x), Some(e))] + b.stmts, b.trailing)), env, n, m) == bound
      && RefExpr(p, BlockExpr(Block([Var(x, e)] + b.stmts, b.trailing)), env, n, m) == bound
    ensures RefExpr(p, BlockExpr(Block([ExprStmt(e)] + b.stmts, b.trailing)), env, n, m) == RefExpr(p, BlockExpr(b), env, n, m)
    ensures RefExpr(p, BlockExpr(Block([Return(Some(e))] + b.stmts, b.trailing)), env, n, m) == Out(v, Returns)
    ensures RefExpr(p, BlockExpr(Block([Break(Some(e))] + b.stmts, b.trailing)), env, n, m) == Out(v, Breaks)
    ensures RefExpr(p, BlockExpr(Block([Continue] + b.stmts, b.trailing)), env, n, m) == Out(UnitV, Continues)
    ensures RefExpr(p, BlockExpr(Block([], Some(e))), env, n, m) == Ok(v)
    ensures RefExpr(p, BlockExpr(Block([], None)), env, n, m) == Ok(UnitV)
  {
    LeaveIs(p, e, v, Returns, env, n, m);
    LeaveIs(p, e, v, Breaks, env, n, m);
    FirstStatement(p, Let(Bind(x), Some(e)), b, env, env[x := v], n, m);
    FirstStatement(p, Var(x, e), b, env, env[x := v], n, m);
    FirstStatement(p, ExprStmt(e), b, env, env, n, m);
    FirstStatement(p, Return(Some(e)), b, env, env, n, m);
    FirstStatement(p, Break(Some(e)), b, env, env, n, m);
    FirstStatement(p, Continue, b, env, env, n, m);
    BlockIs(p, Block([], Some(e)), env, n, m);
    BlockIs(p, Block([], None), env, n, m);
    hide RefExpr, RefLeave;
  }

  lemma LeaveIs(p: Program, e: Expr, v: Value, fl: Flow, env: Env, n: nat, m: nat)
    requires RefExpr(p, e, env, n, m) == Ok(v)
    ensures RefLeave(p, Some(e), fl, env, n, m) == Out(v, fl)
  {
    hide RefExpr;
  }

  lemma FirstStatement(p: Program, s: Stmt, b: Block, env: Env, env2: Env, n: nat, m: nat)
    requires n > 0
    ensures var c := Block([s] + b.stmts, b.trailing);
      && RefExpr(p, BlockExpr(c), env, n, m) == RefBlock(p, c, 0, env, n, m) && c.stmts[0] == s
      && RefBlock(p, c, 1, env2, n, m) == RefExpr(p, BlockExpr(b), env2, n, m)
  {
    BlockFrom(p, b, s, 0, env2, n, m);
    BlockIs(p, Block([s] + b.stmts, b.trailing), env, n, m);
    BlockIs(p, b, env2, n, m);
  }

  // A local name is looked up before constants and statics.
  lemma LocalsFirst(p: Program, x: string, sym: nat, t: Ty, env: Env, n: nat, m: nat)
    requires n > 0
    ensures x in env ==> RefExpr(p, Path([x], sym, t), env, n, m) == Ok(env[x])
    ensures x !in env && sym != 0 && sym in p.consts ==> RefExpr(p, Path([x], sym, t), env, n, m) == RefConst(p, sym, n - 1, m)
    ensures x !in env && sym !in p.consts && sym !in p.statics ==> RefExpr(p, Path([x], sym, t), env, n, m) == Stuck
  {
    hide RefConst, RefStatic;
  }

  /******* Calls *******/

  // The function, called with these arguments, comes to o.
  predicate Becomes(p: Program, f: Fn, vs: seq<Value>, n: nat, m: nat, o: Out) {
    && f.isConst && !f.isExtern && |f.params| == |vs| && f.body.Some?
    && RefExpr(p, BlockExpr(f.body.value), BindParams(f.params, vs), n, m) == o
  }

  // A constant function's body sees its parameters only; its value is what the
  // body is worth or returns. No other function is called.
  lemma CallGives(p: Program, callee: Expr, args: seq<Expr>, vs: seq<Value>, v: Value, fl: Flow, env: Env, n: nat, m: nat)
    requires n > 1 && callee.Path? && callee.sym in p.fns && |args| == |vs|
    requires forall i :: 0 <= i < |args| ==> RefExpr(p, args[i], env, n, m) == Ok(vs[i])
    ensures var f := p.fns[callee.sym];
      var o := RefExpr(p, Call(callee, args), env, n, m);
      && (!f.isConst || f.isExtern || |f.params| != |args| || f.body.None? ==> o == Stuck)
      && (Becomes(p, f, vs, n - 1, m, Out(v, fl)) && (fl == Normal || fl == Returns) ==> o == Ok(v))
  {
    ArgumentsAre(p, callee, args, vs, 0, env, n, m);
    assert vs[0..] == vs;
    CallIs(p, callee, args, env, n, m);
    var f := p.fns[callee.sym];
    if f.body.Some? && |f.params| == |vs| {
      BlockIs(p, f.body.value, BindParams(f.params, vs), n - 1, m);
    }
    hide RefExpr, RefBlock, RefAll, BindParams;
  }

  lemma CallIs(p: Program, callee: Expr, args: seq<Expr>, env: Env, n: nat, m: nat)
    requires n > 0
    ensures RefExpr(p, Call(callee, args), env, n, m) == RefCall(p, Call(callee, args), env, n, m)
  {
    hide RefCall;
  }

  lemma {:induction false} ArgumentsAre(p: Program, callee: Expr, args: seq<Expr>, vs: seq<Value>, i: nat, env: Env, n: nat, m: nat)
    requires |args| == |vs| && i <= |args| && forall k :: 0 <= k < |args| ==> RefExpr(p, args[k], env, n, m) == Ok(vs[k])
    ensures RefAll(p, Call(callee, args), i, env, n, m) == Vals(vs[i..])
    decreases |args| - i
  {
    hide RefExpr;
    if i < |args| {
      ArgumentsAre(p, callee, args, vs, i + 1, env, n, m);
      assert vs[i..] == [vs[i]] + vs[i + 1..];
    }
  }
}
