// Values stay well formed through every evaluation: none is invalid, and every
// integer is canonical for its type.
module ConstantValues {
  import opened Integers
  import opened Literals
  import opened Constants

  // `typed`: integers are canonical as well.
  predicate Good(typed: bool, v: Value) {
    match v
    case Invalid => false
    case IntV(t, n) => typed ==> Canonical(t, n)
    case CharV(cp) => typed ==> Canonical(CharTy, cp)
    case TupleV(_, elems) => forall i :: 0 <= i < |elems| ==> Good(typed, elems[i])
    case _ => true
  }

  predicate GoodAll(typed: bool, vs: seq<Value>) {
    forall i :: 0 <= i < |vs| ==> Good(typed, vs[i])
  }

  predicate GoodEnv(typed: bool, env: Env) {
    forall x :: x in env ==> Good(typed, env[x])
  }

  predicate GoodOut(typed: bool, o: Out) {
    o.Out? && o.fl != Error ==> Good(typed, o.v)
  }

  // Evaluating the path comes to an enum variant: it is no constant or static,
  // such as one qualified by its module.
  predicate NamesVariant(p: Program, e: Expr)
    requires e.Path?
  {
    && |e.segs| == 2 && !(e.sym != 0 && (e.sym in p.consts || e.sym in p.statics))
    && FindVariant(p.enums, e.segs[0], e.segs[1]).Some?
  }

  // Then it has the enum's type, not an integer's.
  predicate VariantTyped(p: Program, e: Expr) {
    e.Path? && NamesVariant(p, e) ==> !IsInteger(e.ty)
  }

  function VariantsTyped(p: Program): Expr -> bool {
    (e: Expr) => VariantTyped(p, e)
  }

  predicate Typed(typed: bool, p: Program, e: Expr) {
    typed ==> AllPaths(VariantsTyped(p), e)
  }

  predicate TypedBlock(typed: bool, p: Program, b: Block) {
    typed ==> BlockPaths(VariantsTyped(p), b)
  }

  predicate TypedProgram(typed: bool, p: Program) {
    && (forall s :: s in p.consts && p.consts[s].Some? ==> Typed(typed, p, p.consts[s].value))
    && (forall s :: s in p.statics && p.statics[s].Some? ==> Typed(typed, p, p.statics[s].value))
    && (forall s :: s in p.fns && p.fns[s].body.Some? ==> TypedBlock(typed, p, p.fns[s].body.value))
    && (typed ==> forall i :: 0 <= i < |p.enums| ==> |p.enums[i].variants| < TWO64)
  }

  /******* Operators *******/

  lemma ComputeGood(typed: bool, e: Expr, vs: seq<Value>)
    requires Strict(e) && |vs| == |Operands(e)| && GoodAll(typed, vs)
    ensures GoodOut(typed, Compute(e, vs))
  {
    hide Apply, Negate, Complement, Convert, Canonical, SignedInt;
    match e
    case Unary(op, _) =>
      if vs[0].IntV? && typed {
        UnaryWraps(vs[0].ty, vs[0].n);
      }
    case Binary(op, _, _) =>
      if op.Arith? && vs[0].IntV? && vs[1].IntV? && vs[0].ty == vs[1].ty && typed {
        ResultsCanonical(op.op, vs[0].ty, vs[0].n, vs[1].n);
      }
    case Cast(_, t) => CastGood(typed, vs[0], t);
    case Tuple(_, t) =>
    case Field(_, i) =>
  }

  lemma CastGood(typed: bool, v: Value, t: Ty)
    requires Good(typed, v)
    ensures GoodOut(typed, ApplyCast(v, t))
  {
    hide Convert, Canonical;
    if typed {
      SmallCanonical(t);
      if v.IntV? {
        CastIsModular(v.ty, t, v.n);
      } else if v.CharV? {
        CastIsModular(CharTy, t, v.cp);
      }
    }
  }

  lemma SmallCanonical(t: Ty)
    ensures Canonical(t, 0) && Canonical(t, 1)
  {
    Widths();
  }

  lemma LiteralGood(typed: bool, text: string, t: Ty)
    requires ParseInteger(text).Some?
    ensures Good(typed, IntV(t, Mask(ParseInteger(text).value, Bits(t))))
  {
    hide ParseInteger, Mask;
    MaskIsMod(ParseInteger(text).value, t);
  }

  lemma CharGood(typed: bool, text: string)
    requires ParseChar(text).Some?
    ensures Good(typed, CharV(ParseChar(text).value))
  {
    Widths();
  }

  lemma {:induction false} FoundVariant(enums: seq<Enum>, name: string, variant: string)
    requires forall i :: 0 <= i < |enums| ==> |enums[i].variants| < TWO64
    ensures var r := FindVariant(enums, name, variant); r.Some? ==> r.value < TWO64
  {
    if enums != [] {
      VariantBound(enums[0].variants, variant);
      FoundVariant(enums[1..], name, variant);
    }
  }

  lemma {:induction false} VariantBound(variants: seq<string>, name: string)
    ensures var r := VariantIndex(variants, name); r.Some? ==> r.value < |variants|
  {
    if variants != [] {
      VariantBound(variants[1..], name);
    }
  }

  lemma VariantGood(typed: bool, p: Program, e: Expr)
    requires e.Path? && NamesVariant(p, e) && Typed(typed, p, e) && TypedProgram(typed, p)
    ensures Good(typed, IntV(e.ty, FindVariant(p.enums, e.segs[0], e.segs[1]).value))
  {
    hide Pow2, FindVariant;
    if typed {
      assert VariantTyped(p, e);
      FoundVariant(p.enums, e.segs[0], e.segs[1]);
      Widths();
    }
  }

  lemma {:induction false} BindGood(typed: bool, pat: Pattern, v: Value, env: Env)
    requires Good(typed, v) && GoodEnv(typed, env) && BindPattern(pat, v, env).Some?
    ensures GoodEnv(typed, BindPattern(pat, v, env).value)
    decreases pat, 1, 0
  {
    if pat.TuplePat? {
      BindSubsGood(typed, pat, v, 0, env);
    }
  }

  lemma {:induction false} BindSubsGood(typed: bool, pat: Pattern, v: Value, i: nat, env: Env)
    requires pat.TuplePat? && v.TupleV? && |v.elems| == |pat.subs| && i <= |pat.subs|
    requires Good(typed, v) && GoodEnv(typed, env) && BindSubs(pat, v, i, env).Some?
    ensures GoodEnv(typed, BindSubs(pat, v, i, env).value)
    decreases pat, 0, |pat.subs| - i
  {
    if i < |pat.subs| {
      BindGood(typed, pat.subs[i], v.elems[i], env);
      BindSubsGood(typed, pat, v, i + 1, BindPattern(pat.subs[i], v.elems[i], env).value);
    }
  }

  lemma {:induction false} ParamsGood(typed: bool, params: seq<string>, vs: seq<Value>)
    requires |params| == |vs| && GoodAll(typed, vs)
    ensures GoodEnv(typed, BindParams(params, vs))
  {
    if params != [] {
      ParamsGood(typed, params[..|params| - 1], vs[..|vs| - 1]);
    }
  }

  /******* Evaluation *******/

  lemma {:induction false} GoodConst(typed: bool, p: Program, s: nat, n: nat, m: nat)
    requires s in p.consts && TypedProgram(typed, p)
    ensures GoodOut(typed, RefConst(p, s, n, m))
    ensures RefConst(p, s, n, m).Out? ==> RefConst(p, s, n, m).fl == Normal
    decreases 2 * n + 1
  {
    if p.consts[s].Some? {
      GoodExpr(typed, p, p.consts[s].value, map[], n, m);
    }
  }

  lemma {:induction false} GoodStatic(typed: bool, p: Program, s: nat, n: nat, m: nat)
    requires s in p.statics && TypedProgram(typed, p)
    ensures GoodOut(typed, RefStatic(p, s, n, m))
    ensures RefStatic(p, s, n, m).Out? && p.statics[s].Some? ==> RefStatic(p, s, n, m).fl == Normal
    decreases 2 * n + 1
  {
    if p.statics[s].Some? {
      GoodExpr(typed, p, p.statics[s].value, map[], n, m);
    }
  }

  lemma {:induction false} GoodExpr(typed: bool, p: Program, e: Expr, env: Env, n: nat, m: nat)
    requires TypedProgram(typed, p) && Typed(typed, p, e) && GoodEnv(typed, env)
    ensures GoodOut(typed, RefExpr(p, e, env, n, m))
    decreases 2 * n, e, 2, 0
  {
    hide RefConst, RefStatic, RefAll, RefLogical, RefCall, RefBlock, RefArms, RefLoop, RefWhile, Compute, ParseInteger, ParseChar, FindVariant, Good, TypedProgram, Mask;
    PlainGood(typed);
    if n > 0 {
      if Strict(e) {
        GoodOperands(typed, p, e, 0, env, n, m);
        var r := RefAll(p, e, 0, env, n, m);
        if r.Vals? {
          ComputeGood(typed, e, r.vs);
        }
      } else {
        match e
        case IntLit(text, t) =>
          if ParseInteger(text).Some? {
            LiteralGood(typed, text, t);
          }
        case CharLit(text) =>
          if ParseChar(text).Some? {
            CharGood(typed, text);
          }
        case Path(segs, sym, _) =>
          if sym in p.consts {
            GoodConst(typed, p, sym, n - 1, m);
          }
          if sym in p.statics {
            GoodStatic(typed, p, sym, n - 1, m);
          }
          if NamesVariant(p, e) {
            VariantGood(typed, p, e);
          }
        case Binary(_, _, _) => GoodLogical(typed, p, e, env, n, m);
        case If(c, b, els) =>
          GoodExpr(typed, p, c, env, n, m);
          GoodBlock(typed, p, b, 0, env, n, m);
          if els.Some? {
            GoodExpr(typed, p, els.value, env, n, m);
          }
        case BlockExpr(b) => GoodBlock(typed, p, b, 0, env, n, m);
        case Call(_, _) => GoodCall(typed, p, e, env, n, m);
        case Match(s, _) =>
          GoodExpr(typed, p, s, env, n, m);
          var o := RefExpr(p, s, env, n, m);
          if o.Out? && o.fl == Normal {
            GoodArms(typed, p, e, o.v, 0, env, n, m);
          }
        case Loop(_) => GoodLoop(typed, p, e, m, env, n, m);
        case While(_, _) => GoodWhile(typed, p, e, m, env, n, m);
        case _ =>
      }
    }
  }

  lemma PlainGood(typed: bool)
    ensures Good(typed, UnitV) && forall b :: Good(typed, BoolV(b))
  {
  }

  lemma {:induction false} GoodOperands(typed: bool, p: Program, e: Expr, i: nat, env: Env, n: nat, m: nat)
    requires TypedProgram(typed, p) && Typed(typed, p, e) && GoodEnv(typed, env)
    requires i <= |Operands(e)| && (Strict(e) || e.Call?)
    ensures var r := RefAll(p, e, i, env, n, m);
      if r.Vals? then GoodAll(typed, r.vs) else GoodOut(typed, r.o)
    decreases 2 * n, e, 1, |Operands(e)| - i
  {
    hide RefExpr, TypedProgram, Good;
    if i < |Operands(e)| {
      assert Typed(typed, p, Operands(e)[i]);
      GoodExpr(typed, p, Operands(e)[i], env, n, m);
      GoodOperands(typed, p, e, i + 1, env, n, m);
    }
  }

  lemma {:induction false} GoodLogical(typed: bool, p: Program, e: Expr, env: Env, n: nat, m: nat)
    requires TypedProgram(typed, p) && Typed(typed, p, e) && GoodEnv(typed, env)
    requires e.Binary? && (e.op.LogAnd? || e.op.LogOr?)
    ensures GoodOut(typed, RefLogical(p, e, env, n, m))
    decreases 2 * n, e, 1, 0
  {
    hide RefExpr, TypedProgram;
    GoodExpr(typed, p, e.l, env, n, m);
    GoodExpr(typed, p, e.r, env, n, m);
  }

  lemma {:induction false} GoodCall(typed: bool, p: Program, e: Expr, env: Env, n: nat, m: nat)
    requires TypedProgram(typed, p) && Typed(typed, p, e) && GoodEnv(typed, env)
    requires e.Call? && n > 0
    ensures GoodOut(typed, RefCall(p, e, env, n, m))
    decreases 2 * n, e, 1, |e.args| + 1
  {
    hide RefAll, RefBlock, Good;
    if Callable(p, e) {
      var f := p.fns[e.callee.sym];
      GoodOperands(typed, p, e, 0, env, n, m);
      var r := RefAll(p, e, 0, env, n, m);
      if r.Vals? && f.body.Some? {
        ParamsGood(typed, f.params, r.vs);
        GoodBlock(typed, p, f.body.value, 0, BindParams(f.params, r.vs), n - 1, m);
      }
    }
  }

  lemma {:induction false} GoodBlock(typed: bool, p: Program, b: Block, i: nat, env: Env, n: nat, m: nat)
    requires TypedProgram(typed, p) && TypedBlock(typed, p, b) && GoodEnv(typed, env) && i <= |b.stmts|
    ensures GoodOut(typed, RefBlock(p, b, i, env, n, m))
    decreases 2 * n, b, 1, |b.stmts| - i
  {
    hide RefExpr, BindPattern, RefLeave, Good, TypedProgram;
    PlainGood(typed);
    if i == |b.stmts| {
      if b.trailing.Some? {
        GoodExpr(typed, p, b.trailing.value, env, n, m);
      }
    } else {
      assert typed ==> StmtPaths(VariantsTyped(p), b.stmts[i]);
      match b.stmts[i]
      case Let(pat, init) =>
        if init.None? {
          GoodBlock(typed, p, b, i + 1, env, n, m);
        } else {
          GoodExpr(typed, p, init.value, env, n, m);
          var o := RefExpr(p, init.value, env, n, m);
          if o.Out? && o.fl == Normal && BindPattern(pat, o.v, env).Some? {
            BindGood(typed, pat, o.v, env);
            GoodBlock(typed, p, b, i + 1, BindPattern(pat, o.v, env).value, n, m);
          }
        }
      case Var(x, value) =>
        GoodExpr(typed, p, value, env, n, m);
        var o := RefExpr(p, value, env, n, m);
        if o.Out? && o.fl == Normal {
          GoodBlock(typed, p, b, i + 1, env[x := o.v], n, m);
        }
      case Return(result) => GoodLeave(typed, p, result, Returns, env, n, m);
      case Break(result) => GoodLeave(typed, p, result, Breaks, env, n, m);
      case ExprStmt(x) =>
        GoodExpr(typed, p, x, env, n, m);
        GoodBlock(typed, p, b, i + 1, env, n, m);
      case _ =>
    }
  }

  lemma {:induction false} GoodLeave(typed: bool, p: Program, r: Option<Expr>, fl: Flow, env: Env, n: nat, m: nat)
    requires TypedProgram(typed, p) && (r.Some? ==> Typed(typed, p, r.value)) && GoodEnv(typed, env)
    ensures GoodOut(typed, RefLeave(p, r, fl, env, n, m))
    decreases 2 * n, r, 3, 0
  {
    hide RefExpr, TypedProgram;
    if r.Some? {
      GoodExpr(typed, p, r.value, env, n, m);
    }
  }

  lemma {:induction false} GoodArms(typed: bool, p: Program, e: Expr, v: Value, i: nat, env: Env, n: nat, m: nat)
    requires TypedProgram(typed, p) && Typed(typed, p, e) && GoodEnv(typed, env) && Good(typed, v)
    requires e.Match? && i <= |e.arms|
    ensures GoodOut(typed, RefArms(p, e, v, i, env, n, m))
    decreases 2 * n, e, 1, |e.arms| - i
  {
    hide RefExpr, RefMatch, RefBlock, Good, TypedProgram;
    if i < |e.arms| {
      var arm := e.arms[i];
      assert typed ==> ArmPaths(VariantsTyped(p), arm);
      GoodMatch(typed, p, arm.pat, v, env, n, m);
      GoodArms(typed, p, e, v, i + 1, env, n, m);
      var t := RefMatch(p, arm.pat, v, env, n, m);
      if t.Trial? {
        GoodBlock(typed, p, arm.body, 0, t.env, n, m);
        if arm.guard.Some? {
          GoodExpr(typed, p, arm.guard.value, t.env, n, m);
        }
      }
    }
  }

  lemma {:induction false} GoodMatch(typed: bool, p: Program, pat: Pattern, v: Value, env: Env, n: nat, m: nat)
    requires TypedProgram(typed, p) && (typed ==> PatternPaths(VariantsTyped(p), pat)) && GoodEnv(typed, env) && Good(typed, v)
    ensures var t := RefMatch(p, pat, v, env, n, m); t.Trial? ==> GoodEnv(typed, t.env)
    decreases 2 * n, pat, 2, 0
  {
    hide RefExpr, RefSubs, RefAlts, TypedProgram;
    match pat
    case TuplePat(subs) =>
      if v.TupleV? && |v.elems| == |subs| {
        GoodSubs(typed, p, pat, v, 0, env, n, m);
      }
    case OrPat(_) => GoodAlts(typed, p, pat, v, 0, env, n, m);
    case _ =>
  }

  lemma {:induction false} GoodSubs(typed: bool, p: Program, pat: Pattern, v: Value, i: nat, env: Env, n: nat, m: nat)
    requires TypedProgram(typed, p) && (typed ==> PatternPaths(VariantsTyped(p), pat)) && GoodEnv(typed, env) && Good(typed, v)
    requires pat.TuplePat? && v.TupleV? && |v.elems| == |pat.subs| && i <= |pat.subs|
    ensures var t := RefSubs(p, pat, v, i, env, n, m); t.Trial? ==> GoodEnv(typed, t.env)
    decreases 2 * n, pat, 1, |pat.subs| - i
  {
    hide RefMatch, TypedProgram;
    if i < |pat.subs| {
      GoodMatch(typed, p, pat.subs[i], v.elems[i], env, n, m);
      var t := RefMatch(p, pat.subs[i], v.elems[i], env, n, m);
      if t.Trial? && t.ok && t.matched {
        GoodSubs(typed, p, pat, v, i + 1, t.env, n, m);
      }
    }
  }

  lemma {:induction false} GoodAlts(typed: bool, p: Program, pat: Pattern, v: Value, i: nat, env: Env, n: nat, m: nat)
    requires TypedProgram(typed, p) && (typed ==> PatternPaths(VariantsTyped(p), pat)) && GoodEnv(typed, env) && Good(typed, v)
    requires pat.OrPat? && i <= |pat.alts|
    ensures var t := RefAlts(p, pat, v, i, env, n, m); t.Trial? ==> GoodEnv(typed, t.env)
    decreases 2 * n, pat, 1, |pat.alts| - i
  {
    hide RefMatch, TypedProgram;
    if i < |pat.alts| {
      GoodMatch(typed, p, pat.alts[i], v, env, n, m);
      var t := RefMatch(p, pat.alts[i], v, env, n, m);
      if t.Trial? && t.ok && !t.matched {
        GoodAlts(typed, p, pat, v, i + 1, t.env, n, m);
      }
    }
  }

  lemma {:induction false} GoodLoop(typed: bool, p: Program, e: Expr, i: nat, env: Env, n: nat, m: nat)
    requires TypedProgram(typed, p) && Typed(typed, p, e) && GoodEnv(typed, env) && e.Loop?
    ensures GoodOut(typed, RefLoop(p, e, i, env, n, m))
    decreases 2 * n, e, 1, i
  {
    hide RefBlock, TypedProgram;
    if i > 0 {
      GoodBlock(typed, p, e.body, 0, env, n, m);
      GoodLoop(typed, p, e, i - 1, env, n, m);
    }
  }

  lemma {:induction false} GoodWhile(typed: bool, p: Program, e: Expr, i: nat, env: Env, n: nat, m: nat)
    requires TypedProgram(typed, p) && Typed(typed, p, e) && GoodEnv(typed, env) && e.While?
    ensures GoodOut(typed, RefWhile(p, e, i, env, n, m))
    decreases 2 * n, e, 1, i
  {
    hide RefBlock, RefExpr, TypedProgram;
    if i > 0 {
      GoodExpr(typed, p, e.cond, env, n, m);
      GoodBlock(typed, p, e.body, 0, env, n, m);
      GoodWhile(typed, p, e, i - 1, env, n, m);
    }
  }
}
