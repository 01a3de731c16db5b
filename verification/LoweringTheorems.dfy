// The theorems about lowering a function.
module LoweringTheorems {
  import opened Mir
  import opened Hir
  import opened Lowering
  import opened Discipline
  import opened Simulation
  import opened Acceptance

  /******* Functions *******/

  datatype Fn = Fn(generic: bool, params: seq<string>, body: Body)

  function ParamInsts(n: nat): (insts: seq<Inst>)
    ensures |insts| == n && forall i :: 0 <= i < n ==> insts[i] == Param(i + 1, i)
  {
    seq(n, i requires 0 <= i < n => Param(i + 1, i))
  }

  function ParamRegs(n: nat): (rs: seq<Reg>)
    ensures |rs| == n && forall i :: 0 <= i < n ==> rs[i] == i + 1
  {
    seq(n, i requires 0 <= i < n => i + 1)
  }

  function ParamState(n: nat): State {
    State([Block(ParamInsts(n), NoTerm)], n + 1, 1)
  }

  function ParamMap(names: seq<string>): map<string, Reg> {
    BindAll(map[], names, ParamRegs(|names|))
  }

  // lowerFn up to validation: parameters, then a body that is a lone `return e;`.
  function LowerFn(p: Program, fn: Fn): Result {
    if fn.generic || !fn.body.ReturnOnly? then Rejected
    else
      var r := LowerExpr(p, ParamState(|fn.params|), fn.body.value, ParamMap(fn.params));
      if r.Done? then Done(r.reg, Seal(r.state, Return(r.reg))) else r
  }

  ghost predicate Accepted(p: Program, fn: Fn) {
    LowerFn(p, fn).Done? && Valid(LowerFn(p, fn).state.blocks)
  }

  function Code(p: Program, fn: Fn): seq<Block>
    requires LowerFn(p, fn).Done?
  {
    LowerFn(p, fn).state.blocks
  }

  const START := Running(1, 0, map[], [])

  lemma ParamStart(names: seq<string>)
    ensures var s := ParamState(|names|); Open(s) && s.AtLast() && ParamsOk(ParamMap(names), s)
    ensures var s := ParamState(|names|); Checked(s.blocks) && AvailAll(s, ParamMap(names))
  {
    var n := |names|;
    var s := ParamState(n);
    BindAllOk(map[], names, ParamRegs(n), s);
    forall i | 0 <= i < n
      ensures Avail(s, ParamRegs(n)[i])
    {
      assert DefinedAt(s.blocks, 0, n, i + 1, 0, i);
    }
    AvailBindAll(s, map[], names, ParamRegs(n));
    assert BlockChecked(s.blocks, 0);
  }

  /******* Validation accepts exactly the disciplined bodies *******/

  // A function that lowers without a diagnostic is accepted by Validate if and
  // only if no `?`, `?.` or `match` in it branches from a block other than the
  // one allocated last.
  lemma AcceptedIff(p: Program, fn: Fn)
    requires LowerFn(p, fn).Done?
    ensures Accepted(p, fn) <==> Plan(p, fn.body.value, true).Some?
  {
    var s, e, params := ParamState(|fn.params|), fn.body.value, ParamMap(fn.params);
    ParamStart(fn.params);
    FrameExpr(p, s, e, params);
    DisciplineExpr(p, s, e, params);
    var r := LowerExpr(p, s, e, params);
    var t := Seal(r.state, Return(r.reg));
    if Plan(p, e, true).Some? {
      CheckedExpr(p, s, e, params);
      SealChecked(r.state, Return(r.reg));
      forall b | 0 <= b < |t.blocks|
        ensures InstsOk(t.blocks, b) && TermOk(t.blocks, b)
      {
        assert BlockChecked(t.blocks, b);
      }
    } else {
      var i: nat :| Abandoned(r.state, i);
      assert t.blocks[i].term.NoTerm? && !TermOk(t.blocks, i);
    }
  }

  /******* Accepted functions run *******/

  // The machine's final configuration for an outcome of the body.
  ghost predicate Final(c: Config, o: Outcome) {
    match o
    case Value(v, tr) => c == Returned(v, tr)
    case Early(v, tr) => c == Returned(v, tr)
    case Trap(tr) => c == Trapped(tr)
    case Stuck => false
  }

  // An accepted function, run on any arguments against any world, ends in the
  // lowered reading of its body. In particular it never reads an unwritten
  // register and never leaves the function.
  lemma AcceptedRuns(p: Program, fn: Fn, w: World, args: seq<Int64>) returns (end: Config)
    requires Accepted(p, fn) && |args| == |fn.params|
    ensures Reaches(Code(p, fn), w, args, START, end)
    ensures Final(end, Eval(p, w, Lowered, fn.body.value, BindAll(map[], fn.params, args), []))
  {
    var s, e, params := ParamState(|fn.params|), fn.body.value, ParamMap(fn.params);
    var m := Machine(Code(p, fn), w, args);
    ParamStart(fn.params);
    AcceptedIff(p, fn);
    SubExpr(p, s, e, params);
    var r := LowerExpr(p, s, e, params);
    ExtendsBeforeReturn(r.state, r.reg);
    assert m.blocks[0].insts[..|args|] == ParamInsts(|args|) by {
      ExtendsBack(m.blocks, s, r.state);
    }
    var regs := SimParams(m, |args|);
    AgreeBindAll(map[], map[], fn.params, ParamRegs(|args|), args, regs);
    var env := BindAll(map[], fn.params, args);
    var regs' := SimExpr(m, p, s, e, params, env, regs, []);
    var o := Eval(p, w, Lowered, e, env, []);
    if o.Value? {
      end := Returned(o.v, o.trace);
      m.Steps(At(r.state, regs', o.trace), end);
      m.Trans(At(s, regs, []), At(r.state, regs', o.trace), end);
    } else {
      end := if o.Early? then Returned(o.v, o.trace) else Trapped(o.trace);
    }
    m.Trans(START, At(s, regs, []), end);
  }

  lemma ExtendsBeforeReturn(s: State, r: Reg)
    requires Open(s)
    ensures Extends(Seal(s, Return(r)).blocks, s.blocks)
  {
  }

  lemma {:induction false} SimParams(m: Machine, n: nat) returns (regs: Regs)
    requires n <= |m.args| && |m.blocks| > 0 && |m.blocks[0].insts| >= |m.args|
    requires m.blocks[0].insts[..|m.args|] == ParamInsts(|m.args|)
    ensures m.To(START, Running(1, n, regs, []))
    ensures var rs := ParamRegs(n); forall i :: 0 <= i < n ==> rs[i] in regs && regs[rs[i]] == m.args[i]
    decreases n
  {
    if n == 0 {
      regs := map[];
      ReachesSelf(m.blocks, m.w, m.args, START);
    } else {
      var regs1 := SimParams(m, n - 1);
      regs := regs1[n := m.args[n - 1]];
      forall i | 0 <= i < n
        ensures ParamRegs(n)[i] in regs && regs[ParamRegs(n)[i]] == m.args[i]
      {
        assert i < n - 1 ==> ParamRegs(n)[i] == ParamRegs(n - 1)[i];
      }
      assert m.blocks[0].insts[n - 1] == m.blocks[0].insts[..|m.args|][n - 1] == Param(n, n - 1);
      m.Steps(Running(1, n - 1, regs1, []), Running(1, n, regs, []));
      m.Trans(START, Running(1, n - 1, regs1, []), Running(1, n, regs, []));
    }
  }

  /******* The fragment on which lowering follows the language *******/

  function Free(e: Expr): set<string>
    decreases e, 1
  {
    match e
    case Var(x) => {x}
    case Binary(_, _, l, r) => Free(l) + Free(r)
    case CallFn(_, args) => FreeAll(args)
    case CallClosure(params, args, body) =>
      FreeAll(args) + (if ClosureValue(body).None? then {} else Free(ClosureValue(body).value) - set x | x in params)
    case Field(r, _) => Free(r)
    case OptField(r, _, _) => Free(r)
    case Try(r, _) => Free(r)
    case Match(s, _, arms) => Free(s) + FreeArms(arms)
    case _ => {}
  }

  function FreeAll(es: seq<Expr>): set<string>
    decreases es, 0
  {
    if es == [] then {} else Free(es[0]) + FreeAll(es[1..])
  }

  function FreeArms(arms: seq<Arm>): set<string>
    decreases arms, 0
  {
    if arms == [] then {}
    else
      var arm := arms[0];
      assert arm.guard < arm && arm.body < arm;
      ((if arm.guard.Some? then Free(arm.guard.value) else {}) + FreeBody(arm.body)) - Bound(arm.pattern) + FreeArms(arms[1..])
  }

  function FreeBody(b: Body): set<string>
    decreases b, 2
  {
    match b
    case Trailing(ReturnStmt(e), t) => Free(e) + Free(t)
    case Trailing(_, t) => Free(t)
    case ReturnOnly(e) => Free(e)
    case OtherBody => {}
  }

  // Does e contain `?` or `?.`?
  predicate Propagates(e: Expr)
    decreases e, 1
  {
    match e
    case Binary(_, _, l, r) => Propagates(l) || Propagates(r)
    case CallFn(_, args) => AnyPropagates(args)
    case CallClosure(_, args, body) => AnyPropagates(args) || (ClosureValue(body).Some? && Propagates(ClosureValue(body).value))
    case Field(r, _) => Propagates(r)
    case OptField(_, _, _) => true
    case Try(_, _) => true
    case Match(s, _, arms) => Propagates(s) || ArmsPropagate(arms)
    case _ => false
  }

  predicate AnyPropagates(es: seq<Expr>)
    decreases es, 0
  {
    es != [] && (Propagates(es[0]) || AnyPropagates(es[1..]))
  }

  predicate ArmsPropagate(arms: seq<Arm>)
    decreases arms, 0
  {
    arms != [] &&
    var arm := arms[0];
    assert arm.body < arm;
    ((!arm.body.OtherBody? && Propagates(arm.body.value)) || ArmsPropagate(arms[1..]))
  }

  // Enum names and types identify enums.
  predicate UniqueEnums(p: Program) {
    forall i, j :: 0 <= i < j < |p.enums| ==>
      p.enums[i].name != p.enums[j].name && p.enums[i].typeId != p.enums[j].typeId
  }

  predicate InFragment(p: Program, e: Expr)
    decreases e, 1
  {
    match e
    case Variant(t, en, _) => exists i :: 0 <= i < |p.enums| && p.enums[i].typeId == t && p.enums[i].name == en
    case Binary(op, t, l, r) => (op.NeBin? ==> IsScalar(p, t)) && InFragment(p, l) && InFragment(p, r)
    case CallFn(_, args) => AllInFragment(p, args)
    case CallClosure(params, args, body) =>
      AllInFragment(p, args) && ClosureValue(body).Some? && InFragment(p, ClosureValue(body).value)
      && !Propagates(ClosureValue(body).value)
    case Field(r, _) => InFragment(p, r)
    case OptField(r, _, _) => InFragment(p, r)
    case Try(r, _) => InFragment(p, r)
    case Match(s, t, arms) => InFragment(p, s) && Testable(Discs(p, t, arms)) && ArmsInFragment(p, arms)
    case _ => true
  }

  predicate AllInFragment(p: Program, es: seq<Expr>)
    decreases es, 0
  {
    es == [] || (InFragment(p, es[0]) && AllInFragment(p, es[1..]))
  }

  // No guards, bodies that are a trailing expression and nothing else, and no
  // use of a name the pattern binds.
  predicate ArmsInFragment(p: Program, arms: seq<Arm>)
    decreases arms, 0
  {
    arms == [] ||
    var arm := arms[0];
    assert arm.body < arm;
    && arm.guard.None? && arm.body.Trailing? && arm.body.before.NoStmts?
    && InFragment(p, arm.body.value) && Bound(arm.pattern) !! Free(arm.body.value)
    && ArmsInFragment(p, arms[1..])
  }

  ghost predicate AgreeOn(xs: set<string>, a: Env, b: Env) {
    forall x :: x in xs ==> (x in a <==> x in b) && (x in a ==> a[x] == b[x])
  }

  lemma {:induction false} VariantsAgree(enums: seq<EnumDecl>, t: TypeId, en: string, vn: string)
    requires forall i, j :: 0 <= i < j < |enums| ==> enums[i].name != enums[j].name && enums[i].typeId != enums[j].typeId
    requires forall i :: 0 <= i < |enums| ==> (enums[i].typeId == t <==> enums[i].name == en)
    ensures VariantByType(enums, t, vn) == VariantByName(enums, en, vn)
  {
    if enums != [] {
      VariantsAgree(enums[1..], t, en, vn);
    }
  }

  lemma VariantReading(p: Program, t: TypeId, en: string, vn: string)
    requires UniqueEnums(p) && exists i :: 0 <= i < |p.enums| && p.enums[i].typeId == t && p.enums[i].name == en
    ensures VariantByType(p.enums, t, vn) == VariantByName(p.enums, en, vn)
  {
    VariantsAgree(p.enums, t, en, vn);
  }

  // Where the language gives a meaning, the lowered reading is that meaning.
  lemma {:induction false} Readings(p: Program, w: World, e: Expr, env: Env, env': Env, trace: seq<Event>)
    requires UniqueEnums(p) && InFragment(p, e) && AgreeOn(Free(e), env, env')
    requires Eval(p, w, Language, e, env, trace) != Stuck
    ensures Eval(p, w, Lowered, e, env', trace) == Eval(p, w, Language, e, env, trace)
    ensures !Propagates(e) ==> !Eval(p, w, Language, e, env, trace).Early?
    decreases e, 1
  {
    match e
    case Variant(t, en, vn) => VariantReading(p, t, en, vn);
    case Binary(op, t, l, r) => ReadingsBinary(p, w, e, env, env', trace);
    case CallFn(_, args) => ReadingsAll(p, w, args, env, env', trace);
    case CallClosure(params, args, body) => ReadingsClosure(p, w, e, env, env', trace);
    case Field(r, _) => Readings(p, w, r, env, env', trace);
    case OptField(r, _, _) => Readings(p, w, r, env, env', trace);
    case Try(r, _) => Readings(p, w, r, env, env', trace);
    case Match(s, t, arms) =>
      Readings(p, w, s, env, env', trace);
      var a := Eval(p, w, Language, s, env, trace);
      if a.Value? {
        ReadingsArms(p, w, t, arms, a.v, env, env', a.trace);
      }
    case _ =>
  }

  lemma ReadingsBinary(p: Program, w: World, e: Expr, env: Env, env': Env, trace: seq<Event>)
    requires e.Binary? && UniqueEnums(p) && InFragment(p, e) && AgreeOn(Free(e), env, env')
    requires Eval(p, w, Language, e, env, trace) != Stuck
    ensures Eval(p, w, Lowered, e, env', trace) == Eval(p, w, Language, e, env, trace)
    ensures !Propagates(e) ==> !Eval(p, w, Language, e, env, trace).Early?
    decreases e, 0
  {
    Readings(p, w, e.lhs, env, env', trace);
    var a := Eval(p, w, Language, e.lhs, env, trace);
    if a.Value? {
      Readings(p, w, e.rhs, env, env', a.trace);
    }
  }

  lemma ReadingsClosure(p: Program, w: World, e: Expr, env: Env, env': Env, trace: seq<Event>)
    requires e.CallClosure? && UniqueEnums(p) && InFragment(p, e) && AgreeOn(Free(e), env, env')
    requires Eval(p, w, Language, e, env, trace) != Stuck
    ensures Eval(p, w, Lowered, e, env', trace) == Eval(p, w, Language, e, env, trace)
    ensures !Propagates(e) ==> !Eval(p, w, Language, e, env, trace).Early?
    decreases e, 0
  {
    ReadingsAll(p, w, e.args, env, env', trace);
    var vs := EvalExprs(p, w, Language, e.args, env, trace);
    if vs.Values? {
      var inner := ClosureValue(e.body).value;
      AgreeBind(Free(inner), env, env', e.params, vs.vs);
      Readings(p, w, inner, BindAll(env, e.params, vs.vs), BindAll(env', e.params, vs.vs), vs.trace);
    }
  }

  lemma {:induction false} ReadingsAll(p: Program, w: World, es: seq<Expr>, env: Env, env': Env, trace: seq<Event>)
    requires UniqueEnums(p) && AllInFragment(p, es) && AgreeOn(FreeAll(es), env, env')
    requires EvalExprs(p, w, Language, es, env, trace) != Stops(Stuck)
    ensures EvalExprs(p, w, Lowered, es, env', trace) == EvalExprs(p, w, Language, es, env, trace)
    ensures !AnyPropagates(es) ==> var r := EvalExprs(p, w, Language, es, env, trace); r.Stops? ==> !r.outcome.Early?
    decreases es, 0
  {
    if es != [] {
      Readings(p, w, es[0], env, env', trace);
      var a := Eval(p, w, Language, es[0], env, trace);
      if a.Value? {
        ReadingsAll(p, w, es[1..], env, env', a.trace);
      }
    }
  }

  lemma {:induction false} AgreeBind(xs: set<string>, env: Env, env': Env, names: seq<string>, vs: seq<Int64>)
    requires |names| == |vs| && AgreeOn(xs - (set x | x in names), env, env')
    ensures AgreeOn(xs, BindAll(env, names, vs), BindAll(env', names, vs))
    decreases names
  {
    if names != [] {
      var x, v := names[0], vs[0];
      assert AgreeOn(xs - (set y | y in names[1..]), env[x := v], env'[x := v]) by {
        forall y | y in xs && y !in names[1..] && y != x
          ensures y !in names
        {
        }
      }
      AgreeBind(xs, env[x := v], env'[x := v], names[1..], vs[1..]);
    }
  }

  // The pattern and its discriminant accept the same values, except that a
  // total or-pattern is read as a catch-all.
  lemma PatternReading(p: Program, t: TypeId, pat: Pattern, v: Int64)
    requires !DiscOf(p, t, pat).Unsupported?
    ensures PatMatches(p, t, pat, v) ==> DiscMatches(DiscOf(p, t, pat), v)
    ensures DiscMatches(DiscOf(p, t, pat), v) ==> PatMatches(p, t, pat, v) || DiscOf(p, t, pat).CatchAll?
  {
    if pat.Constructor? {
      var ty := if pat.ctorType == 0 && t in p.types then t else pat.ctorType;
      var name := if pat.variant == "" && pat.path != [] then pat.path[|pat.path| - 1] else pat.variant;
      VariantsFit(p.enums, ty, "", name);
    }
  }

  lemma SelectFirst(ds: seq<Disc>, v: Int64)
    requires ds != []
    ensures Select(ds, v, 0) == if DiscMatches(ds[0], v) then 0 else 1 + Select(ds[1..], v, 0)
  {
    var k := Select(ds[1..], v, 0);
    assert forall i :: 0 <= i < |ds| - 1 ==> ds[1..][i] == ds[i + 1];
    assert k < |ds| - 1 ==> DiscMatches(ds[k + 1], v);
    forall i | 1 <= i < k + 1
      ensures !DiscMatches(ds[i], v)
    {
      assert ds[1..][i - 1] == ds[i];
    }
  }

  lemma {:induction false} ReadingsArms(p: Program, w: World, t: TypeId, arms: seq<Arm>, v: Int64, env: Env, env': Env, trace: seq<Event>)
    requires UniqueEnums(p) && ArmsInFragment(p, arms) && AgreeOn(FreeArms(arms), env, env')
    requires arms == [] || Testable(Discs(p, t, arms))
    requires EvalArms(p, w, t, arms, v, env, trace) != Stuck
    ensures var k := Select(Discs(p, t, arms), v, 0);
      && k < |arms| && !arms[k].body.OtherBody?
      && Eval(p, w, Lowered, arms[k].body.value, env', trace) == EvalArms(p, w, t, arms, v, env, trace)
    ensures !ArmsPropagate(arms) ==> !EvalArms(p, w, t, arms, v, env, trace).Early?
    decreases arms, 0
  {
    var arm := arms[0];
    assert arm.body < arm;
    var ds := Discs(p, t, arms);
    assert !ds[0].Unsupported?;
    SelectFirst(ds, v);
    PatternReading(p, t, arm.pattern, v);
    if PatMatches(p, t, arm.pattern, v) {
      var inner := BindPattern(env, arm.pattern, v);
      assert AgreeOn(Free(arm.body.value), inner, env') by {
        forall x | x in Free(arm.body.value)
          ensures (x in inner <==> x in env') && (x in inner ==> inner[x] == env'[x])
        {
          assert x in FreeArms(arms);
        }
      }
      Readings(p, w, arm.body.value, inner, env', trace);
    } else {
      assert Discs(p, t, arms[1..]) == ds[1..];
      assert EvalArms(p, w, t, arms[1..], v, env, trace) != Stuck;
      assert |arms| > 1;
      assert ds[0].Test? && Testable(ds[1..]) by {
        var front, rest := ds[..|ds| - 1], ds[1..][..|ds| - 2];
        assert front[0] == ds[0];
        forall i | 0 <= i < |rest|
          ensures rest[i].Test?
        {
          assert rest[i] == front[i + 1];
        }
      }
      ReadingsArms(p, w, t, arms[1..], v, env, env', trace);
    }
  }

  // Lowering preserves meaning: for every accepted body in the fragment, every
  // world and all arguments, whatever the language says the body does (its
  // value, an early return, a trap, and the calls made on the way) is what the
  // generated code does.
  lemma LoweringPreservesMeaning(p: Program, fn: Fn, w: World, args: seq<Int64>)
    requires Accepted(p, fn) && |args| == |fn.params| && UniqueEnums(p) && InFragment(p, fn.body.value)
    ensures var o := Eval(p, w, Language, fn.body.value, BindAll(map[], fn.params, args), []);
      o != Stuck ==>
        exists end :: Final(end, o) && Reaches(Code(p, fn), w, args, START, end)
          && forall c :: Reaches(Code(p, fn), w, args, START, c) && !c.Running? ==> c == end
  {
    var env := BindAll(map[], fn.params, args);
    var o := Eval(p, w, Language, fn.body.value, env, []);
    if o != Stuck {
      Readings(p, w, fn.body.value, env, env, []);
      var end := AcceptedRuns(p, fn, w, args);
      forall c | Reaches(Code(p, fn), w, args, START, c) && !c.Running?
        ensures c == end
      {
        FinalUnique(Code(p, fn), w, args, START, c, end);
      }
    }
  }
}
