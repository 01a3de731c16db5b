// Running lowered code computes the lowered reading of the expression.
module Simulation {
  import opened Mir
  import opened Hir
  import opened Lowering
  import opened Discipline

  type Regs = map<Reg, Int64>

  // Finished code and an environment in which it runs.
  datatype Machine = Machine(blocks: seq<Block>, w: World, args: seq<Int64>) {
    ghost predicate To(c: Config, d: Config) {
      Reaches(blocks, w, args, c, d)
    }

    lemma Trans(c: Config, d: Config, e: Config)
      requires To(c, d) && To(d, e)
      ensures To(c, e)
    {
      ReachesTrans(blocks, w, args, c, d, e);
    }

    lemma Steps(c: Config, d: Config)
      requires d == Step(blocks, w, args, c)
      ensures To(c, d)
    {
      ReachesStep(blocks, w, args, c);
    }
  }

  // The finished code continues the code of a builder state: sealed blocks are
  // final, unsealed ones may have grown.
  ghost predicate Extends(blocks: seq<Block>, bs: seq<Block>) {
    && |bs| <= |blocks|
    && forall i :: 0 <= i < |bs| ==>
      if bs[i].term.NoTerm? then bs[i].insts <= blocks[i].insts else blocks[i] == bs[i]
  }

  lemma ExtendsBack(blocks: seq<Block>, s: State, t: State)
    requires Open(s) && Kept(s, t) && Extends(blocks, t.blocks)
    ensures Extends(blocks, s.blocks)
  {
    forall i | 0 <= i < |s.blocks|
      ensures if s.blocks[i].term.NoTerm? then s.blocks[i].insts <= blocks[i].insts else blocks[i] == s.blocks[i]
    {
      if i + 1 != s.current {
        assert t.blocks[i] == s.blocks[i];
      }
    }
  }

  // Control at the end of what has been emitted so far.
  function At(s: State, regs: Regs, trace: seq<Event>): Config
    requires s.Ok()
  {
    Running(s.current, |s.Cur().insts|, regs, trace)
  }

  ghost predicate Agree(params: map<string, Reg>, env: Env, regs: Regs) {
    params.Keys == env.Keys && forall x :: x in params ==> params[x] in regs && regs[params[x]] == env[x]
  }

  // Registers below n keep their values.
  ghost predicate Preserves(regs: Regs, regs': Regs, n: nat) {
    forall r :: r in regs && r < n ==> r in regs' && regs'[r] == regs[r]
  }

  lemma AgreeLater(params: map<string, Reg>, env: Env, regs: Regs, regs': Regs, s: State)
    requires Agree(params, env, regs) && ParamsOk(params, s) && Preserves(regs, regs', s.numRegs)
    ensures Agree(params, env, regs')
  {
  }

  lemma PreservesTrans(r0: Regs, r1: Regs, r2: Regs, m: nat, n: nat)
    requires m <= n && Preserves(r0, r1, m) && Preserves(r1, r2, n)
    ensures Preserves(r0, r2, m)
  {
  }

  // What running from the end of s to the end of t must do for outcome o.
  ghost predicate Does(m: Machine, s: State, regs: Regs, trace: seq<Event>, t: State, r: Reg, o: Outcome, regs': Regs)
    requires s.Ok() && t.Ok()
  {
    match o
    case Value(v, tr) =>
      m.To(At(s, regs, trace), At(t, regs', tr)) && r in regs' && regs'[r] == v && Preserves(regs, regs', s.numRegs)
    case Early(v, tr) => m.To(At(s, regs, trace), Returned(v, tr))
    case Trap(tr) => m.To(At(s, regs, trace), Trapped(tr))
    case Stuck => false
  }

  // A sub-expression that does not yield a value decides the whole.
  lemma DoesStop(m: Machine, s: State, regs: Regs, trace: seq<Event>, t: State, t': State, r: Reg, r': Reg, o: Outcome, regs': Regs)
    requires s.Ok() && t.Ok() && t'.Ok() && !o.Value? && Does(m, s, regs, trace, t, r, o, regs')
    ensures Does(m, s, regs, trace, t', r', o, regs')
  {
  }

  // Sequencing: a first part yielding v, then a second part.
  lemma DoesThen(m: Machine, s: State, regs: Regs, trace: seq<Event>, t: State, r1: Reg, v: Int64, tr1: seq<Event>,
                 regs1: Regs, u: State, r2: Reg, o: Outcome, regs2: Regs)
    requires s.Ok() && t.Ok() && u.Ok() && s.numRegs <= t.numRegs
    requires Does(m, s, regs, trace, t, r1, Value(v, tr1), regs1)
    requires Does(m, t, regs1, tr1, u, r2, o, regs2)
    ensures Does(m, s, regs, trace, u, r2, o, regs2)
  {
    match o
    case Value(_, tr) =>
      m.Trans(At(s, regs, trace), At(t, regs1, tr1), At(u, regs2, tr));
      PreservesTrans(regs, regs1, regs2, s.numRegs, t.numRegs);
    case Early(x, tr) => m.Trans(At(s, regs, trace), At(t, regs1, tr1), Returned(x, tr));
    case Trap(tr) => m.Trans(At(s, regs, trace), At(t, regs1, tr1), Trapped(tr));
    case Stuck =>
  }

  // The machine executes an emitted instruction.
  lemma Executes(m: Machine, s: State, inst: Inst, regs: Regs, trace: seq<Event>)
    requires Open(s) && inst.dst == s.numRegs && Extends(m.blocks, Emit(s, inst).blocks)
    ensures Step(m.blocks, m.w, m.args, At(s, regs, trace)) == StepInst(m.w, m.args, At(s, regs, trace), inst)
    ensures m.To(At(s, regs, trace), StepInst(m.w, m.args, At(s, regs, trace), inst))
  {
    var t := Emit(s, inst);
    assert t.blocks[s.current - 1].insts <= m.blocks[s.current - 1].insts;
    assert t.blocks[s.current - 1].insts[|s.Cur().insts|] == inst;
    m.Steps(At(s, regs, trace), StepInst(m.w, m.args, At(s, regs, trace), inst));
  }

  // An emitted instruction that writes v.
  lemma DoesWrite(m: Machine, s: State, inst: Inst, regs: Regs, trace: seq<Event>, v: Int64, trace': seq<Event>)
    requires Open(s) && inst.dst == s.numRegs && Extends(m.blocks, Emit(s, inst).blocks)
    requires StepInst(m.w, m.args, At(s, regs, trace), inst)
             == Running(s.current, |s.Cur().insts| + 1, regs[inst.dst := v], trace')
    ensures Does(m, s, regs, trace, Emit(s, inst), inst.dst, Value(v, trace'), regs[inst.dst := v])
  {
    Executes(m, s, inst, regs, trace);
  }

  /******* Expressions *******/

  lemma SimLeaf(m: Machine, p: Program, s: State, e: Expr, params: map<string, Reg>, env: Env, regs: Regs, trace: seq<Event>)
      returns (regs': Regs)
    requires Open(s) && LowerLeaf(p, s, e, params).Done? && Agree(params, env, regs)
    requires !e.Binary? && !e.CallFn? && !e.CallClosure? && !e.Field? && !e.OptField? && !e.Try? && !e.Match?
    requires Extends(m.blocks, LowerLeaf(p, s, e, params).state.blocks)
    ensures var r := LowerLeaf(p, s, e, params);
      Does(m, s, regs, trace, r.state, r.reg, Eval(p, m.w, Lowered, e, env, trace), regs')
  {
    if e.Var? {
      regs' := regs;
      ReachesSelf(m.blocks, m.w, m.args, At(s, regs, trace));
    } else {
      var v := match e
        case IntLit(n) => n.value
        case BoolLit(b) => (if b then 1 else 0)
        case Variant(_, en, vn) => AsInt64(VariantByName(p.enums, en, vn).value);
      regs' := regs[s.numRegs := v];
      DoesWrite(m, s, ConstInt(s.numRegs, v), regs, trace, v, trace);
    }
  }

  lemma SimCall(m: Machine, s: State, inst: Inst, regs: Regs, trace: seq<Event>) returns (regs': Regs)
    requires Open(s) && (inst.Call? || inst.EqCall?) && inst.dst == s.numRegs
    requires Extends(m.blocks, Emit(s, inst).blocks) && Written(inst.args, regs)
    ensures Does(m, s, regs, trace, Emit(s, inst), s.numRegs, CallOutcome(m.w, trace, inst.name, Read(inst.args, regs)), regs')
  {
    var o := CallOutcome(m.w, trace, inst.name, Read(inst.args, regs));
    regs' := if o.Value? then regs[s.numRegs := o.v] else regs;
    Executes(m, s, inst, regs, trace);
  }

  lemma SimArith(m: Machine, s: State, op: ArithOp, a: Reg, b: Reg, regs: Regs, trace: seq<Event>) returns (regs': Regs)
    requires Open(s) && a in regs && b in regs
    requires Extends(m.blocks, Emit(s, Arith(op, s.numRegs, a, b)).blocks)
    ensures var v := EvalArith(op, regs[a], regs[b]);
      Does(m, s, regs, trace, Emit(s, Arith(op, s.numRegs, a, b)), s.numRegs,
           if v.Some? then Value(v.value, trace) else Trap(trace), regs')
  {
    var v := EvalArith(op, regs[a], regs[b]);
    regs' := if v.Some? then regs[s.numRegs := v.value] else regs;
    Executes(m, s, Arith(op, s.numRegs, a, b), regs, trace);
  }

  lemma SimOperator(m: Machine, p: Program, s: State, op: BinOp, t: TypeId, a: Reg, b: Reg, regs: Regs, trace: seq<Event>)
      returns (regs': Regs)
    requires Open(s) && !op.OtherBin? && a in regs && b in regs
    requires Extends(m.blocks, LowerBinary(p, s, op, t, a, b).state.blocks)
    ensures var r := LowerBinary(p, s, op, t, a, b);
      r.state.Ok() && Does(m, s, regs, trace, r.state, r.reg, EvalBinary(p, m.w, Lowered, op, t, regs[a], regs[b], trace), regs')
  {
    if op.ArithBin? {
      regs' := SimArith(m, s, op.op, a, b, regs, trace);
    } else if op.EqBin? {
      regs' := SimEquality(m, p, s, t, a, b, regs, trace);
    } else {
      regs' := SimInequality(m, p, s, t, a, b, regs, trace);
    }
  }

  function EqInst(p: Program, s: State, t: TypeId, a: Reg, b: Reg): Inst {
    if IsScalar(p, t) then EqScalar(s.numRegs, a, b) else EqCall(s.numRegs, EqName(p, t), [a, b])
  }

  lemma SimEquality(m: Machine, p: Program, s: State, t: TypeId, a: Reg, b: Reg, regs: Regs, trace: seq<Event>)
      returns (regs': Regs)
    requires Open(s) && a in regs && b in regs
    requires Extends(m.blocks, Emit(s, EqInst(p, s, t, a, b)).blocks)
    ensures Does(m, s, regs, trace, Emit(s, EqInst(p, s, t, a, b)), s.numRegs,
                 EvalBinary(p, m.w, Lowered, EqBin, t, regs[a], regs[b], trace), regs')
  {
    var inst := EqInst(p, s, t, a, b);
    if IsScalar(p, t) {
      var v: Int64 := if regs[a] == regs[b] then 1 else 0;
      regs' := regs[s.numRegs := v];
      DoesWrite(m, s, inst, regs, trace, v, trace);
    } else {
      assert Read([a, b], regs) == [regs[a], regs[b]];
      regs' := SimCall(m, s, inst, regs, trace);
    }
  }

  // Inequality is one minus equality.
  lemma NotEqual(p: Program, w: World, t: TypeId, a: Int64, b: Int64, trace: seq<Event>)
    ensures var o := EvalBinary(p, w, Lowered, EqBin, t, a, b, trace);
      EvalBinary(p, w, Lowered, NeBin, t, a, b, trace) == if o.Value? then Value(Wrap(1 - o.v), o.trace) else o
  {
  }

  lemma OpenIsOk(s: State)
    requires Open(s)
    ensures s.Ok()
  {
  }

  // The three instructions of `!=`.
  lemma NeUnfold(p: Program, s: State, t: TypeId, a: Reg, b: Reg)
    requires s.Ok()
    ensures EqInst(p, s, t, a, b).dst == s.numRegs
    ensures var n := s.numRegs; var s1 := Emit(s, EqInst(p, s, t, a, b));
      && s1.Ok() && s1.numRegs == n + 1
      && var s2 := Emit(s1, ConstInt(n + 1, 1));
      && s2.Ok() && s2.numRegs == n + 2
      && LowerBinary(p, s, NeBin, t, a, b) == Done(n + 2, Emit(s2, Arith(Sub, n + 2, n + 1, n)))
  {
  }

  lemma SimInequality(m: Machine, p: Program, s: State, t: TypeId, a: Reg, b: Reg, regs: Regs, trace: seq<Event>)
      returns (regs': Regs)
    requires Open(s) && a in regs && b in regs
    requires Extends(m.blocks, LowerBinary(p, s, NeBin, t, a, b).state.blocks)
    ensures var r := LowerBinary(p, s, NeBin, t, a, b);
      Does(m, s, regs, trace, r.state, r.reg, EvalBinary(p, m.w, Lowered, NeBin, t, regs[a], regs[b], trace), regs')
  {
    hide *;
    OpenIsOk(s);
    var n := s.numRegs;
    var i1, i2, i3 := EqInst(p, s, t, a, b), ConstInt(n + 1, 1), Arith(Sub, n + 2, n + 1, n);
    NeUnfold(p, s, t, a, b);
    var s1 := Emit(s, i1);
    var s2 := Emit(s1, i2);
    var s3 := Emit(s2, i3);
    var o := EvalBinary(p, m.w, Lowered, EqBin, t, regs[a], regs[b], trace);
    NotEqual(p, m.w, t, regs[a], regs[b], trace);
    EmitKeeps(s, i1);
    EmitKeeps(s1, i2);
    EmitKeeps(s2, i3);
    ExtendsBack(m.blocks, s2, s3);
    ExtendsBack(m.blocks, s1, s2);
    var regs1 := SimEquality(m, p, s, t, a, b, regs, trace);
    if o.Value? {
      DoesValue(m, s, regs, trace, s1, n, o, regs1);
      regs' := SimComplement(m, s1, n, regs1, o.trace);
      DoesThen(m, s, regs, trace, s1, n, o.v, o.trace, regs1, s3, n + 2, Value(Wrap(1 - o.v), o.trace), regs');
    } else {
      regs' := regs1;
      DoesStop(m, s, regs, trace, s1, s3, n, n + 2, o, regs1);
    }
  }

  lemma SimConst(m: Machine, s: State, v: Int64, regs: Regs, trace: seq<Event>)
    requires Open(s) && Extends(m.blocks, Emit(s, ConstInt(s.numRegs, v)).blocks)
    ensures Does(m, s, regs, trace, Emit(s, ConstInt(s.numRegs, v)), s.numRegs, Value(v, trace), regs[s.numRegs := v])
  {
    hide Does, Extends, Emit;
    DoesWrite(m, s, ConstInt(s.numRegs, v), regs, trace, v, trace);
  }

  lemma SubExact(a: Int64, b: Int64)
    ensures EvalArith(Sub, a, b) == Some(Wrap(a - b))
  {
  }

  // One minus the register n.
  lemma SimComplement(m: Machine, s: State, n: Reg, regs: Regs, trace: seq<Event>) returns (regs': Regs)
    requires Open(s) && s.numRegs == n + 1 && n in regs
    requires var s2 := Emit(s, ConstInt(n + 1, 1)); Open(s2) && s2.numRegs == n + 2
    requires var s2 := Emit(s, ConstInt(n + 1, 1)); Extends(m.blocks, s2.blocks)
    requires var s2 := Emit(s, ConstInt(n + 1, 1)); Extends(m.blocks, Emit(s2, Arith(Sub, n + 2, n + 1, n)).blocks)
    ensures var s3 := Emit(Emit(s, ConstInt(n + 1, 1)), Arith(Sub, n + 2, n + 1, n));
      var v: int := regs[n];
      s3.Ok() && Does(m, s, regs, trace, s3, n + 2, Value(Wrap(1 - v), trace), regs')
  {
    hide *;
    OpenIsOk(s);
    var v: int := regs[n];
    var s2 := Emit(s, ConstInt(n + 1, 1));
    OpenIsOk(s2);
    var regs2 := regs[n + 1 := 1];
    SimConst(m, s, 1, regs, trace);
    SubExact(regs2[n + 1], regs2[n]);
    regs' := SimArith(m, s2, Sub, n + 1, n, regs2, trace);
    DoesThen(m, s, regs, trace, s2, n + 1, 1, trace, regs2, Emit(s2, Arith(Sub, n + 2, n + 1, n)), n + 2, Value(Wrap(1 - v), trace), regs');
  }

  lemma SimPropagate(m: Machine, s: State, recv: Reg, k: Int64, regs: Regs, trace: seq<Event>)
    requires Open(s) && s.AtLast() && recv in regs && Extends(m.blocks, Propagate(s, recv, k).blocks)
    ensures var t := Propagate(s, recv, k);
      Does(m, s, regs, trace, t, recv, if regs[recv] == k then Early(regs[recv], trace) else Value(regs[recv], trace), regs)
  {
    var n := |s.blocks|;
    var t := Propagate(s, recv, k);
    assert t.blocks[n - 1] == Block(s.Cur().insts, IfEq(recv, k, n + 1, n + 2)) == m.blocks[n - 1];
    assert t.blocks[n] == Block([], Return(recv)) == m.blocks[n];
    assert t.blocks[n + 1] == EMPTY_BLOCK;
    var c := At(s, regs, trace);
    if regs[recv] == k {
      m.Steps(c, Running(n + 1, 0, regs, trace));
      m.Steps(Running(n + 1, 0, regs, trace), Returned(k, trace));
      m.Trans(c, Running(n + 1, 0, regs, trace), Returned(k, trace));
    } else {
      m.Steps(c, Running(n + 2, 0, regs, trace));
    }
  }

  lemma {:induction false} AgreeBindAll(params: map<string, Reg>, env: Env, names: seq<string>, rs: seq<Reg>, vs: seq<Int64>, regs: Regs)
    requires |names| == |rs| == |vs| && Agree(params, env, regs)
    requires forall i :: 0 <= i < |rs| ==> rs[i] in regs && regs[rs[i]] == vs[i]
    ensures Agree(BindAll(params, names, rs), BindAll(env, names, vs), regs)
    decreases names
  {
    if names != [] {
      AgreeBindAll(params[names[0] := rs[0]], env[names[0] := vs[0]], names[1..], rs[1..], vs[1..], regs);
    }
  }

  // Everything known about lowering one sub-expression under the discipline.
  ghost predicate Pre(p: Program, s: State, e: Expr, params: map<string, Reg>) {
    Open(s) && ParamsOk(params, s) && LowerExpr(p, s, e, params).Done? && Plan(p, e, s.AtLast()).Some?
  }

  lemma SubExpr(p: Program, s: State, e: Expr, params: map<string, Reg>)
    requires Pre(p, s, e, params)
    ensures var r := LowerExpr(p, s, e, params);
      && Open(r.state) && r.state.AtLast() == Plan(p, e, s.AtLast()).value && Kept(s, r.state)
      && 1 <= r.reg < r.state.numRegs && s.numRegs <= r.state.numRegs && ParamsOk(params, r.state)
  {
    FrameExpr(p, s, e, params);
    DisciplineExpr(p, s, e, params);
  }

  lemma SubExprs(p: Program, s: State, es: seq<Expr>, params: map<string, Reg>)
    requires Open(s) && ParamsOk(params, s) && LowerExprs(p, s, es, params).AllDone? && PlanExprs(p, es, s.AtLast()).Some?
    ensures var r := LowerExprs(p, s, es, params);
      && Open(r.state) && r.state.AtLast() == PlanExprs(p, es, s.AtLast()).value && Kept(s, r.state)
      && RegsOk(r.regs, r.state) && s.numRegs <= r.state.numRegs && ParamsOk(params, r.state)
  {
    FrameExprs(p, s, es, params);
    DisciplineExprs(p, s, es, params);
  }

  lemma {:induction false} SimExpr(m: Machine, p: Program, s: State, e: Expr, params: map<string, Reg>, env: Env, regs: Regs, trace: seq<Event>)
      returns (regs': Regs)
    requires Pre(p, s, e, params) && Agree(params, env, regs)
    requires Extends(m.blocks, LowerExpr(p, s, e, params).state.blocks)
    ensures var r := LowerExpr(p, s, e, params);
      Does(m, s, regs, trace, r.state, r.reg, Eval(p, m.w, Lowered, e, env, trace), regs')
    decreases e, 1
  {
    match e
    case Binary(_, _, _, _) => regs' := SimBinary(m, p, s, e, params, env, regs, trace);
    case CallFn(_, _) => regs' := SimCallFn(m, p, s, e, params, env, regs, trace);
    case CallClosure(_, _, _) => regs' := SimClosure(m, p, s, e, params, env, regs, trace);
    case Field(_, _) => regs' := SimReceiver(m, p, s, e, params, env, regs, trace);
    case OptField(_, _, _) => regs' := SimReceiver(m, p, s, e, params, env, regs, trace);
    case Try(_, _) => regs' := SimReceiver(m, p, s, e, params, env, regs, trace);
    case Match(_, _, _) => regs' := SimMatch(m, p, s, e, params, env, regs, trace);
    case _ => regs' := SimLeaf(m, p, s, e, params, env, regs, trace);
  }

  lemma SimBinary(m: Machine, p: Program, s: State, e: Expr, params: map<string, Reg>, env: Env, regs: Regs, trace: seq<Event>)
      returns (regs': Regs)
    requires e.Binary? && Pre(p, s, e, params) && Agree(params, env, regs)
    requires Extends(m.blocks, LowerExpr(p, s, e, params).state.blocks)
    ensures var r := LowerExpr(p, s, e, params);
      Does(m, s, regs, trace, r.state, r.reg, Eval(p, m.w, Lowered, e, env, trace), regs')
    decreases e, 0
  {
    hide Kept, Extends, LowerBinary, EvalBinary;
    var a := LowerExpr(p, s, e.lhs, params);
    SubExpr(p, s, e.lhs, params);
    var b := LowerExpr(p, a.state, e.rhs, params);
    SubExpr(p, a.state, e.rhs, params);
    var c := LowerBinary(p, b.state, e.op, e.operandType, a.reg, b.reg);
    OperatorKeeps(p, b.state, e.op, e.operandType, a.reg, b.reg);
    ExtendsBack(m.blocks, b.state, c.state);
    ExtendsBack(m.blocks, a.state, b.state);
    var regs1 := SimExpr(m, p, s, e.lhs, params, env, regs, trace);
    var o1 := Eval(p, m.w, Lowered, e.lhs, env, trace);
    if !o1.Value? {
      DoesStop(m, s, regs, trace, a.state, c.state, a.reg, c.reg, o1, regs1);
      return regs1;
    }
    AgreeLater(params, env, regs, regs1, s);
    var regs2 := SimExpr(m, p, a.state, e.rhs, params, env, regs1, o1.trace);
    var o2 := Eval(p, m.w, Lowered, e.rhs, env, o1.trace);
    DoesThen(m, s, regs, trace, a.state, a.reg, o1.v, o1.trace, regs1, b.state, b.reg, o2, regs2);
    if !o2.Value? {
      DoesStop(m, s, regs, trace, b.state, c.state, b.reg, c.reg, o2, regs2);
      return regs2;
    }
    regs' := SimOperator(m, p, b.state, e.op, e.operandType, a.reg, b.reg, regs2, o2.trace);
    DoesThen(m, s, regs, trace, b.state, b.reg, o2.v, o2.trace, regs2, c.state, c.reg,
             EvalBinary(p, m.w, Lowered, e.op, e.operandType, o1.v, o2.v, o2.trace), regs');
  }

  lemma OperatorKeeps(p: Program, s: State, op: BinOp, t: TypeId, a: Reg, b: Reg)
    requires Open(s) && !op.OtherBin?
    ensures var r := LowerBinary(p, s, op, t, a, b); r.Done? && Open(r.state) && Kept(s, r.state)
  {
  }

  // Running an argument list leaves the values in the argument registers.
  ghost predicate DoesAll(m: Machine, s: State, regs: Regs, trace: seq<Event>, t: State, rs: seq<Reg>, o: Outcomes, regs': Regs)
    requires s.Ok() && t.Ok()
  {
    match o
    case Values(vs, tr) =>
      && m.To(At(s, regs, trace), At(t, regs', tr)) && Preserves(regs, regs', s.numRegs) && |rs| == |vs|
      && forall i :: 0 <= i < |rs| ==> rs[i] in regs' && regs'[rs[i]] == vs[i]
    case Stops(o) => !o.Value? && Does(m, s, regs, trace, t, 0, o, regs')
  }

  lemma {:induction false} SimExprs(m: Machine, p: Program, s: State, es: seq<Expr>, params: map<string, Reg>, env: Env, regs: Regs, trace: seq<Event>)
      returns (regs': Regs)
    requires Open(s) && ParamsOk(params, s) && LowerExprs(p, s, es, params).AllDone? && PlanExprs(p, es, s.AtLast()).Some?
    requires Agree(params, env, regs) && Extends(m.blocks, LowerExprs(p, s, es, params).state.blocks)
    ensures var r := LowerExprs(p, s, es, params);
      DoesAll(m, s, regs, trace, r.state, r.regs, EvalExprs(p, m.w, Lowered, es, env, trace), regs')
    decreases es, 0
  {
    hide Kept, Extends, Does, Agree;
    if es == [] {
      ReachesSelf(m.blocks, m.w, m.args, At(s, regs, trace));
      return regs;
    }
    var a := LowerExpr(p, s, es[0], params);
    SubExpr(p, s, es[0], params);
    var rest := LowerExprs(p, a.state, es[1..], params);
    SubExprs(p, a.state, es[1..], params);
    ExtendsBack(m.blocks, a.state, rest.state);
    var regs1 := SimExpr(m, p, s, es[0], params, env, regs, trace);
    var o1 := Eval(p, m.w, Lowered, es[0], env, trace);
    if !o1.Value? {
      DoesStop(m, s, regs, trace, a.state, rest.state, a.reg, 0, o1, regs1);
      return regs1;
    }
    DoesValue(m, s, regs, trace, a.state, a.reg, o1, regs1);
    AgreeLater(params, env, regs, regs1, s);
    regs' := SimExprs(m, p, a.state, es[1..], params, env, regs1, o1.trace);
    var o2 := EvalExprs(p, m.w, Lowered, es[1..], env, o1.trace);
    DoesAllThen(m, s, regs, trace, a.state, a.reg, o1.v, o1.trace, regs1, rest.state, rest.regs, o2, regs');
  }

  lemma DoesValue(m: Machine, s: State, regs: Regs, trace: seq<Event>, t: State, r: Reg, o: Outcome, regs': Regs)
    requires s.Ok() && t.Ok() && o.Value? && Does(m, s, regs, trace, t, r, o, regs')
    ensures r in regs' && regs'[r] == o.v && Preserves(regs, regs', s.numRegs)
  {
  }

  lemma DoesAllThen(m: Machine, s: State, regs: Regs, trace: seq<Event>, t: State, r: Reg, v: Int64, tr1: seq<Event>, regs1: Regs,
                    u: State, rs: seq<Reg>, o: Outcomes, regs2: Regs)
    requires s.Ok() && t.Ok() && u.Ok() && s.numRegs <= t.numRegs && r < t.numRegs
    requires Does(m, s, regs, trace, t, r, Value(v, tr1), regs1) && DoesAll(m, t, regs1, tr1, u, rs, o, regs2)
    ensures DoesAll(m, s, regs, trace, u, [r] + rs, if o.Values? then Values([v] + o.vs, o.trace) else o, regs2)
  {
    match o
    case Values(vs, tr) =>
      m.Trans(At(s, regs, trace), At(t, regs1, tr1), At(u, regs2, tr));
      PreservesTrans(regs, regs1, regs2, s.numRegs, t.numRegs);
    case Stops(stop) => DoesThen(m, s, regs, trace, t, r, v, tr1, regs1, u, 0, stop, regs2);
  }

  lemma SimCallFn(m: Machine, p: Program, s: State, e: Expr, params: map<string, Reg>, env: Env, regs: Regs, trace: seq<Event>)
      returns (regs': Regs)
    requires e.CallFn? && Pre(p, s, e, params) && Agree(params, env, regs)
    requires Extends(m.blocks, LowerExpr(p, s, e, params).state.blocks)
    ensures var r := LowerExpr(p, s, e, params);
      Does(m, s, regs, trace, r.state, r.reg, Eval(p, m.w, Lowered, e, env, trace), regs')
    decreases e, 0
  {
    hide Kept, Extends;
    var rs := LowerExprs(p, s, e.args, params);
    SubExprs(p, s, e.args, params);
    var inst := Call(rs.state.numRegs, CName(p.modPath, e.name), rs.regs);
    var t := Emit(rs.state, inst);
    EmitKeeps(rs.state, inst);
    ExtendsBack(m.blocks, rs.state, t);
    hide Emit;
    var regs1 := SimExprs(m, p, s, e.args, params, env, regs, trace);
    var o1 := EvalExprs(p, m.w, Lowered, e.args, env, trace);
    match o1
    case Stops(o) =>
      DoesStop(m, s, regs, trace, rs.state, t, 0, inst.dst, o, regs1);
      regs' := regs1;
    case Values(vs, tr) =>
      assert Read(rs.regs, regs1) == vs;
      regs' := SimCall(m, rs.state, inst, regs1, tr);
      DoesFollow(m, s, regs, trace, rs.state, tr, regs1, t, inst.dst, CallOutcome(m.w, tr, inst.name, vs), regs');
  }

  // Sequencing after an argument list.
  lemma DoesFollow(m: Machine, s: State, regs: Regs, trace: seq<Event>, t: State, tr1: seq<Event>, regs1: Regs,
                   u: State, r: Reg, o: Outcome, regs2: Regs)
    requires s.Ok() && t.Ok() && u.Ok() && s.numRegs <= t.numRegs
    requires m.To(At(s, regs, trace), At(t, regs1, tr1)) && Preserves(regs, regs1, s.numRegs)
    requires Does(m, t, regs1, tr1, u, r, o, regs2)
    ensures Does(m, s, regs, trace, u, r, o, regs2)
  {
    match o
    case Value(_, tr) =>
      m.Trans(At(s, regs, trace), At(t, regs1, tr1), At(u, regs2, tr));
      PreservesTrans(regs, regs1, regs2, s.numRegs, t.numRegs);
    case Early(x, tr) => m.Trans(At(s, regs, trace), At(t, regs1, tr1), Returned(x, tr));
    case Trap(tr) => m.Trans(At(s, regs, trace), At(t, regs1, tr1), Trapped(tr));
    case Stuck =>
  }

  lemma SimClosure(m: Machine, p: Program, s: State, e: Expr, params: map<string, Reg>, env: Env, regs: Regs, trace: seq<Event>)
      returns (regs': Regs)
    requires e.CallClosure? && Pre(p, s, e, params) && Agree(params, env, regs)
    requires Extends(m.blocks, LowerExpr(p, s, e, params).state.blocks)
    ensures var r := LowerExpr(p, s, e, params);
      Does(m, s, regs, trace, r.state, r.reg, Eval(p, m.w, Lowered, e, env, trace), regs')
    decreases e, 0
  {
    hide Kept, Extends;
    var rs := LowerExprs(p, s, e.args, params);
    SubExprs(p, s, e.args, params);
    BindAllOk(params, e.params, rs.regs, rs.state);
    var inner := BindAll(params, e.params, rs.regs);
    var r := LowerExpr(p, rs.state, ClosureValue(e.body).value, inner);
    SubExpr(p, rs.state, ClosureValue(e.body).value, inner);
    ExtendsBack(m.blocks, rs.state, r.state);
    var regs1 := SimExprs(m, p, s, e.args, params, env, regs, trace);
    var o1 := EvalExprs(p, m.w, Lowered, e.args, env, trace);
    match o1
    case Stops(o) =>
      DoesStop(m, s, regs, trace, rs.state, r.state, 0, r.reg, o, regs1);
      regs' := regs1;
    case Values(vs, tr) =>
      AgreeLater(params, env, regs, regs1, s);
      AgreeBindAll(params, env, e.params, rs.regs, vs, regs1);
      var env1 := BindAll(env, e.params, vs);
      regs' := SimExpr(m, p, rs.state, ClosureValue(e.body).value, inner, env1, regs1, tr);
      DoesFollow(m, s, regs, trace, rs.state, tr, regs1, r.state, r.reg,
                 Eval(p, m.w, Lowered, ClosureValue(e.body).value, env1, tr), regs');
  }

  // Field reads, `?.` and `?`: the receiver, then perhaps a branch, then perhaps a read.
  lemma SimReceiver(m: Machine, p: Program, s: State, e: Expr, params: map<string, Reg>, env: Env, regs: Regs, trace: seq<Event>)
      returns (regs': Regs)
    requires (e.Field? || e.OptField? || e.Try?) && Pre(p, s, e, params) && Agree(params, env, regs)
    requires Extends(m.blocks, LowerExpr(p, s, e, params).state.blocks)
    ensures var r := LowerExpr(p, s, e, params);
      Does(m, s, regs, trace, r.state, r.reg, Eval(p, m.w, Lowered, e, env, trace), regs')
    decreases e, 0
  {
    hide Kept, Extends, Does, Propagate, Emit, Agree;
    var whole := LowerExpr(p, s, e, params);
    var a := LowerExpr(p, s, e.receiver, params);
    SubExpr(p, s, e.receiver, params);
    var k := if e.Field? then 0 else AsInt64(ErrorIndex(p, e.receiverType).value);
    var u := if e.Field? then a.state else Propagate(a.state, a.reg, k);
    PropagateKeeps(a.state, a.reg, k);
    if !e.Try? {
      EmitKeeps(u, FieldRead(u.numRegs, a.reg, e.field));
      ExtendsBack(m.blocks, u, whole.state);
    }
    ExtendsSelf(m.blocks, a.state, u);
    var regs1 := SimExpr(m, p, s, e.receiver, params, env, regs, trace);
    var o1 := Eval(p, m.w, Lowered, e.receiver, env, trace);
    if !o1.Value? {
      DoesStop(m, s, regs, trace, a.state, whole.state, a.reg, whole.reg, o1, regs1);
      return regs1;
    }
    DoesValue(m, s, regs, trace, a.state, a.reg, o1, regs1);
    if !e.Field? {
      SimPropagate(m, a.state, a.reg, k, regs1, o1.trace);
      var o2 := if o1.v == k then Early(o1.v, o1.trace) else o1;
      DoesThen(m, s, regs, trace, a.state, a.reg, o1.v, o1.trace, regs1, u, a.reg, o2, regs1);
      if o2.Early? {
        DoesStop(m, s, regs, trace, u, whole.state, a.reg, whole.reg, o2, regs1);
        return regs1;
      }
    }
    regs' := regs1;
    if !e.Try? {
      var v := m.w.field(o1.v, e.field);
      regs' := regs1[u.numRegs := v];
      DoesWrite(m, u, FieldRead(u.numRegs, a.reg, e.field), regs1, o1.trace, v, o1.trace);
      DoesThen(m, s, regs, trace, u, a.reg, o1.v, o1.trace, regs1, whole.state, whole.reg, Value(v, o1.trace), regs');
    }
  }

  lemma PropagateKeeps(s: State, recv: Reg, k: Int64)
    requires Open(s)
    ensures s.AtLast() ==> Open(Propagate(s, recv, k)) && Kept(s, Propagate(s, recv, k))
  {
  }

  lemma ExtendsSelf(blocks: seq<Block>, s: State, t: State)
    requires Open(s) && (s == t || Kept(s, t)) && Extends(blocks, t.blocks)
    ensures Extends(blocks, s.blocks)
  {
    if s != t {
      ExtendsBack(blocks, s, t);
    }
  }

  /******* Match *******/

  // The comparison chain, from comparison i on, ends at the selected arm or at `merge`.
  lemma {:induction false} SimCompares(m: Machine, ds: seq<Disc>, scrut: Reg, n: nat, i: nat, regs: Regs, trace: seq<Event>)
    requires Testable(ds) && i < |TestsOf(ds)| && scrut in regs
    requires n + |ds| + 1 + |TestsOf(ds)| <= |m.blocks|
    requires forall k :: n + |ds| < k <= n + |ds| + |TestsOf(ds)| ==>
      m.blocks[k] == Block([], CompareTerm(scrut, TestsOf(ds), n + 1, n + |ds| + 2, Miss(n, ds), k - (n + |ds| + 1)))
    ensures m.To(Running(n + |ds| + 2 + i, 0, regs, trace), Running(n + 1 + Select(ds, regs[scrut], i), 0, regs, trace))
    decreases |ds| - i
  {
    var tests := TestsOf(ds);
    var c := Running(n + |ds| + 2 + i, 0, regs, trace);
    assert m.blocks[n + |ds| + 1 + i] == Block([], CompareTerm(scrut, tests, n + 1, n + |ds| + 2, Miss(n, ds), i));
    assert tests[i] == ds[i];
    if DiscMatches(ds[i], regs[scrut]) {
      m.Steps(c, Running(n + 1 + i, 0, regs, trace));
    } else if i + 1 < |tests| {
      m.Steps(c, Running(n + |ds| + 3 + i, 0, regs, trace));
      SimCompares(m, ds, scrut, n, i + 1, regs, trace);
      m.Trans(c, Running(n + |ds| + 3 + i, 0, regs, trace), Running(n + 1 + Select(ds, regs[scrut], i + 1), 0, regs, trace));
    } else {
      assert Select(ds, regs[scrut], i) == Select(ds, regs[scrut], i + 1) == |tests|;
      m.Steps(c, Running(Miss(n, ds), 0, regs, trace));
    }
  }

  // bodyVal + 0 + 0 lands in `result`; adding zero never wraps.
  lemma SimMove(m: Machine, s: State, bodyVal: Reg, result: Reg, merge: BlockId, regs: Regs, trace: seq<Event>)
      returns (regs': Regs)
    requires Open(s) && bodyVal in regs && bodyVal < s.numRegs && Extends(m.blocks, FinishArm(s, bodyVal, result, merge).blocks)
    ensures m.To(At(s, regs, trace), Running(merge, 0, regs', trace))
    ensures result <= s.numRegs ==> Preserves(regs, regs', result)
    ensures result in regs' && regs'[result] == regs[bodyVal]
  {
    var n := s.numRegs;
    var k := |s.Cur().insts|;
    var b := FinishArm(s, bodyVal, result, merge).blocks[s.current - 1];
    assert m.blocks[s.current - 1] == b;
    assert b.insts[k] == ConstInt(n, 0) && b.insts[k + 1] == Arith(Add, n + 1, bodyVal, n);
    assert b.insts[k + 2] == ConstInt(n + 2, 0) && b.insts[k + 3] == Arith(Add, result, n + 1, n + 2);
    var v := regs[bodyVal];
    var r1 := regs[n := 0];
    var r2 := r1[n + 1 := v];
    var r3 := r2[n + 2 := 0];
    regs' := r3[result := v];
    var c0 := At(s, regs, trace);
    var c1 := Running(s.current, k + 1, r1, trace);
    var c2 := Running(s.current, k + 2, r2, trace);
    var c3 := Running(s.current, k + 3, r3, trace);
    var c4 := Running(s.current, k + 4, regs', trace);
    assert Wrap(v + 0) == v;
    m.Steps(c0, c1);
    m.Steps(c1, c2);
    m.Steps(c2, c3);
    m.Steps(c3, c4);
    m.Steps(c4, Running(merge, 0, regs', trace));
    m.Trans(c0, c1, c2);
    m.Trans(c0, c2, c3);
    m.Trans(c0, c3, c4);
    m.Trans(c0, c4, Running(merge, 0, regs', trace));
  }

  ghost predicate Pending(s: State, armBase: BlockId, n: nat) {
    && 1 <= armBase && armBase - 1 + n < |s.blocks|
    && forall i :: armBase - 1 <= i < armBase - 1 + n ==> s.blocks[i] == EMPTY_BLOCK
  }

  lemma ExtendsBeforeArms(blocks: seq<Block>, s: State, t: State, armBase: BlockId, n: nat)
    requires Pending(s, armBase, n) && ArmsKept(s, t, armBase, n) && Extends(blocks, t.blocks)
    ensures Extends(blocks, s.blocks)
  {
    forall i | 0 <= i < |s.blocks|
      ensures if s.blocks[i].term.NoTerm? then s.blocks[i].insts <= blocks[i].insts else blocks[i] == s.blocks[i]
    {
      if !(armBase - 1 <= i < armBase - 1 + n) {
        assert t.blocks[i] == s.blocks[i];
      }
    }
  }

  lemma ExtendsBeforeFinish(blocks: seq<Block>, s: State, bodyVal: Reg, result: Reg, merge: BlockId)
    requires Open(s) && Extends(blocks, FinishArm(s, bodyVal, result, merge).blocks)
    ensures Extends(blocks, s.blocks)
  {
    var t := FinishArm(s, bodyVal, result, merge);
    forall i | 0 <= i < |s.blocks|
      ensures if s.blocks[i].term.NoTerm? then s.blocks[i].insts <= blocks[i].insts else blocks[i] == s.blocks[i]
    {
      if i + 1 != s.current {
        assert t.blocks[i] == s.blocks[i];
      }
    }
  }

  // From the start of an arm to the merge block, with the value in `result`.
  ghost predicate DoesArm(m: Machine, start: BlockId, regs: Regs, trace: seq<Event>, merge: BlockId, result: Reg, o: Outcome, regs': Regs) {
    var c := Running(start, 0, regs, trace);
    match o
    case Value(v, tr) =>
      m.To(c, Running(merge, 0, regs', tr)) && result in regs' && regs'[result] == v && Preserves(regs, regs', result)
    case Early(v, tr) => m.To(c, Returned(v, tr))
    case Trap(tr) => m.To(c, Trapped(tr))
    case Stuck => false
  }

  lemma ArmStepKeeps(u: State, r: State, t: State, armBase: BlockId, n: nat)
    requires n > 0 && Pending(u, armBase, n) && u.current == armBase && Kept(u, r) && |t.blocks| == |r.blocks|
    requires forall i :: 0 <= i < |r.blocks| && i + 1 != r.current ==> t.blocks[i] == r.blocks[i]
    ensures Pending(t, armBase + 1, n - 1)
  {
    forall i | armBase <= i < armBase - 1 + n
      ensures t.blocks[i] == EMPTY_BLOCK
    {
      assert u.blocks[i] == EMPTY_BLOCK && r.blocks[i] == u.blocks[i];
    }
  }

  // The parts of a non-empty list of lowered arms.
  lemma ArmUnfold(p: Program, s: State, arms: seq<Arm>, params: map<string, Reg>, armBase: BlockId, merge: BlockId, result: Reg)
    requires arms != [] && Pending(s, armBase, |arms|) && 1 <= s.numRegs && ParamsOk(params, s) && StraightArms(p, arms)
    requires LowerArms(p, s, arms, params, armBase, merge, result).AllDone?
    ensures !arms[0].body.OtherBody?
    ensures var u := UseBlock(s, armBase); var e := arms[0].body.value;
      && u.Ok() && Pre(p, u, e, params) && u.Cur().insts == [] && u.current == armBase
      && u.numRegs == s.numRegs && u.blocks == s.blocks
      && var r := LowerExpr(p, u, e, params);
      && r.Done? && Open(r.state) && Kept(u, r.state) && 1 <= r.reg < r.state.numRegs && s.numRegs <= r.state.numRegs
      && var t := FinishArm(r.state, r.reg, result, merge);
      && Pending(t, armBase + 1, |arms| - 1) && s.numRegs <= t.numRegs && ParamsOk(params, t) && StraightArms(p, arms[1..])
      && LowerArms(p, s, arms, params, armBase, merge, result) == LowerArms(p, t, arms[1..], params, armBase + 1, merge, result)
  {
    hide Kept;
    var arm := arms[0];
    var u := UseBlock(s, armBase);
    var r := LowerExpr(p, u, arm.body.value, params);
    SubExpr(p, u, arm.body.value, params);
    ArmStepKeeps(u, r.state, FinishArm(r.state, r.reg, result, merge), armBase, |arms|);
  }

  lemma {:induction false} SimArms(m: Machine, p: Program, s: State, arms: seq<Arm>, params: map<string, Reg>, armBase: BlockId,
                                   merge: BlockId, result: Reg, k: nat, env: Env, regs: Regs, trace: seq<Event>)
      returns (regs': Regs)
    requires k < |arms| && Pending(s, armBase, |arms|) && 1 <= s.numRegs && result <= s.numRegs
    requires ParamsOk(params, s) && StraightArms(p, arms) && Agree(params, env, regs)
    requires LowerArms(p, s, arms, params, armBase, merge, result).AllDone?
    requires Extends(m.blocks, LowerArms(p, s, arms, params, armBase, merge, result).state.blocks)
    ensures !arms[k].body.OtherBody?
    ensures DoesArm(m, armBase + k, regs, trace, merge, result, Eval(p, m.w, Lowered, arms[k].body.value, env, trace), regs')
    decreases arms, 0
  {
    hide *;
    var arm := arms[0];
    assert arm.body < arm && arms[0] in arms;
    ArmUnfold(p, s, arms, params, armBase, merge, result);
    var u := UseBlock(s, armBase);
    var r := LowerExpr(p, u, arm.body.value, params);
    var t := FinishArm(r.state, r.reg, result, merge);
    if k > 0 {
      regs' := SimArms(m, p, t, arms[1..], params, armBase + 1, merge, result, k - 1, env, regs, trace);
      assert arms[1..][k - 1] == arms[k];
    } else {
      PendingOpen(t, armBase + 1, |arms| - 1);
      DisciplineArms(p, t, arms[1..], params, armBase + 1, merge, result);
      ExtendsBeforeArms(m.blocks, t, LowerArms(p, t, arms[1..], params, armBase + 1, merge, result).state, armBase + 1, |arms| - 1);
      ExtendsBeforeFinish(m.blocks, r.state, r.reg, result, merge);
      var regs1 := SimExpr(m, p, u, arm.body.value, params, env, regs, trace);
      regs' := DoesFinish(m, u, regs, trace, r.state, r.reg, Eval(p, m.w, Lowered, arm.body.value, env, trace), regs1, result, merge);
    }
  }

  lemma PendingOpen(s: State, armBase: BlockId, n: nat)
    requires Pending(s, armBase, n)
    ensures 1 <= armBase && armBase - 1 + n < |s.blocks|
    ensures forall i :: armBase - 1 <= i < armBase - 1 + n ==> s.blocks[i].term.NoTerm?
  {
  }

  lemma DoesFinish(m: Machine, u: State, regs: Regs, trace: seq<Event>, t: State, r: Reg, o: Outcome, regs1: Regs, result: Reg, merge: BlockId)
      returns (regs': Regs)
    requires u.Ok() && u.Cur().insts == [] && Open(t) && r < t.numRegs && result <= u.numRegs <= t.numRegs
    requires Does(m, u, regs, trace, t, r, o, regs1) && Extends(m.blocks, FinishArm(t, r, result, merge).blocks)
    ensures DoesArm(m, u.current, regs, trace, merge, result, o, regs')
  {
    regs' := regs1;
    if o.Value? {
      regs' := SimMove(m, t, r, result, merge, regs1, o.trace);
      m.Trans(At(u, regs, trace), At(t, regs1, o.trace), Running(merge, 0, regs', o.trace));
    }
  }

  lemma SimMatch(m: Machine, p: Program, s: State, e: Expr, params: map<string, Reg>, env: Env, regs: Regs, trace: seq<Event>)
      returns (regs': Regs)
    requires e.Match? && Pre(p, s, e, params) && Agree(params, env, regs)
    requires Extends(m.blocks, LowerExpr(p, s, e, params).state.blocks)
    ensures var r := LowerExpr(p, s, e, params);
      Does(m, s, regs, trace, r.state, r.reg, Eval(p, m.w, Lowered, e, env, trace), regs')
    decreases e, 0
  {
    hide Kept, Extends, Does, LowerMatch, MatchOutcome, Agree;
    var whole := LowerExpr(p, s, e, params);
    var a := LowerExpr(p, s, e.scrutinee, params);
    SubExpr(p, s, e.scrutinee, params);
    MatchKeeps(p, a.state, a.reg, e.scrutType, e.arms, params);
    ExtendsBack(m.blocks, a.state, whole.state);
    var regs1 := SimExpr(m, p, s, e.scrutinee, params, env, regs, trace);
    var o1 := Eval(p, m.w, Lowered, e.scrutinee, env, trace);
    MatchEval(p, m.w, e, env, trace);
    if !o1.Value? {
      DoesStop(m, s, regs, trace, a.state, whole.state, a.reg, whole.reg, o1, regs1);
      return regs1;
    }
    DoesValue(m, s, regs, trace, a.state, a.reg, o1, regs1);
    AgreeLater(params, env, regs, regs1, s);
    regs' := SimMatched(m, p, a.state, a.reg, e.scrutType, e.arms, params, env, regs1, o1.trace);
    var o2 := MatchOutcome(p, m.w, e.scrutType, e.arms, o1.v, env, o1.trace);
    DoesThen(m, s, regs, trace, a.state, a.reg, o1.v, o1.trace, regs1, whole.state, whole.reg, o2, regs');
  }

  // A match, once the scrutinee has its value.
  function MatchOutcome(p: Program, w: World, t: TypeId, arms: seq<Arm>, v: Int64, env: Env, trace: seq<Event>): Outcome {
    var k := Select(Discs(p, t, arms), v, 0);
    if k == |arms| then Value(0, trace)
    else if arms[k].body.OtherBody? then Stuck
    else Eval(p, w, Lowered, arms[k].body.value, env, trace)
  }

  lemma MatchEval(p: Program, w: World, e: Expr, env: Env, trace: seq<Event>)
    requires e.Match?
    ensures var a := Eval(p, w, Lowered, e.scrutinee, env, trace);
      Eval(p, w, Lowered, e, env, trace) ==
      if a.Value? then MatchOutcome(p, w, e.scrutType, e.arms, a.v, env, a.trace) else a
  {
  }

  lemma SimMatched(m: Machine, p: Program, s: State, scrut: Reg, t: TypeId, arms: seq<Arm>, params: map<string, Reg>, env: Env, regs: Regs, trace: seq<Event>)
      returns (regs': Regs)
    requires Open(s) && s.AtLast() && ParamsOk(params, s) && StraightArms(p, arms) && Agree(params, env, regs)
    requires LowerMatch(p, s, scrut, t, arms, params).Done? && scrut in regs && scrut < s.numRegs
    requires Extends(m.blocks, LowerMatch(p, s, scrut, t, arms, params).state.blocks)
    ensures var r := LowerMatch(p, s, scrut, t, arms, params);
      r.state.Ok() && Does(m, s, regs, trace, r.state, r.reg, MatchOutcome(p, m.w, t, arms, regs[scrut], env, trace), regs')
    decreases arms, 2
  {
    hide Kept, Extends, LowerMatch, DoesArm, Eval, Agree;
    MatchKeeps(p, s, scrut, t, arms, params);
    var r := LowerMatch(p, s, scrut, t, arms, params);
    var k := Select(Discs(p, t, arms), regs[scrut], 0);
    var regs1 := SimDispatch(m, p, s, scrut, t, arms, params, regs, trace);
    if k == |arms| {
      regs' := regs1;
    } else {
      AgreeLater(params, env, regs, regs1, s);
      regs' := SimSelected(m, p, s, scrut, t, arms, params, k, env, regs1, trace);
      DoesSelected(m, s, regs, trace, |s.blocks| + 1 + k, regs1, r.state, r.reg,
                   MatchOutcome(p, m.w, t, arms, regs[scrut], env, trace), regs');
    }
  }

  lemma DoesSelected(m: Machine, s: State, regs: Regs, trace: seq<Event>, start: BlockId, regs1: Regs, t: State, r: Reg, o: Outcome, regs': Regs)
    requires s.Ok() && t.Ok() && t.Cur().insts == [] && r == s.numRegs
    requires m.To(At(s, regs, trace), Running(start, 0, regs1, trace)) && Preserves(regs, regs1, s.numRegs)
    requires DoesArm(m, start, regs1, trace, t.current, r, o, regs')
    ensures Does(m, s, regs, trace, t, r, o, regs')
  {
    var c := Running(start, 0, regs1, trace);
    match o
    case Value(v, tr) =>
      m.Trans(At(s, regs, trace), c, Running(t.current, 0, regs', tr));
      PreservesTrans(regs, regs1, regs', s.numRegs, s.numRegs);
    case Early(v, tr) => m.Trans(At(s, regs, trace), c, Returned(v, tr));
    case Trap(tr) => m.Trans(At(s, regs, trace), c, Trapped(tr));
    case Stuck =>
  }

  // The parts of a lowered match.
  lemma MatchUnfold(p: Program, s: State, scrut: Reg, t: TypeId, arms: seq<Arm>, params: map<string, Reg>)
    requires s.Ok() && ParamsOk(params, s) && LowerMatch(p, s, scrut, t, arms, params).Done?
    ensures var ds := Discs(p, t, arms); var n := |s.blocks|;
      && Testable(ds)
      && var s1 := Dispatch(s, scrut, ds);
      && Pending(s1, n + 1, |arms|) && ParamsOk(params, s1)
      && var rs := LowerArms(p, s1, arms, params, n + 1, n + 1 + |arms|, s.numRegs);
      && rs.AllDone? && LowerMatch(p, s, scrut, t, arms, params) == Done(s.numRegs, rs.state.(current := n + 1 + |arms|))
  {
    var ds := Discs(p, t, arms);
    TestableByMembership(ds);
    DispatchShape(s, scrut, ds);
    hide Dispatch;
  }

  lemma MatchKeeps(p: Program, s: State, scrut: Reg, t: TypeId, arms: seq<Arm>, params: map<string, Reg>)
    requires Open(s) && s.AtLast() && ParamsOk(params, s) && StraightArms(p, arms)
    requires LowerMatch(p, s, scrut, t, arms, params).Done?
    ensures var r := LowerMatch(p, s, scrut, t, arms, params);
      && Open(r.state) && Kept(s, r.state) && r.reg == s.numRegs
      && r.state.current == |s.blocks| + 1 + |arms| && r.state.Cur() == EMPTY_BLOCK
  {
    DisciplineMatch(p, s, scrut, t, arms, params);
    var ds := Discs(p, t, arms);
    TestableByMembership(ds);
    DispatchShape(s, scrut, ds);
    DisciplineArms(p, Dispatch(s, scrut, ds), arms, params, |s.blocks| + 1, |s.blocks| + 1 + |arms|, s.numRegs);
  }

  // From the scrutinee's block to the selected arm, or to the merge block.
  lemma SimDispatch(m: Machine, p: Program, s: State, scrut: Reg, t: TypeId, arms: seq<Arm>, params: map<string, Reg>, regs: Regs, trace: seq<Event>)
      returns (regs': Regs)
    requires Open(s) && s.AtLast() && ParamsOk(params, s) && StraightArms(p, arms) && scrut in regs && scrut < s.numRegs
    requires LowerMatch(p, s, scrut, t, arms, params).Done?
    requires Extends(m.blocks, LowerMatch(p, s, scrut, t, arms, params).state.blocks)
    ensures regs' == regs[s.numRegs := 0]
    ensures m.To(At(s, regs, trace), Running(|s.blocks| + 1 + Select(Discs(p, t, arms), regs[scrut], 0), 0, regs', trace))
  {
    hide LowerMatch, LowerArms, Discs, Extends, Select, Dispatch;
    MatchCode(m, p, s, scrut, t, arms, params);
    var ds := Discs(p, t, arms);
    var n := |s.blocks|;
    regs' := regs[s.numRegs := 0];
    var k := |s.Cur().insts|;
    assert m.blocks[n - 1].insts[k] == ConstInt(s.numRegs, 0);
    var c1 := Running(n, k + 1, regs', trace);
    var c2 := Running(Entry(n, ds), 0, regs', trace);
    m.Steps(At(s, regs, trace), c1);
    m.Steps(c1, c2);
    m.Trans(At(s, regs, trace), c1, c2);
    if TestsOf(ds) != [] {
      SimCompares(m, ds, scrut, n, 0, regs', trace);
      m.Trans(At(s, regs, trace), c2, Running(n + 1 + Select(ds, regs[scrut], 0), 0, regs', trace));
    }
  }

  // The scrutinee's block and the comparison blocks are final.
  lemma MatchCode(m: Machine, p: Program, s: State, scrut: Reg, t: TypeId, arms: seq<Arm>, params: map<string, Reg>)
    requires Open(s) && s.AtLast() && ParamsOk(params, s) && StraightArms(p, arms)
    requires LowerMatch(p, s, scrut, t, arms, params).Done?
    requires Extends(m.blocks, LowerMatch(p, s, scrut, t, arms, params).state.blocks)
    ensures var ds := Discs(p, t, arms); var n := |s.blocks|;
      && Testable(ds) && n + |ds| + 1 + |TestsOf(ds)| <= |m.blocks|
      && m.blocks[n - 1] == Block(s.Cur().insts + [ConstInt(s.numRegs, 0)], Jump(Entry(n, ds)))
      && forall k :: n + |ds| < k <= n + |ds| + |TestsOf(ds)| ==>
        m.blocks[k] == Block([], CompareTerm(scrut, TestsOf(ds), n + 1, n + |ds| + 2, Miss(n, ds), k - (n + |ds| + 1)))
  {
    hide Dispatch, LowerMatch, LowerArms, Discs, Select, Kept;
    MatchUnfold(p, s, scrut, t, arms, params);
    var ds := Discs(p, t, arms);
    var n := |s.blocks|;
    DispatchShape(s, scrut, ds);
    var s1 := Dispatch(s, scrut, ds);
    PendingOpen(s1, n + 1, |arms|);
    DisciplineArms(p, s1, arms, params, n + 1, n + 1 + |arms|, s.numRegs);
    var u := LowerArms(p, s1, arms, params, n + 1, n + 1 + |arms|, s.numRegs).state;
    assert u.blocks[n - 1] == s1.blocks[n - 1];
    forall k | n + |ds| < k <= n + |ds| + |TestsOf(ds)|
      ensures m.blocks[k] == s1.blocks[k]
    {
      assert u.blocks[k] == s1.blocks[k];
    }
  }

  lemma DiscsLength(p: Program, t: TypeId, arms: seq<Arm>)
    ensures |Discs(p, t, arms)| == |arms|
  {
  }

  // From the selected arm to the merge block.
  lemma SimSelected(m: Machine, p: Program, s: State, scrut: Reg, t: TypeId, arms: seq<Arm>, params: map<string, Reg>, k: nat, env: Env, regs: Regs, trace: seq<Event>)
      returns (regs': Regs)
    requires Open(s) && s.AtLast() && ParamsOk(params, s) && StraightArms(p, arms) && k < |arms| && Agree(params, env, regs)
    requires LowerMatch(p, s, scrut, t, arms, params).Done?
    requires Extends(m.blocks, LowerMatch(p, s, scrut, t, arms, params).state.blocks)
    ensures !arms[k].body.OtherBody?
    ensures DoesArm(m, |s.blocks| + 1 + k, regs, trace, |s.blocks| + 1 + |arms|, s.numRegs,
                    Eval(p, m.w, Lowered, arms[k].body.value, env, trace), regs')
    decreases arms, 1
  {
    hide *;
    OpenIsOk(s);
    MatchUnfold(p, s, scrut, t, arms, params);
    DiscsLength(p, t, arms);
    var n := |s.blocks|;
    regs' := SimArms(m, p, Dispatch(s, scrut, Discs(p, t, arms)), arms, params, n + 1, n + 1 + |arms|, s.numRegs, k, env, regs, trace);
  }
}
