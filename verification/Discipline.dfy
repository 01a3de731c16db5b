// Which expressions branch only from the block allocated last, and what
// becomes of the others: a block is left without a terminator for good.
module Discipline {
  import opened Mir
  import opened Hir
  import opened Lowering

  /******* The discipline, as a property of the expression alone *******/

  // `last`: is the current block the one allocated last? The result says the
  // same of the block in which lowering e ends; None, that a branch inside e
  // would be taken from a block that is not the last.
  function Plan(p: Program, e: Expr, last: bool): (r: Option<bool>)
    ensures !last && r.Some? ==> !r.value
    decreases e, 1
  {
    match e
    case Binary(_, _, l, r) =>
      var a := Plan(p, l, last);
      if a.None? then None else Plan(p, r, a.value)
    case CallFn(_, args) => PlanExprs(p, args, last)
    case CallClosure(_, args, body) =>
      var a := PlanExprs(p, args, last);
      if a.None? || ClosureValue(body).None? then a else Plan(p, ClosureValue(body).value, a.value)
    case Field(r, _) => Plan(p, r, last)
    case OptField(r, _, _) => if Plan(p, r, last) == Some(true) then Some(true) else None
    case Try(r, _) => if Plan(p, r, last) == Some(true) then Some(true) else None
    case Match(s, t, arms) =>
      if Plan(p, s, last) == Some(true) && StraightArms(p, arms)
      then Some(|arms| == 1 && DiscOf(p, t, arms[0].pattern).CatchAll?) else None
    case _ => Some(last)
  }

  function PlanExprs(p: Program, es: seq<Expr>, last: bool): (r: Option<bool>)
    ensures !last && r.Some? ==> !r.value
    decreases es, 0
  {
    if es == [] then Some(last)
    else
      var a := Plan(p, es[0], last);
      if a.None? then None else PlanExprs(p, es[1..], a.value)
  }

  // No arm branches.
  predicate StraightArms(p: Program, arms: seq<Arm>)
    decreases arms, 0
  {
    arms == [] ||
    var arm := arms[0];
    assert arm.body < arm;
    (arm.body.OtherBody? || Plan(p, arm.body.value, false).Some?) && StraightArms(p, arms[1..])
  }

  /******* What one lowering step keeps *******/

  ghost predicate ParamsOk(params: map<string, Reg>, s: State) {
    forall x :: x in params ==> 1 <= params[x] < s.numRegs
  }

  ghost predicate RegsOk(rs: seq<Reg>, s: State) {
    forall i :: 0 <= i < |rs| ==> 1 <= rs[i] < s.numRegs
  }

  predicate Open(s: State) {
    s.Ok() && s.Cur().term.NoTerm?
  }

  // Whatever is lowered: old blocks other than the current and the last stay
  // as they are, and control is either where it was or in a new block.
  ghost predicate Framed(s: State, t: State) {
    && |s.blocks| <= |t.blocks| && s.numRegs <= t.numRegs
    && (forall i :: 0 <= i < |s.blocks| - 1 && i + 1 != s.current ==> t.blocks[i] == s.blocks[i])
    && (t.current == s.current || t.current > |s.blocks|)
  }

  // With the discipline: all old blocks other than the current one stay, the
  // current one only grows, new blocks appear only after the last, and every
  // block that control has left is sealed.
  ghost predicate Kept(s: State, t: State) {
    && |s.blocks| <= |t.blocks| && s.numRegs <= t.numRegs
    && (forall i :: 0 <= i < |s.blocks| && i + 1 != s.current ==> t.blocks[i] == s.blocks[i])
    && 1 <= s.current <= |s.blocks|
    && s.blocks[s.current - 1].insts <= t.blocks[s.current - 1].insts
    && (t.current == s.current || (t.current > |s.blocks| && s.AtLast()))
    && (!s.AtLast() ==> |t.blocks| == |s.blocks|)
    && (forall i :: 0 <= i < |t.blocks| && (i + 1 == s.current || i >= |s.blocks|) && i + 1 != t.current ==>
      !t.blocks[i].term.NoTerm?)
  }

  // Block i has no terminator and lowering will never come back to it.
  predicate Abandoned(s: State, i: nat) {
    i + 1 < |s.blocks| && i + 1 != s.current && s.blocks[i].term.NoTerm?
  }

  // Somewhere from s to t a block was abandoned: the current block of s, or a later one.
  ghost predicate LostBlock(s: State, t: State) {
    exists i: nat :: Abandoned(t, i) && (i + 1 == s.current || i >= |s.blocks|)
  }

  lemma FramedTrans(s: State, t: State, u: State)
    requires Framed(s, t) && Framed(t, u)
    ensures Framed(s, u)
  {
  }

  lemma KeptTrans(s: State, t: State, u: State)
    requires Kept(s, t) && Kept(t, u)
    ensures Kept(s, u)
  {
  }

  lemma LostStays(s: State, t: State, u: State)
    requires LostBlock(s, t) && Framed(t, u) && |s.blocks| <= |t.blocks|
    ensures LostBlock(s, u)
  {
    var i: nat :| Abandoned(t, i) && (i + 1 == s.current || i >= |s.blocks|);
    assert Abandoned(u, i);
  }

  lemma LostLater(s: State, t: State, u: State)
    requires Kept(s, t) && LostBlock(t, u)
    ensures LostBlock(s, u)
  {
    var i: nat :| Abandoned(u, i) && (i + 1 == t.current || i >= |t.blocks|);
    assert i + 1 == s.current || i >= |s.blocks|;
  }

  lemma EmitKeeps(s: State, inst: Inst)
    requires s.Ok() && inst.dst == s.numRegs
    ensures Framed(s, Emit(s, inst)) && Kept(s, Emit(s, inst))
    ensures Open(s) ==> Open(Emit(s, inst))
    ensures Emit(s, inst).AtLast() == s.AtLast()
  {
  }

  /******* The blocks a match lays out *******/

  lemma DispatchShape(s: State, scrut: Reg, ds: seq<Disc>)
    requires s.Ok() && Testable(ds)
    ensures var t := Dispatch(s, scrut, ds); var m := |s.blocks|; var tests := TestsOf(ds);
      && |t.blocks| == m + |ds| + 1 + |tests|
      && (forall i :: 0 <= i < m - 1 && i + 1 != s.current ==> t.blocks[i] == s.blocks[i])
      && (forall i :: m <= i <= m + |ds| ==> t.blocks[i] == EMPTY_BLOCK)
      && (forall i :: m + |ds| < i < |t.blocks| ==>
        t.blocks[i] == Block([], CompareTerm(scrut, tests, m + 1, m + |ds| + 2, Miss(m, ds), i - (m + |ds| + 1))))
      && t.blocks[s.current - 1] == Block(s.Cur().insts + [ConstInt(s.numRegs, 0)],
        if s.AtLast() then Jump(Entry(m, ds)) else s.Cur().term)
  {
  }

  /******* The frame *******/

  lemma {:induction false} FrameExpr(p: Program, s: State, e: Expr, params: map<string, Reg>)
    requires s.Ok() && ParamsOk(params, s) && LowerExpr(p, s, e, params).Done?
    ensures var r := LowerExpr(p, s, e, params); Framed(s, r.state) && 1 <= r.reg < r.state.numRegs
    decreases e, 1
  {
    hide Framed;
    match e
    case Binary(op, t, lhs, rhs) =>
      var a := LowerExpr(p, s, lhs, params);
      FrameExpr(p, s, lhs, params);
      ParamsLater(params, s, a.state);
      FrameExpr(p, a.state, rhs, params);
      var b := LowerExpr(p, a.state, rhs, params);
      FramedTrans(s, a.state, b.state);
      FrameBinary(p, b.state, op, t, a.reg, b.reg);
      FramedTrans(s, b.state, LowerExpr(p, s, e, params).state);
    case CallFn(name, args) =>
      FrameExprs(p, s, args, params);
      var rs := LowerExprs(p, s, args, params);
      FramedEmit(s, rs.state, Call(rs.state.numRegs, CName(p.modPath, name), rs.regs));
    case CallClosure(names, args, body) =>
      FrameExprs(p, s, args, params);
      var rs := LowerExprs(p, s, args, params);
      ParamsLater(params, s, rs.state);
      BindAllOk(params, names, rs.regs, rs.state);
      FrameExpr(p, rs.state, ClosureValue(body).value, BindAll(params, names, rs.regs));
      FramedTrans(s, rs.state, LowerExpr(p, s, e, params).state);
    case Field(recv, f) =>
      FrameExpr(p, s, recv, params);
      var a := LowerExpr(p, s, recv, params);
      FramedEmit(s, a.state, FieldRead(a.state.numRegs, a.reg, f));
    case OptField(recv, t, f) =>
      FrameExpr(p, s, recv, params);
      var a := LowerExpr(p, s, recv, params);
      FramePropagate(a.state, a.reg, AsInt64(ErrorIndex(p, t).value));
      var u := Propagate(a.state, a.reg, AsInt64(ErrorIndex(p, t).value));
      FramedTrans(s, a.state, u);
      FramedEmit(s, u, FieldRead(u.numRegs, a.reg, f));
    case Try(recv, t) =>
      FrameExpr(p, s, recv, params);
      var a := LowerExpr(p, s, recv, params);
      FramePropagate(a.state, a.reg, AsInt64(ErrorIndex(p, t).value));
      FramedTrans(s, a.state, LowerExpr(p, s, e, params).state);
    case Match(scrut, t, arms) =>
      FrameExpr(p, s, scrut, params);
      var a := LowerExpr(p, s, scrut, params);
      ParamsLater(params, s, a.state);
      FrameMatch(p, a.state, a.reg, t, arms, params);
      FramedTrans(s, a.state, LowerExpr(p, s, e, params).state);
    case _ => FrameLeaf(p, s, e, params);
  }

  lemma ParamsLater(params: map<string, Reg>, s: State, t: State)
    requires ParamsOk(params, s) && s.numRegs <= t.numRegs
    ensures ParamsOk(params, t)
  {
  }

  lemma FramedEmit(s: State, t: State, inst: Inst)
    requires t.Ok() && Framed(s, t) && inst.dst == t.numRegs
    ensures Framed(s, Emit(t, inst))
  {
  }

  lemma FrameLeaf(p: Program, s: State, e: Expr, params: map<string, Reg>)
    requires s.Ok() && ParamsOk(params, s) && LowerLeaf(p, s, e, params).Done?
    ensures var r := LowerLeaf(p, s, e, params); Framed(s, r.state) && 1 <= r.reg < r.state.numRegs
  {
  }

  lemma FrameBinary(p: Program, s: State, op: BinOp, t: TypeId, a: Reg, b: Reg)
    requires s.Ok() && !op.OtherBin?
    ensures var r := LowerBinary(p, s, op, t, a, b); r.Done? && r.state.Ok() && Framed(s, r.state) && 1 <= r.reg < r.state.numRegs
  {
  }

  lemma {:induction false} FrameExprs(p: Program, s: State, es: seq<Expr>, params: map<string, Reg>)
    requires s.Ok() && ParamsOk(params, s) && LowerExprs(p, s, es, params).AllDone?
    ensures var r := LowerExprs(p, s, es, params); Framed(s, r.state) && RegsOk(r.regs, r.state)
    decreases es, 0
  {
    if es != [] {
      FrameExpr(p, s, es[0], params);
      FrameExprs(p, LowerExpr(p, s, es[0], params).state, es[1..], params);
    }
  }

  lemma {:induction false} BindAllOk(params: map<string, Reg>, names: seq<string>, rs: seq<Reg>, s: State)
    requires |names| == |rs| && ParamsOk(params, s) && RegsOk(rs, s)
    ensures ParamsOk(BindAll(params, names, rs), s)
    decreases names
  {
    if names != [] {
      BindAllOk(params[names[0] := rs[0]], names[1..], rs[1..], s);
    }
  }

  lemma FramePropagate(s: State, recv: Reg, k: Int64)
    requires s.Ok()
    ensures Framed(s, Propagate(s, recv, k))
  {
  }

  lemma FrameMatch(p: Program, s: State, scrut: Reg, t: TypeId, arms: seq<Arm>, params: map<string, Reg>)
    requires s.Ok() && ParamsOk(params, s) && LowerMatch(p, s, scrut, t, arms, params).Done?
    ensures var r := LowerMatch(p, s, scrut, t, arms, params); Framed(s, r.state) && 1 <= r.reg < r.state.numRegs
    decreases arms, 1
  {
    var ds := Discs(p, t, arms);
    TestableByMembership(ds);
    DispatchShape(s, scrut, ds);
    hide Dispatch;
    var s1 := Dispatch(s, scrut, ds);
    FrameArms(p, s1, arms, params, |s.blocks| + 1, |s.blocks| + 1 + |arms|, s.numRegs);
  }

  lemma {:induction false} FrameArms(p: Program, s: State, arms: seq<Arm>, params: map<string, Reg>,
                                     armBase: BlockId, merge: BlockId, result: Reg)
    requires 1 <= armBase && armBase - 1 + |arms| < |s.blocks| && 1 <= s.numRegs && ParamsOk(params, s)
    requires LowerArms(p, s, arms, params, armBase, merge, result).AllDone?
    ensures var t := LowerArms(p, s, arms, params, armBase, merge, result).state;
      forall i :: 0 <= i < |s.blocks| - 1 && !(armBase - 1 <= i < armBase - 1 + |arms|) ==> t.blocks[i] == s.blocks[i]
    decreases arms, 0
  {
    if arms != [] {
      var arm := arms[0];
      assert arm.body < arm;
      var u := UseBlock(s, armBase);
      FrameExpr(p, u, arm.body.value, params);
      var r := LowerExpr(p, u, arm.body.value, params);
      var t := FinishArm(r.state, r.reg, result, merge);
      FrameArms(p, t, arms[1..], params, armBase + 1, merge, result);
    }
  }

  /******* Disciplined or lost *******/

  ghost predicate Outcome(s: State, t: State, plan: Option<bool>) {
    match plan
    case Some(last) => Open(t) && t.AtLast() == last && Kept(s, t)
    case None => LostBlock(s, t)
  }

  lemma OutcomeThen(s: State, t: State, u: State, first: Option<bool>, second: Option<bool>)
    requires Outcome(s, t, first) && Framed(s, t) && Framed(t, u)
    requires first.Some? ==> Outcome(t, u, second)
    ensures Outcome(s, u, if first.None? then None else second)
  {
    if first.None? {
      LostStays(s, t, u);
    } else if second.Some? {
      KeptTrans(s, t, u);
    } else {
      LostLater(s, t, u);
    }
  }

  lemma OutcomeEmit(s: State, t: State, plan: Option<bool>, inst: Inst)
    requires t.Ok() && Framed(s, t) && Outcome(s, t, plan) && inst.dst == t.numRegs
    ensures Outcome(s, Emit(t, inst), plan) && Framed(s, Emit(t, inst))
  {
    var u := Emit(t, inst);
    EmitKeeps(t, inst);
    FramedTrans(s, t, u);
    if plan.Some? {
      KeptTrans(s, t, u);
    } else {
      LostStays(s, t, u);
    }
  }

  lemma {:induction false} DisciplineExpr(p: Program, s: State, e: Expr, params: map<string, Reg>)
    requires Open(s) && ParamsOk(params, s) && LowerExpr(p, s, e, params).Done?
    ensures Outcome(s, LowerExpr(p, s, e, params).state, Plan(p, e, s.AtLast()))
    decreases e, 1
  {
    hide Framed, Kept, LostBlock, LowerBinary, LowerMatch, LowerLeaf, LowerExprs, PlanExprs, Propagate, Emit;
    match e
    case Binary(op, t, lhs, rhs) => DisciplineBinary(p, s, e, params);
    case CallFn(_, args) =>
      var rs := LowerExprs(p, s, args, params);
      FrameExprs(p, s, args, params);
      DisciplineExprs(p, s, args, params);
      OutcomeEmit(s, rs.state, PlanExprs(p, args, s.AtLast()), Call(rs.state.numRegs, CName(p.modPath, e.name), rs.regs));
    case CallClosure(names, args, body) =>
      var rs := LowerExprs(p, s, args, params);
      FrameExprs(p, s, args, params);
      DisciplineExprs(p, s, args, params);
      BindAllOk(params, names, rs.regs, rs.state);
      var inner := BindAll(params, names, rs.regs);
      FrameExpr(p, rs.state, ClosureValue(body).value, inner);
      var plan := PlanExprs(p, args, s.AtLast());
      if plan.Some? {
        DisciplineExpr(p, rs.state, ClosureValue(body).value, inner);
      }
      OutcomeThen(s, rs.state, LowerExpr(p, s, e, params).state, plan, Plan(p, ClosureValue(body).value, rs.state.AtLast()));
    case Field(recv, f) =>
      var a := LowerExpr(p, s, recv, params);
      FrameExpr(p, s, recv, params);
      DisciplineExpr(p, s, recv, params);
      OutcomeEmit(s, a.state, Plan(p, recv, s.AtLast()), FieldRead(a.state.numRegs, a.reg, f));
    case OptField(recv, t, f) =>
      var a := LowerExpr(p, s, recv, params);
      FrameExpr(p, s, recv, params);
      DisciplineExpr(p, s, recv, params);
      var k := AsInt64(ErrorIndex(p, t).value);
      DisciplinePropagate(s, a.state, a.reg, k, Plan(p, recv, s.AtLast()));
      var u := Propagate(a.state, a.reg, k);
      OutcomeEmit(s, u, Plan(p, e, s.AtLast()), FieldRead(u.numRegs, a.reg, f));
    case Try(recv, t) =>
      var a := LowerExpr(p, s, recv, params);
      FrameExpr(p, s, recv, params);
      DisciplineExpr(p, s, recv, params);
      DisciplinePropagate(s, a.state, a.reg, AsInt64(ErrorIndex(p, t).value), Plan(p, recv, s.AtLast()));
    case Match(scrut, t, arms) =>
      var a := LowerExpr(p, s, scrut, params);
      FrameExpr(p, s, scrut, params);
      DisciplineExpr(p, s, scrut, params);
      FrameMatch(p, a.state, a.reg, t, arms, params);
      var plan := Plan(p, scrut, s.AtLast());
      if plan.Some? {
        DisciplineMatch(p, a.state, a.reg, t, arms, params);
      }
      OutcomeThen(s, a.state, LowerExpr(p, s, e, params).state, plan, MatchPlan(p, a.state.AtLast(), t, arms));
    case _ => DisciplineLeaf(p, s, e, params);
  }

  lemma DisciplineLeaf(p: Program, s: State, e: Expr, params: map<string, Reg>)
    requires Open(s) && LowerLeaf(p, s, e, params).Done?
    ensures Outcome(s, LowerLeaf(p, s, e, params).state, Some(s.AtLast()))
  {
  }

  lemma DisciplineBinary(p: Program, s: State, e: Expr, params: map<string, Reg>)
    requires e.Binary? && Open(s) && ParamsOk(params, s) && LowerExpr(p, s, e, params).Done?
    ensures Outcome(s, LowerExpr(p, s, e, params).state, Plan(p, e, s.AtLast()))
    decreases e, 0
  {
    hide Framed, Kept, LostBlock;
    var a := LowerExpr(p, s, e.lhs, params);
    FrameExpr(p, s, e.lhs, params);
    DisciplineExpr(p, s, e.lhs, params);
    var b := LowerExpr(p, a.state, e.rhs, params);
    ParamsLater(params, s, a.state);
    FrameExpr(p, a.state, e.rhs, params);
    var plan := Plan(p, e.lhs, s.AtLast());
    if plan.Some? {
      DisciplineExpr(p, a.state, e.rhs, params);
    }
    OutcomeThen(s, a.state, b.state, plan, Plan(p, e.rhs, a.state.AtLast()));
    FramedTrans(s, a.state, b.state);
    DisciplineOperator(p, s, b.state, Plan(p, e, s.AtLast()), e.op, e.operandType, a.reg, b.reg);
  }

  lemma DisciplineOperator(p: Program, s: State, t: State, plan: Option<bool>, op: BinOp, ty: TypeId, a: Reg, b: Reg)
    requires t.Ok() && Framed(s, t) && Outcome(s, t, plan) && !op.OtherBin?
    ensures Outcome(s, LowerBinary(p, t, op, ty, a, b).state, plan)
  {
    hide Framed, Outcome;
    var n := t.numRegs;
    if op.ArithBin? {
      OutcomeEmit(s, t, plan, Arith(op.op, n, a, b));
    } else {
      var eq := if IsScalar(p, ty) then EqScalar(n, a, b) else EqCall(n, EqName(p, ty), [a, b]);
      OutcomeEmit(s, t, plan, eq);
      var s1 := Emit(t, eq);
      if op.NeBin? {
        OutcomeEmit(s, s1, plan, ConstInt(n + 1, 1));
        OutcomeEmit(s, Emit(s1, ConstInt(n + 1, 1)), plan, Arith(Sub, n + 2, n + 1, n));
      }
    }
  }

  lemma {:induction false} DisciplineExprs(p: Program, s: State, es: seq<Expr>, params: map<string, Reg>)
    requires Open(s) && ParamsOk(params, s) && LowerExprs(p, s, es, params).AllDone?
    ensures Outcome(s, LowerExprs(p, s, es, params).state, PlanExprs(p, es, s.AtLast()))
    decreases es, 0
  {
    if es != [] {
      var a := LowerExpr(p, s, es[0], params);
      FrameExpr(p, s, es[0], params);
      DisciplineExpr(p, s, es[0], params);
      FrameExprs(p, a.state, es[1..], params);
      var plan := Plan(p, es[0], s.AtLast());
      if plan.Some? {
        DisciplineExprs(p, a.state, es[1..], params);
      }
      OutcomeThen(s, a.state, LowerExprs(p, s, es, params).state, plan, PlanExprs(p, es[1..], a.state.AtLast()));
    }
  }

  lemma DisciplinePropagate(s: State, t: State, recv: Reg, k: Int64, plan: Option<bool>)
    requires t.Ok() && Framed(s, t) && Outcome(s, t, plan)
    ensures Framed(s, Propagate(t, recv, k))
    ensures Outcome(s, Propagate(t, recv, k), if plan == Some(true) then Some(true) else None)
  {
    var u := Propagate(t, recv, k);
    FramePropagate(t, recv, k);
    FramedTrans(s, t, u);
    if plan == Some(true) {
      KeptTrans(s, t, u);
    } else if plan.None? {
      LostStays(s, t, u);
    } else {
      assert Abandoned(u, t.current - 1);
    }
  }

  function MatchPlan(p: Program, last: bool, t: TypeId, arms: seq<Arm>): Option<bool> {
    if last && StraightArms(p, arms) then Some(|arms| == 1 && DiscOf(p, t, arms[0].pattern).CatchAll?) else None
  }

  lemma DisciplineMatch(p: Program, s: State, scrut: Reg, t: TypeId, arms: seq<Arm>, params: map<string, Reg>)
    requires Open(s) && ParamsOk(params, s) && LowerMatch(p, s, scrut, t, arms, params).Done?
    ensures Outcome(s, LowerMatch(p, s, scrut, t, arms, params).state, MatchPlan(p, s.AtLast(), t, arms))
    decreases arms, 1
  {
    hide Dispatch, Discs, LowerArms;
    var ds := Discs(p, t, arms);
    TestableByMembership(ds);
    DispatchShape(s, scrut, ds);
    var s1 := Dispatch(s, scrut, ds);
    var m := |s.blocks|;
    var u := LowerArms(p, s1, arms, params, m + 1, m + 1 + |arms|, s.numRegs).state;
    var v := UseBlock(u, m + 1 + |arms|);
    FrameArms(p, s1, arms, params, m + 1, m + 1 + |arms|, s.numRegs);
    if !s.AtLast() {
      assert Abandoned(v, s.current - 1);
    } else {
      DisciplineArms(p, s1, arms, params, m + 1, m + 1 + |arms|, s.numRegs);
      if !StraightArms(p, arms) {
        var i: nat :| ArmLost(s1, u, m + 1, |arms|, i);
        assert Abandoned(v, i);
      } else {
        assert v.blocks[m + |arms|] == EMPTY_BLOCK;
      }
    }
  }

  ghost predicate ArmsKept(s: State, t: State, armBase: BlockId, n: nat) {
    && |t.blocks| == |s.blocks| && armBase - 1 + n <= |t.blocks| && 1 <= armBase
    && (forall i :: 0 <= i < |s.blocks| && !(armBase - 1 <= i < armBase - 1 + n) ==> t.blocks[i] == s.blocks[i])
    && forall i :: armBase - 1 <= i < armBase - 1 + n ==> !t.blocks[i].term.NoTerm?
  }

  predicate ArmLost(s: State, t: State, armBase: BlockId, n: nat, i: nat) {
    i + 1 < |t.blocks| && t.blocks[i].term.NoTerm? && (armBase - 1 <= i < armBase - 1 + n || i >= |s.blocks|)
  }

  lemma {:induction false} DisciplineArms(p: Program, s: State, arms: seq<Arm>, params: map<string, Reg>,
                                          armBase: BlockId, merge: BlockId, result: Reg)
    requires 1 <= armBase && armBase - 1 + |arms| < |s.blocks| && 1 <= s.numRegs && ParamsOk(params, s)
    requires forall i :: armBase - 1 <= i < armBase - 1 + |arms| ==> s.blocks[i].term.NoTerm?
    requires LowerArms(p, s, arms, params, armBase, merge, result).AllDone?
    ensures var t := LowerArms(p, s, arms, params, armBase, merge, result).state;
      && (StraightArms(p, arms) ==> ArmsKept(s, t, armBase, |arms|))
      && (!StraightArms(p, arms) ==> exists i: nat :: ArmLost(s, t, armBase, |arms|, i))
    decreases arms, 0
  {
    hide Plan, LowerExpr;
    if arms != [] {
      var arm := arms[0];
      assert arm.body < arm;
      var u := UseBlock(s, armBase);
      FrameExpr(p, u, arm.body.value, params);
      DisciplineExpr(p, u, arm.body.value, params);
      var r := LowerExpr(p, u, arm.body.value, params);
      var t := FinishArm(r.state, r.reg, result, merge);
      var v := LowerArms(p, t, arms[1..], params, armBase + 1, merge, result).state;
      FrameArms(p, t, arms[1..], params, armBase + 1, merge, result);
      if Plan(p, arm.body.value, false).None? {
        var i: nat :| Abandoned(r.state, i) && (i + 1 == armBase || i >= |s.blocks|);
        assert t.blocks[i] == r.state.blocks[i];
        assert ArmLost(s, v, armBase, |arms|, i);
      } else {
        DisciplineArms(p, t, arms[1..], params, armBase + 1, merge, result);
        if !StraightArms(p, arms) {
          var i: nat :| ArmLost(t, v, armBase + 1, |arms| - 1, i);
          assert ArmLost(s, v, armBase, |arms|, i);
        }
      }
    }
  }
}
