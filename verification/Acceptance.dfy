// Code lowered under the branch discipline passes validation.
module Acceptance {
  import opened Mir
  import opened Hir
  import opened Lowering
  import opened Discipline
  import opened Simulation

  // Everything emitted so far would pass Validate; unsealed blocks are still owed a terminator.
  ghost predicate Checked(bs: seq<Block>) {
    forall b :: 0 <= b < |bs| ==> BlockChecked(bs, b)
  }

  ghost predicate BlockChecked(bs: seq<Block>, b: nat)
    requires b < |bs|
  {
    InstsOk(bs, b) && (bs[b].term.NoTerm? || TermOk(bs, b))
  }

  // Register r can be read at the end of the current block.
  ghost predicate Avail(s: State, r: Reg)
    requires s.Ok()
  {
    r != 0 && DefinedBefore(s.blocks, s.current - 1, |s.Cur().insts|, r)
  }

  ghost predicate AvailAll(s: State, params: map<string, Reg>)
    requires s.Ok()
  {
    forall x :: x in params ==> Avail(s, params[x])
  }

  ghost predicate AvailSeq(s: State, rs: seq<Reg>)
    requires s.Ok()
  {
    forall i :: 0 <= i < |rs| ==> Avail(s, rs[i])
  }

  // Blocks may be added and may grow at the end.
  ghost predicate Grows(bs: seq<Block>, bs': seq<Block>) {
    |bs| <= |bs'| && forall i :: 0 <= i < |bs| ==> bs[i].insts <= bs'[i].insts
  }

  lemma DefinedGrowsLater(bs: seq<Block>, bs': seq<Block>, b: nat, j: nat, b': nat, j': nat, r: Reg)
    requires Grows(bs, bs') && DefinedBefore(bs, b, j, r) && (b < b' || (b == b' && j <= j'))
    ensures DefinedBefore(bs', b', j', r)
  {
    var i: nat, k: nat :| DefinedAt(bs, b, j, r, i, k);
    assert bs[i].insts <= bs'[i].insts;
    assert DefinedAt(bs', b', j', r, i, k);
  }

  lemma InstOkGrows(bs: seq<Block>, bs': seq<Block>, b: nat, j: nat, inst: Inst)
    requires Grows(bs, bs') && InstOk(bs, b, j, inst)
    ensures InstOk(bs', b, j, inst)
  {
    forall u | 0 <= u < |Uses(inst)|
      ensures DefinedBefore(bs', b, j, Uses(inst)[u])
    {
      DefinedGrowsLater(bs, bs', b, j, b, j, Uses(inst)[u]);
    }
  }

  lemma InstsStay(bs: seq<Block>, bs': seq<Block>, b: nat)
    requires Grows(bs, bs') && b < |bs| && InstsOk(bs, b)
    ensures forall j :: 0 <= j < |bs[b].insts| ==> InstOk(bs', b, j, bs'[b].insts[j])
  {
    forall j | 0 <= j < |bs[b].insts|
      ensures InstOk(bs', b, j, bs'[b].insts[j])
    {
      assert bs'[b].insts[j] == bs[b].insts[j];
      InstOkGrows(bs, bs', b, j, bs[b].insts[j]);
    }
  }

  // A block that did not change is still fine when others grow.
  lemma BlockStays(bs: seq<Block>, bs': seq<Block>, b: nat)
    requires Grows(bs, bs') && b < |bs| && bs'[b] == bs[b] && BlockChecked(bs, b)
    ensures BlockChecked(bs', b)
  {
    InstsStay(bs, bs', b);
    match bs[b].term
    case Return(r) => DefinedGrowsLater(bs, bs', b, |bs[b].insts|, b, |bs[b].insts|, r);
    case IfEq(r, _, _, _) => DefinedGrowsLater(bs, bs', b, |bs[b].insts|, b, |bs[b].insts|, r);
    case _ =>
  }

  lemma BlocksStay(bs: seq<Block>, bs': seq<Block>, except: nat)
    requires Grows(bs, bs') && Checked(bs)
    requires forall i :: 0 <= i < |bs| && i != except ==> bs'[i] == bs[i]
    ensures forall i :: 0 <= i < |bs| && i != except ==> BlockChecked(bs', i)
  {
    forall i | 0 <= i < |bs| && i != except
      ensures BlockChecked(bs', i)
    {
      BlockStays(bs, bs', i);
    }
  }

  lemma AvailKept(s: State, t: State, r: Reg)
    requires s.Ok() && t.Ok() && Kept(s, t) && Avail(s, r)
    ensures Avail(t, r)
  {
    assert Grows(s.blocks, t.blocks);
    DefinedGrowsLater(s.blocks, t.blocks, s.current - 1, |s.Cur().insts|, t.current - 1, |t.Cur().insts|, r);
  }

  lemma AvailAllKept(s: State, t: State, params: map<string, Reg>)
    requires s.Ok() && t.Ok() && Kept(s, t) && AvailAll(s, params)
    ensures AvailAll(t, params)
  {
    forall x | x in params
      ensures Avail(t, params[x])
    {
      AvailKept(s, t, params[x]);
    }
  }

  predicate Shaped(inst: Inst) {
    && inst.dst != 0
    && (inst.Call? || inst.EqCall? ==> inst.name != "")
    && (inst.EqCall? ==> |inst.args| == 2)
    && (inst.FieldRead? ==> inst.field != "")
  }

  lemma AppendChecked(s: State, inst: Inst)
    requires Open(s) && Checked(s.blocks) && Shaped(inst) && AvailSeq(s, Uses(inst))
    ensures var t := Append(s, inst); Checked(t.blocks) && Avail(t, inst.dst) && Grows(s.blocks, t.blocks)
  {
    var t := Append(s, inst);
    var b, n := s.current - 1, |s.Cur().insts|;
    assert Grows(s.blocks, t.blocks);
    BlocksStay(s.blocks, t.blocks, b);
    assert BlockChecked(s.blocks, b);
    InstsStay(s.blocks, t.blocks, b);
    forall j | 0 <= j < |t.blocks[b].insts|
      ensures InstOk(t.blocks, b, j, t.blocks[b].insts[j])
    {
      if j == n {
        forall u | 0 <= u < |Uses(inst)|
          ensures Uses(inst)[u] != 0 && DefinedBefore(t.blocks, b, n, Uses(inst)[u])
        {
          assert Avail(s, Uses(inst)[u]);
          DefinedGrowsLater(s.blocks, t.blocks, b, n, b, n, Uses(inst)[u]);
        }
        assert inst.Arith? || inst.EqScalar? ==> Uses(inst)[0] == inst.lhs && Uses(inst)[1] == inst.rhs;
        assert inst.FieldRead? ==> Uses(inst)[0] == inst.base;
      }
    }
    assert DefinedAt(t.blocks, b, n + 1, inst.dst, b, n);
  }

  lemma EmitChecked(s: State, inst: Inst)
    requires Open(s) && Checked(s.blocks) && inst.dst == s.numRegs && Shaped(inst) && AvailSeq(s, Uses(inst))
    ensures Checked(Emit(s, inst).blocks) && Avail(Emit(s, inst), inst.dst)
  {
    AppendChecked(s, inst);
  }

  /******* Expressions *******/

  ghost predicate Good(p: Program, s: State, e: Expr, params: map<string, Reg>) {
    Pre(p, s, e, params) && Checked(s.blocks) && AvailAll(s, params)
  }

  lemma {:induction false} CheckedExpr(p: Program, s: State, e: Expr, params: map<string, Reg>)
    requires Good(p, s, e, params)
    ensures var r := LowerExpr(p, s, e, params);
      Open(r.state) && Kept(s, r.state) && Checked(r.state.blocks) && Avail(r.state, r.reg)
    decreases e, 1
  {
    hide Checked, Avail, Kept, LowerMatch, LowerBinary, LowerExprs, Emit, Propagate;
    SubExpr(p, s, e, params);
    match e
    case Binary(_, _, _, _) => CheckedBinary(p, s, e, params);
    case CallFn(name, args) =>
      CheckedExprs(p, s, args, params);
      var rs := LowerExprs(p, s, args, params);
      EmitChecked(rs.state, Call(rs.state.numRegs, CName(p.modPath, name), rs.regs));
    case CallClosure(names, args, body) =>
      CheckedExprs(p, s, args, params);
      var rs := LowerExprs(p, s, args, params);
      SubExprs(p, s, args, params);
      AvailAllKept(s, rs.state, params);
      AvailBindAll(rs.state, params, names, rs.regs);
      BindAllOk(params, names, rs.regs, rs.state);
      CheckedExpr(p, rs.state, ClosureValue(body).value, BindAll(params, names, rs.regs));
    case Field(recv, f) =>
      CheckedExpr(p, s, recv, params);
      var a := LowerExpr(p, s, recv, params);
      EmitChecked(a.state, FieldRead(a.state.numRegs, a.reg, f));
    case OptField(recv, t, f) =>
      CheckedExpr(p, s, recv, params);
      SubExpr(p, s, recv, params);
      var a := LowerExpr(p, s, recv, params);
      var k := AsInt64(ErrorIndex(p, t).value);
      PropagateChecked(a.state, a.reg, k);
      var u := Propagate(a.state, a.reg, k);
      EmitChecked(u, FieldRead(u.numRegs, a.reg, f));
    case Try(recv, t) =>
      CheckedExpr(p, s, recv, params);
      SubExpr(p, s, recv, params);
      var a := LowerExpr(p, s, recv, params);
      PropagateChecked(a.state, a.reg, AsInt64(ErrorIndex(p, t).value));
    case Match(scrut, t, arms) =>
      CheckedExpr(p, s, scrut, params);
      SubExpr(p, s, scrut, params);
      var a := LowerExpr(p, s, scrut, params);
      AvailAllKept(s, a.state, params);
      CheckedMatch(p, a.state, a.reg, t, arms, params);
    case _ => CheckedLeaf(p, s, e, params);
  }

  lemma CheckedLeaf(p: Program, s: State, e: Expr, params: map<string, Reg>)
    requires Open(s) && Checked(s.blocks) && AvailAll(s, params) && LowerLeaf(p, s, e, params).Done?
    ensures var r := LowerLeaf(p, s, e, params); Checked(r.state.blocks) && Avail(r.state, r.reg)
  {
    if !e.Var? {
      var v := match e
        case IntLit(n) => n.value
        case BoolLit(b) => (if b then 1 else 0)
        case Variant(_, en, vn) => AsInt64(VariantByName(p.enums, en, vn).value);
      EmitChecked(s, ConstInt(s.numRegs, v));
    }
  }

  lemma CheckedBinary(p: Program, s: State, e: Expr, params: map<string, Reg>)
    requires e.Binary? && Good(p, s, e, params)
    ensures var r := LowerExpr(p, s, e, params); Checked(r.state.blocks) && Avail(r.state, r.reg)
    decreases e, 0
  {
    hide Checked, Avail, Kept, LowerBinary;
    var a := LowerExpr(p, s, e.lhs, params);
    CheckedExpr(p, s, e.lhs, params);
    SubExpr(p, s, e.lhs, params);
    AvailAllKept(s, a.state, params);
    var b := LowerExpr(p, a.state, e.rhs, params);
    CheckedExpr(p, a.state, e.rhs, params);
    AvailKept(a.state, b.state, a.reg);
    CheckedOperator(p, b.state, e.op, e.operandType, a.reg, b.reg);
  }

  lemma CheckedOperator(p: Program, s: State, op: BinOp, t: TypeId, a: Reg, b: Reg)
    requires Open(s) && Checked(s.blocks) && !op.OtherBin? && Avail(s, a) && Avail(s, b)
    ensures var r := LowerBinary(p, s, op, t, a, b); r.Done? && r.state.Ok() && Checked(r.state.blocks) && Avail(r.state, r.reg)
  {
    hide Checked, Avail, Kept;
    var n := s.numRegs;
    if op.ArithBin? {
      EmitChecked(s, Arith(op.op, n, a, b));
    } else {
      var inst := EqInst(p, s, t, a, b);
      EmitChecked(s, inst);
      if op.NeBin? {
        var s1 := Emit(s, inst);
        var s2 := Emit(s1, ConstInt(n + 1, 1));
        EmitKeeps(s, inst);
        EmitKeeps(s1, ConstInt(n + 1, 1));
        EmitChecked(s1, ConstInt(n + 1, 1));
        AvailKept(s1, s2, n);
        EmitChecked(s2, Arith(Sub, n + 2, n + 1, n));
      }
    }
  }

  lemma {:induction false} CheckedExprs(p: Program, s: State, es: seq<Expr>, params: map<string, Reg>)
    requires Open(s) && ParamsOk(params, s) && LowerExprs(p, s, es, params).AllDone? && PlanExprs(p, es, s.AtLast()).Some?
    requires Checked(s.blocks) && AvailAll(s, params)
    ensures var r := LowerExprs(p, s, es, params);
      Open(r.state) && Kept(s, r.state) && Checked(r.state.blocks) && AvailSeq(r.state, r.regs)
    decreases es, 0
  {
    hide Checked, Avail, Kept;
    SubExprs(p, s, es, params);
    if es != [] {
      var a := LowerExpr(p, s, es[0], params);
      CheckedExpr(p, s, es[0], params);
      SubExpr(p, s, es[0], params);
      AvailAllKept(s, a.state, params);
      var rest := LowerExprs(p, a.state, es[1..], params);
      CheckedExprs(p, a.state, es[1..], params);
      AvailKept(a.state, rest.state, a.reg);
    }
  }

  lemma {:induction false} AvailBindAll(s: State, params: map<string, Reg>, names: seq<string>, rs: seq<Reg>)
    requires s.Ok() && |names| == |rs| && AvailAll(s, params) && AvailSeq(s, rs)
    ensures AvailAll(s, BindAll(params, names, rs))
    decreases names
  {
    hide Avail;
    if names != [] {
      AvailBindAll(s, params[names[0] := rs[0]], names[1..], rs[1..]);
    }
  }

  lemma PropagateChecked(s: State, recv: Reg, k: Int64)
    requires Open(s) && s.AtLast() && Checked(s.blocks) && Avail(s, recv)
    ensures var t := Propagate(s, recv, k); Open(t) && Checked(t.blocks) && Avail(t, recv)
  {
    var t := Propagate(s, recv, k);
    var n := |s.blocks|;
    assert t.blocks[n - 1] == Block(s.Cur().insts, IfEq(recv, k, n + 1, n + 2));
    assert Grows(s.blocks, t.blocks);
    BlocksStay(s.blocks, t.blocks, n - 1);
    assert BlockChecked(s.blocks, n - 1);
    InstsStay(s.blocks, t.blocks, n - 1);
    DefinedGrowsLater(s.blocks, t.blocks, n - 1, |s.Cur().insts|, n - 1, |s.Cur().insts|, recv);
    DefinedGrowsLater(s.blocks, t.blocks, n - 1, |s.Cur().insts|, n, 0, recv);
    DefinedGrowsLater(s.blocks, t.blocks, n - 1, |s.Cur().insts|, n + 1, 0, recv);
    assert BlockChecked(t.blocks, n - 1) && BlockChecked(t.blocks, n) && BlockChecked(t.blocks, n + 1);
  }

  /******* Match *******/

  lemma DispatchChecked(s: State, scrut: Reg, ds: seq<Disc>)
    requires Open(s) && s.AtLast() && Testable(ds) && Checked(s.blocks) && Avail(s, scrut)
    ensures var t := Dispatch(s, scrut, ds);
      && Checked(t.blocks) && Grows(s.blocks, t.blocks)
      && DefinedBefore(t.blocks, |s.blocks|, 0, s.numRegs)
  {
    DispatchShape(s, scrut, ds);
    hide Dispatch, DefinedBefore, BlockChecked, Miss, Entry;
    var t := Dispatch(s, scrut, ds);
    var n := |s.blocks|;
    var k := |s.Cur().insts|;
    assert Grows(s.blocks, t.blocks);
    BlocksStay(s.blocks, t.blocks, n - 1);
    ScrutBlockChecked(s, t);
    forall b | n <= b < |t.blocks|
      ensures BlockChecked(t.blocks, b)
    {
      DefinedGrowsLater(s.blocks, t.blocks, n - 1, k, b, 0, scrut);
      MissPositive(n, ds);
      EmptyBlockChecked(t.blocks, b, scrut);
    }
  }

  lemma MissPositive(n: nat, ds: seq<Disc>)
    requires Testable(ds)
    ensures Miss(n, ds) != 0
  {
  }

  lemma ScrutBlockChecked(s: State, t: State)
    requires Open(s) && s.AtLast() && Checked(s.blocks) && Grows(s.blocks, t.blocks)
    requires t.blocks[s.current - 1].insts == s.Cur().insts + [ConstInt(s.numRegs, 0)]
    requires t.blocks[s.current - 1].term.Jump? && t.blocks[s.current - 1].term.target != 0
    ensures BlockChecked(t.blocks, s.current - 1) && DefinedBefore(t.blocks, |s.blocks|, 0, s.numRegs)
  {
    var n := |s.blocks|;
    assert BlockChecked(s.blocks, n - 1);
    InstsStay(s.blocks, t.blocks, n - 1);
    assert DefinedAt(t.blocks, n, 0, s.numRegs, n - 1, |s.Cur().insts|);
  }

  // An empty block is fine, open or comparing a register defined earlier.
  lemma EmptyBlockChecked(bs: seq<Block>, b: nat, r: Reg)
    requires b < |bs| && bs[b].insts == [] && DefinedBefore(bs, b, 0, r)
    requires bs[b].term.NoTerm? || (bs[b].term.IfEq? && bs[b].term.reg == r && bs[b].term.onTrue != 0 && bs[b].term.onFalse != 0)
    ensures BlockChecked(bs, b)
  {
  }

  lemma CheckedMatch(p: Program, s: State, scrut: Reg, t: TypeId, arms: seq<Arm>, params: map<string, Reg>)
    requires Open(s) && s.AtLast() && ParamsOk(params, s) && StraightArms(p, arms)
    requires LowerMatch(p, s, scrut, t, arms, params).Done?
    requires Checked(s.blocks) && Avail(s, scrut) && AvailAll(s, params)
    ensures var r := LowerMatch(p, s, scrut, t, arms, params); Checked(r.state.blocks) && Avail(r.state, r.reg)
    decreases arms, 1
  {
    hide *;
    OpenOk(s);
    MatchUnfold(p, s, scrut, t, arms, params);
    MatchKeeps(p, s, scrut, t, arms, params);
    var ds := Discs(p, t, arms);
    var n := |s.blocks|;
    DispatchChecked(s, scrut, ds);
    var s1 := Dispatch(s, scrut, ds);
    ParamsEnter(s, s1.blocks, params);
    CheckedArms(p, s1, arms, params, n + 1, n + 1 + |arms|, s.numRegs);
    var u := LowerArms(p, s1, arms, params, n + 1, n + 1 + |arms|, s.numRegs).state;
    DefinedGrowsLater(s1.blocks, u.blocks, n, 0, n + |arms|, 0, s.numRegs);
    var r := LowerMatch(p, s, scrut, t, arms, params);
    OpenOk(r.state);
    AvailAtStart(r.state, s.numRegs);
  }

  lemma OpenOk(s: State)
    requires Open(s)
    ensures s.Ok() && s.numRegs >= 1
  {
  }

  lemma AvailAtStart(s: State, r: Reg)
    requires s.Ok() && s.Cur() == EMPTY_BLOCK && r != 0 && DefinedBefore(s.blocks, s.current - 1, 0, r)
    ensures Avail(s, r)
  {
  }

  lemma ParamsEnter(s: State, bs: seq<Block>, params: map<string, Reg>)
    requires s.Ok() && s.AtLast() && AvailAll(s, params) && Grows(s.blocks, bs)
    ensures ParamsBefore(bs, params, |s.blocks|)
  {
    forall x | x in params
      ensures DefinedBefore(bs, |s.blocks|, 0, params[x])
    {
      assert Avail(s, params[x]);
      DefinedGrowsLater(s.blocks, bs, s.current - 1, |s.Cur().insts|, |s.blocks|, 0, params[x]);
    }
  }

  lemma ParamsLaterBlock(bs: seq<Block>, bs': seq<Block>, params: map<string, Reg>, b: nat)
    requires ParamsBefore(bs, params, b) && Grows(bs, bs')
    ensures ParamsBefore(bs', params, b + 1)
  {
    forall x | x in params
      ensures DefinedBefore(bs', b + 1, 0, params[x])
    {
      DefinedGrowsLater(bs, bs', b, 0, b + 1, 0, params[x]);
    }
  }

  // Parameters are defined before block index `before`.
  ghost predicate ParamsBefore(bs: seq<Block>, params: map<string, Reg>, before: nat) {
    forall x :: x in params ==> DefinedBefore(bs, before, 0, params[x])
  }

  lemma {:induction false} CheckedArms(p: Program, s: State, arms: seq<Arm>, params: map<string, Reg>,
                                       armBase: BlockId, merge: BlockId, result: Reg)
    requires Pending(s, armBase, |arms|) && 1 <= s.numRegs && ParamsOk(params, s) && StraightArms(p, arms)
    requires LowerArms(p, s, arms, params, armBase, merge, result).AllDone?
    requires Checked(s.blocks) && ParamsBefore(s.blocks, params, armBase - 1) && merge != 0 && result != 0
    ensures var t := LowerArms(p, s, arms, params, armBase, merge, result).state;
      Checked(t.blocks) && Grows(s.blocks, t.blocks)
    decreases arms, 0
  {
    hide *;
    ArmsNone(p, s, params, armBase, merge, result, arms);
    if arms != [] {
      var arm := arms[0];
      assert arm.body < arm;
      ArmUnfold(p, s, arms, params, armBase, merge, result);
      FirstPending(s, armBase, |arms|);
      ParamsAvail(s, params, armBase);
      var u := UseBlock(s, armBase);
      var r := LowerExpr(p, u, arm.body.value, params);
      assert Good(p, u, arm.body.value, params) by { GoodIntro(p, u, arm.body.value, params); }
      CheckedExpr(p, u, arm.body.value, params);
      var t := FinishArm(r.state, r.reg, result, merge);
      FinishChecked(r.state, r.reg, result, merge);
      KeptGrows(u, r.state);
      GrowsTrans(u.blocks, r.state.blocks, t.blocks);
      ParamsLaterBlock(s.blocks, t.blocks, params, armBase - 1);
      CheckedArms(p, t, arms[1..], params, armBase + 1, merge, result);
      GrowsTrans(s.blocks, t.blocks, LowerArms(p, s, arms, params, armBase, merge, result).state.blocks);
    }
  }

  lemma FirstPending(s: State, armBase: BlockId, n: nat)
    requires Pending(s, armBase, n) && n > 0
    ensures 1 <= armBase && armBase - 1 + n < |s.blocks| && s.blocks[armBase - 1].insts == []
  {
  }

  lemma ArmsNone(p: Program, s: State, params: map<string, Reg>, armBase: BlockId, merge: BlockId, result: Reg, arms: seq<Arm>)
    requires Pending(s, armBase, |arms|) && 1 <= s.numRegs
    ensures arms == [] ==> LowerArms(p, s, arms, params, armBase, merge, result).state == s && Grows(s.blocks, s.blocks)
  {
  }

  lemma GoodIntro(p: Program, s: State, e: Expr, params: map<string, Reg>)
    requires s.Ok() && Pre(p, s, e, params) && Checked(s.blocks) && AvailAll(s, params)
    ensures Good(p, s, e, params)
  {
  }

  lemma ParamsAvail(s: State, params: map<string, Reg>, armBase: BlockId)
    requires 1 <= armBase <= |s.blocks| && 1 <= s.numRegs && s.blocks[armBase - 1].insts == []
    requires ParamsOk(params, s) && ParamsBefore(s.blocks, params, armBase - 1)
    ensures AvailAll(UseBlock(s, armBase), params)
  {
  }

  lemma KeptGrows(s: State, t: State)
    requires Kept(s, t)
    ensures Grows(s.blocks, t.blocks)
  {
  }

  lemma GrowsTrans(a: seq<Block>, b: seq<Block>, c: seq<Block>)
    requires Grows(a, b) && Grows(b, c)
    ensures Grows(a, c)
  {
  }

  lemma FinishChecked(s: State, bodyVal: Reg, result: Reg, merge: BlockId)
    requires Open(s) && Checked(s.blocks) && Avail(s, bodyVal) && merge != 0 && result != 0
    ensures var t := FinishArm(s, bodyVal, result, merge); Checked(t.blocks) && Grows(s.blocks, t.blocks)
  {
    hide Checked, Avail, Kept, Grows;
    var n := s.numRegs;
    var s1 := Emit(s, ConstInt(n, 0));
    EmitKeeps(s, ConstInt(n, 0));
    EmitChecked(s, ConstInt(n, 0));
    AvailKept(s, s1, bodyVal);
    var s2 := Emit(s1, Arith(Add, n + 1, bodyVal, n));
    EmitKeeps(s1, Arith(Add, n + 1, bodyVal, n));
    EmitChecked(s1, Arith(Add, n + 1, bodyVal, n));
    var s3 := Emit(s2, ConstInt(n + 2, 0));
    EmitKeeps(s2, ConstInt(n + 2, 0));
    EmitChecked(s2, ConstInt(n + 2, 0));
    AvailKept(s2, s3, n + 1);
    var s4 := Append(s3, Arith(Add, result, n + 1, n + 2));
    AppendChecked(s3, Arith(Add, result, n + 1, n + 2));
    KeptTrans(s, s1, s2);
    KeptTrans(s, s2, s3);
    KeptGrows(s, s3);
    GrowsTrans(s.blocks, s3.blocks, s4.blocks);
    var t := FinishArm(s, bodyVal, result, merge);
    assert s4.Cur().insts == s.Cur().insts + MoveInto(n, bodyVal, result);
    assert t.blocks == s4.blocks[s.current - 1 := s4.Cur().(term := Jump(merge))];
    SealChecked(s4, Jump(merge));
    GrowsTrans(s.blocks, s4.blocks, t.blocks);
  }

  lemma SealChecked(s: State, term: Terminator)
    requires Open(s) && Checked(s.blocks) && !term.NoTerm?
    requires term.Return? ==> Avail(s, term.reg)
    requires term.Jump? ==> term.target != 0
    requires !term.IfEq?
    ensures Checked(Seal(s, term).blocks) && Grows(s.blocks, Seal(s, term).blocks)
  {
    var t := Seal(s, term);
    var b := s.current - 1;
    assert Grows(s.blocks, t.blocks);
    BlocksStay(s.blocks, t.blocks, b);
    assert BlockChecked(s.blocks, b);
    InstsStay(s.blocks, t.blocks, b);
    if term.Return? {
      DefinedGrowsLater(s.blocks, t.blocks, b, |s.Cur().insts|, b, |s.Cur().insts|, term.reg);
    }
    assert BlockChecked(t.blocks, b);
  }
}
