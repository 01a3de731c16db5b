// The lowerer as it runs: a builder updated in place, proved to produce
// exactly the states of module Lowering.
module Lowerer {
  import opened Mir
  import opened Hir
  import L = Lowering
  import opened LoweringTheorems

  class Builder {
    var blocks: seq<Block>
    var numRegs: nat
    var current: BlockId

    function State(): L.State
      reads this
    {
      L.State(blocks, numRegs, current)
    }

    constructor ()
      ensures State() == L.INITIAL
    {
      blocks, numRegs, current := [EMPTY_BLOCK], 1, 1;
    }

    method BeginBlock() returns (id: BlockId)
      modifies this
      ensures id == |old(blocks)| + 1
      ensures State() == L.State(old(blocks) + [EMPTY_BLOCK], old(numRegs), id)
    {
      blocks := blocks + [EMPTY_BLOCK];
      id := |blocks|;
      current := id;
    }

    method UseBlock(id: BlockId)
      modifies this
      ensures State() == L.UseBlock(old(State()), id)
    {
      var i := 0;
      while i < |blocks|
        invariant 0 <= i <= |blocks|
        invariant State() == old(State()) && !(1 <= id <= i)
      {
        if i + 1 == id {
          current := id;
          return;
        }
        i := i + 1;
      }
    }

    method AppendInst(inst: Inst)
      requires State().Ok()
      modifies this
      ensures State() == L.Append(old(State()), inst)
    {
      var b := blocks[current - 1];
      blocks := blocks[current - 1 := b.(insts := b.insts + [inst])];
    }

    method NewReg() returns (r: Reg)
      modifies this
      ensures r == old(numRegs) && State() == old(State()).(numRegs := r + 1)
    {
      r := numRegs;
      numRegs := numRegs + 1;
    }

    method ConstInt(value: Int64) returns (r: Reg)
      requires State().Ok()
      modifies this
      ensures r == old(numRegs) && State() == L.Emit(old(State()), Inst.ConstInt(r, value))
    {
      r := NewReg();
      AppendInst(Inst.ConstInt(r, value));
    }

    // Binary, Call, EqScalar, EqCall, FieldRead and Param: an instruction into a fresh register.
    method Emit(inst: Inst) returns (r: Reg)
      requires State().Ok() && inst.dst == numRegs
      modifies this
      ensures r == old(numRegs) && State() == L.Emit(old(State()), inst)
    {
      r := NewReg();
      AppendInst(inst);
    }

    // Return, Jump and IfEq: terminate the current block.
    method Seal(term: Terminator)
      requires State().Ok()
      modifies this
      ensures State() == L.Seal(old(State()), term)
    {
      blocks := blocks[current - 1 := blocks[current - 1].(term := term)];
      current := 0;
    }
  }

  datatype Outcome = InReg(reg: Reg) | Diagnosed | Crashed
  datatype ArgOutcome = AllLowered(regs: seq<Reg>) | Failed(outcome: Outcome)

  // The builder and the method's answer agree with the specification's result.
  ghost predicate Matches(o: Outcome, s: L.State, r: L.Result) {
    match r
    case Done(reg, t) => o == InReg(reg) && s == t
    case Rejected => o == Diagnosed
    case Panicked => o == Crashed
  }

  ghost predicate MatchesAll(o: ArgOutcome, s: L.State, r: L.Results) {
    match r
    case AllDone(regs, t) => o == AllLowered(regs) && s == t
    case NotDone(bad) => o.Failed? && Matches(o.outcome, s, bad)
  }

  function Prepend(rs: seq<Reg>, r: L.Results): L.Results {
    if r.AllDone? then L.AllDone(rs + r.regs, r.state) else r
  }

  method LowerExprs(p: Program, b: Builder, es: seq<Expr>, params: map<string, Reg>) returns (o: ArgOutcome)
    requires b.State().Ok()
    modifies b
    ensures MatchesAll(o, b.State(), L.LowerExprs(p, old(b.State()), es, params))
    decreases es, 0
  {
    hide L.LowerExprs, L.LowerExpr, Prepend;
    ghost var whole := L.LowerExprs(p, b.State(), es, params);
    var regs: seq<Reg> := [];
    var i := 0;
    assert es[0..] == es;
    PrependEnds(p, b.State(), params, regs, whole);
    while i < |es|
      invariant 0 <= i <= |es| && b.State().Ok()
      invariant whole == Prepend(regs, L.LowerExprs(p, b.State(), es[i..], params))
    {
      PrependTurn(p, b.State(), es, i, params, regs);
      var one := LowerExpr(p, b, es[i], params);
      if !one.InReg? {
        return Failed(one);
      }
      regs := regs + [one.reg];
      i := i + 1;
    }
    assert es[i..] == [];
    PrependEnds(p, b.State(), params, regs, whole);
    return AllLowered(regs);
  }

  lemma PrependTurn(p: Program, s: L.State, es: seq<Expr>, i: nat, params: map<string, Reg>, regs: seq<Reg>)
    requires s.Ok() && i < |es|
    ensures var r := L.LowerExpr(p, s, es[i], params);
      Prepend(regs, L.LowerExprs(p, s, es[i..], params)) ==
        if r.Done? then Prepend(regs + [r.reg], L.LowerExprs(p, r.state, es[i + 1..], params)) else L.NotDone(r)
  {
    hide L.LowerExpr;
    assert es[i..][0] == es[i] && es[i..][1..] == es[i + 1..];
    var r := L.LowerExpr(p, s, es[i], params);
    if r.Done? {
      var rest := L.LowerExprs(p, r.state, es[i + 1..], params);
      assert rest.AllDone? ==> regs + ([r.reg] + rest.regs) == (regs + [r.reg]) + rest.regs;
    }
  }

  lemma PrependEnds(p: Program, s: L.State, params: map<string, Reg>, regs: seq<Reg>, r: L.Results)
    requires s.Ok()
    ensures Prepend([], r) == r && Prepend(regs, L.LowerExprs(p, s, [], params)) == L.AllDone(regs, s)
  {
    assert regs + [] == regs;
    if r.AllDone? {
      assert [] + r.regs == r.regs;
    }
  }

  method LowerExpr(p: Program, b: Builder, e: Expr, params: map<string, Reg>) returns (o: Outcome)
    requires b.State().Ok()
    modifies b
    ensures Matches(o, b.State(), L.LowerExpr(p, old(b.State()), e, params))
    decreases e, 1
  {
    hide L.LowerMatch, L.LowerBinary, L.LowerExprs, L.Propagate, L.LowerLeaf, ErrorIndex;
    match e
    case Binary(op, t, lhs, rhs) => o := LowerBinary(p, b, e, params);
    case CallFn(name, args) =>
      var rs := LowerExprs(p, b, args, params);
      if rs.Failed? {
        return rs.outcome;
      }
      var r := b.Emit(Call(b.numRegs, CName(p.modPath, name), rs.regs));
      return InReg(r);
    case CallClosure(names, args, body) => o := LowerClosure(p, b, e, params);
    case Field(recv, f) =>
      o := LowerExpr(p, b, recv, params);
      if !o.InReg? {
        return;
      }
      if f == "" {
        return Diagnosed;
      }
      var r := b.Emit(FieldRead(b.numRegs, o.reg, f));
      return InReg(r);
    case OptField(recv, t, f) =>
      o := LowerExpr(p, b, recv, params);
      if !o.InReg? {
        return;
      }
      if ErrorIndex(p, t).None? {
        return Diagnosed;
      }
      Propagate(b, o.reg, AsInt64(ErrorIndex(p, t).value));
      if f == "" {
        return Diagnosed;
      }
      var r := b.Emit(FieldRead(b.numRegs, o.reg, f));
      return InReg(r);
    case Try(recv, t) =>
      o := LowerExpr(p, b, recv, params);
      if !o.InReg? {
        return;
      }
      if ErrorIndex(p, t).None? {
        return Diagnosed;
      }
      Propagate(b, o.reg, AsInt64(ErrorIndex(p, t).value));
    case Match(scrut, t, arms) =>
      o := LowerExpr(p, b, scrut, params);
      if o.InReg? {
        o := LowerMatch(p, b, o.reg, t, arms, params);
      }
    case _ => o := LowerLeaf(p, b, e, params);
  }

  // Literals, names and unit variants; anything else is diagnosed.
  method LowerLeaf(p: Program, b: Builder, e: Expr, params: map<string, Reg>) returns (o: Outcome)
    requires b.State().Ok()
    modifies b
    ensures Matches(o, b.State(), L.LowerLeaf(p, old(b.State()), e, params))
  {
    match e
    case IntLit(v) =>
      if v.None? {
        return Diagnosed;
      }
      var r := b.ConstInt(v.value);
      return InReg(r);
    case BoolLit(x) =>
      var r := b.ConstInt(if x then 1 else 0);
      return InReg(r);
    case Var(x) => return if x in params then InReg(params[x]) else Diagnosed;
    case Variant(_, en, vn) =>
      var i := VariantByName(p.enums, en, vn);
      if i.None? {
        return Diagnosed;
      }
      var r := b.ConstInt(AsInt64(i.value));
      return InReg(r);
    case _ => return Diagnosed;
  }

  method LowerBinary(p: Program, b: Builder, e: Expr, params: map<string, Reg>) returns (o: Outcome)
    requires e.Binary? && b.State().Ok()
    modifies b
    ensures Matches(o, b.State(), L.LowerExpr(p, old(b.State()), e, params))
    decreases e, 0
  {
    hide L.LowerExpr;
    BinaryUnfold(p, b.State(), e, params);
    if e.op.OtherBin? {
      return Diagnosed;
    }
    o := LowerExpr(p, b, e.lhs, params);
    if !o.InReg? {
      return;
    }
    var lhs := o.reg;
    o := LowerExpr(p, b, e.rhs, params);
    if !o.InReg? {
      return;
    }
    var rhs := o.reg;
    if e.op.ArithBin? {
      var r := b.Emit(Arith(e.op.op, b.numRegs, lhs, rhs));
      return InReg(r);
    }
    var eq := b.Emit(if IsScalar(p, e.operandType) then EqScalar(b.numRegs, lhs, rhs)
                     else EqCall(b.numRegs, EqName(p, e.operandType), [lhs, rhs]));
    if e.op.EqBin? {
      return InReg(eq);
    }
    var one := b.ConstInt(1);
    var r := b.Emit(Arith(Sub, b.numRegs, one, eq));
    return InReg(r);
  }

  // A closure called where it is written is lowered in place.
  method LowerClosure(p: Program, b: Builder, e: Expr, params: map<string, Reg>) returns (o: Outcome)
    requires e.CallClosure? && b.State().Ok()
    modifies b
    ensures Matches(o, b.State(), L.LowerExpr(p, old(b.State()), e, params))
    decreases e, 0
  {
    if |e.args| != |e.params| {
      return Diagnosed;
    }
    var rs := LowerExprs(p, b, e.args, params);
    if rs.Failed? {
      return rs.outcome;
    }
    if ClosureValue(e.body).None? {
      return Diagnosed;
    }
    o := LowerExpr(p, b, ClosureValue(e.body).value, BindAll(params, e.params, rs.regs));
  }

  lemma BinaryUnfold(p: Program, s: L.State, e: Expr, params: map<string, Reg>)
    requires e.Binary? && s.Ok()
    ensures var whole := L.LowerExpr(p, s, e, params); var a := L.LowerExpr(p, s, e.lhs, params);
      if e.op.OtherBin? then whole == L.Rejected
      else if !a.Done? then whole == a
      else
        var r := L.LowerExpr(p, a.state, e.rhs, params);
        whole == if !r.Done? then r else L.LowerBinary(p, r.state, e.op, e.operandType, a.reg, r.reg)
  {
    hide L.LowerBinary;
  }

  // The branch of `?` and `?.`: two new blocks, then back to the block before them.
  method Propagate(b: Builder, recv: Reg, errIdx: Int64)
    requires b.State().Ok()
    modifies b
    ensures b.State() == L.Propagate(old(b.State()), recv, errIdx)
  {
    var errBlock := b.BeginBlock();
    var okBlock := b.BeginBlock();
    b.UseBlock(errBlock - 1);
    b.Seal(IfEq(recv, errIdx, errBlock, okBlock));
    b.UseBlock(errBlock);
    b.Seal(Return(recv));
    b.UseBlock(okBlock);
    assert b.blocks == L.Propagate(old(b.State()), recv, errIdx).blocks;
  }

  method BeginBlocks(b: Builder, n: nat)
    modifies b
    ensures b.blocks == old(b.blocks) + L.EmptyBlocks(n) && b.numRegs == old(b.numRegs)
  {
    for i := 0 to n
      invariant b.blocks == old(b.blocks) + L.EmptyBlocks(i) && b.numRegs == old(b.numRegs)
    {
      var _ := b.BeginBlock();
      assert L.EmptyBlocks(i + 1) == L.EmptyBlocks(i) + [EMPTY_BLOCK];
    }
  }

  // The result register, the blocks of a match, the jump into them and the comparisons.
  method Dispatch(b: Builder, scrut: Reg, ds: seq<Disc>) returns (result: Reg)
    requires b.State().Ok() && L.Testable(ds)
    modifies b
    ensures result == old(b.numRegs)
    ensures b.blocks == L.Dispatch(old(b.State()), scrut, ds).blocks && b.numRegs == old(b.numRegs) + 1
  {
    result := b.ConstInt(0);
    ghost var m := |old(b.blocks)|;
    ghost var s1 := b.State();
    var tests := L.TestsOf(ds);
    var armBase := |b.blocks| + 1;
    BeginBlocks(b, |ds|);
    var merge := b.BeginBlock();
    BeginBlocks(b, |tests|);
    var cmpBase := merge + 1;
    b.UseBlock(armBase - 1);
    b.Seal(Jump(if tests != [] then cmpBase else armBase));
    ghost var front := L.SealLast(s1.blocks, Jump(L.Entry(m, ds))) + L.EmptyBlocks(|ds| + 1);
    assert b.blocks == front + L.EmptyBlocks(|tests|);
    var miss := if |tests| < |ds| then armBase + |ds| - 1 else merge;
    Compares(b, front, scrut, tests, armBase, cmpBase, miss);
  }

  method Compares(b: Builder, ghost front: seq<Block>, scrut: Reg, tests: seq<Disc>, armBase: BlockId, cmpBase: BlockId, miss: BlockId)
    requires L.Tests(tests) && b.blocks == front + L.EmptyBlocks(|tests|) && cmpBase == |front| + 1 && 1 <= b.numRegs
    modifies b
    ensures b.blocks == front + L.CompareBlocks(scrut, tests, armBase, cmpBase, miss) && b.numRegs == old(b.numRegs)
  {
    ghost var done := L.CompareBlocks(scrut, tests, armBase, cmpBase, miss);
    for i := 0 to |tests|
      invariant b.blocks == front + done[..i] + L.EmptyBlocks(|tests|)[i..]
      invariant b.numRegs == old(b.numRegs)
    {
      b.UseBlock(cmpBase + i);
      b.Seal(IfEq(scrut, tests[i].d, armBase + i, if i + 1 < |tests| then cmpBase + i + 1 else miss));
      assert b.blocks == front + done[..i + 1] + L.EmptyBlocks(|tests|)[i + 1..];
    }
  }

  method LowerMatch(p: Program, b: Builder, scrut: Reg, t: TypeId, arms: seq<Arm>, params: map<string, Reg>) returns (o: Outcome)
    requires b.State().Ok()
    modifies b
    ensures Matches(o, b.State(), L.LowerMatch(p, old(b.State()), scrut, t, arms, params))
    decreases arms, 1
  {
    hide Discs, L.LowerArms, L.Dispatch;
    var ds := Discs(p, t, arms);
    if Disc.Unsupported in ds {
      return Diagnosed;
    }
    if arms == [] || CatchAll in ds[..|ds| - 1] {
      return Crashed;
    }
    L.TestableByMembership(ds);
    var armBase := |b.blocks| + 1;
    var merge := armBase + |arms|;
    ghost var s1 := L.Dispatch(b.State(), scrut, ds);
    var result := Dispatch(b, scrut, ds);
    ArmsIgnoreCurrent(p, s1, b.State(), arms, params, armBase, merge, result);
    o := LowerArms(p, b, arms, params, armBase, merge, result);
    if o.InReg? {
      b.UseBlock(merge);
    }
  }

  // Every arm in turn, each in its own block.
  method LowerArms(p: Program, b: Builder, arms: seq<Arm>, params: map<string, Reg>,
                   armBase: BlockId, merge: BlockId, result: Reg) returns (o: Outcome)
    requires 1 <= armBase && armBase - 1 + |arms| < |b.blocks| && 1 <= b.numRegs
    modifies b
    ensures match L.LowerArms(p, old(b.State()), arms, params, armBase, merge, result)
      case AllDone(_, s) => o == InReg(result) && b.State() == s
      case NotDone(bad) => Matches(o, b.State(), bad)
    decreases arms, 0
  {
    hide L.LowerExpr, L.FinishArm;
    ghost var whole := L.LowerArms(p, b.State(), arms, params, armBase, merge, result);
    var i := 0;
    while i < |arms|
      invariant 0 <= i <= |arms| && armBase - 1 + |arms| < |b.blocks| && 1 <= b.numRegs
      invariant whole == L.LowerArms(p, b.State(), arms[i..], params, armBase + i, merge, result)
    {
      assert arms[i..][0] == arms[i] && arms[i..][1..] == arms[i + 1..];
      var arm := arms[i];
      assert arm.body < arm;
      if arm.body.OtherBody? {
        return Diagnosed;
      }
      b.UseBlock(armBase + i);
      o := LowerExpr(p, b, arm.body.value, params);
      if !o.InReg? {
        return;
      }
      FinishArm(b, o.reg, result, merge);
      i := i + 1;
    }
    return InReg(result);
  }

  // Equal up to the current block, which the caller sets next.
  ghost predicate Settled(r: L.Results, r': L.Results) {
    match r
    case AllDone(_, s) => r'.AllDone? && r'.state.blocks == s.blocks && r'.state.numRegs == s.numRegs
    case NotDone(x) => r' == r
  }

  // Lowering arms starts by choosing a block, so the block current before does not matter.
  lemma ArmsIgnoreCurrent(p: Program, s: L.State, s': L.State, arms: seq<Arm>, params: map<string, Reg>,
                          armBase: BlockId, merge: BlockId, result: Reg)
    requires 1 <= armBase && armBase - 1 + |arms| < |s.blocks| && 1 <= s.numRegs
    requires s'.blocks == s.blocks && s'.numRegs == s.numRegs
    ensures Settled(L.LowerArms(p, s, arms, params, armBase, merge, result),
                    L.LowerArms(p, s', arms, params, armBase, merge, result))
  {
    if arms != [] {
      assert L.UseBlock(s, armBase) == L.UseBlock(s', armBase);
    }
  }

  method FinishArm(b: Builder, bodyVal: Reg, result: Reg, merge: BlockId)
    requires b.State().Ok()
    modifies b
    ensures b.State() == L.FinishArm(old(b.State()), bodyVal, result, merge)
  {
    ghost var insts := b.blocks[b.current - 1].insts;
    ghost var n := b.numRegs;
    var zero := b.ConstInt(0);
    var moved := b.Emit(Arith(Add, b.numRegs, bodyVal, zero));
    var zero' := b.ConstInt(0);
    b.AppendInst(Arith(Add, result, moved, zero'));
    assert b.blocks[b.current - 1].insts == insts + L.MoveInto(n, bodyVal, result);
    b.Seal(Jump(merge));
    assert b.blocks == L.FinishArm(old(b.State()), bodyVal, result, merge).blocks;
  }

  // lowerFn: None when a diagnostic was reported or validation failed; a
  // crash of the lowerer is told apart.
  method LowerFn(p: Program, fn: Fn) returns (code: Option<seq<Block>>, crashed: bool)
    ensures code.Some? <==> Accepted(p, fn)
    ensures code.Some? ==> code.value == Code(p, fn)
    ensures crashed <==> LoweringTheorems.LowerFn(p, fn).Panicked?
  {
    if fn.generic || !fn.body.ReturnOnly? {
      return None, false;
    }
    var b := new Builder();
    var n := |fn.params|;
    for i := 0 to n
      invariant b.State() == ParamState(i)
    {
      var _ := b.Emit(Param(b.numRegs, i));
      assert ParamInsts(i + 1) == ParamInsts(i) + [Param(i + 1, i)];
    }
    var o := LowerExpr(p, b, fn.body.value, ParamMap(fn.params));
    if !o.InReg? {
      return None, o.Crashed?;
    }
    b.Seal(Return(o.reg));
    var ok := Validate(b.blocks);
    return if ok then Some(b.blocks) else None, false;
  }
}
