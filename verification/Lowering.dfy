// HIR to MIR lowering as a function from builder state to builder state.
module Lowering {
  import opened Mir
  import opened Hir

  /******* The builder's state *******/

  // `current` is the block being filled, or zero when none is open.
  datatype State = State(blocks: seq<Block>, numRegs: nat, current: BlockId) {
    predicate Ok() {
      1 <= current <= |blocks| && 1 <= numRegs
    }

    // The current block is the one allocated last.
    predicate AtLast() {
      current == |blocks|
    }

    function Cur(): Block
      requires Ok()
    {
      blocks[current - 1]
    }
  }

  const INITIAL := State([EMPTY_BLOCK], 1, 1)

  function UseBlock(s: State, id: BlockId): State {
    if 1 <= id <= |s.blocks| then s.(current := id) else s
  }

  function Append(s: State, inst: Inst): State
    requires s.Ok()
  {
    var b := s.Cur();
    s.(blocks := s.blocks[s.current - 1 := b.(insts := b.insts + [inst])])
  }

  function Seal(s: State, term: Terminator): State
    requires s.Ok()
  {
    State(s.blocks[s.current - 1 := s.Cur().(term := term)], s.numRegs, 0)
  }

  // Emit an instruction into a fresh register.
  function Emit(s: State, inst: Inst): (t: State)
    requires s.Ok() && inst.dst == s.numRegs
    ensures t.Ok() && |t.blocks| == |s.blocks| && t.numRegs == s.numRegs + 1 && t.current == s.current
  {
    Append(s, inst).(numRegs := s.numRegs + 1)
  }

  /******* Lowering *******/

  datatype Result =
    | Done(reg: Reg, state: State)
    | Rejected  // a diagnostic was reported
    | Panicked  // the lowerer dereferenced a missing arm or discriminant

  datatype Results =
    | AllDone(regs: seq<Reg>, state: State)
    | NotDone(result: Result)

  predicate Tests(ds: seq<Disc>) {
    forall i :: 0 <= i < |ds| ==> ds[i].Test?
  }

  // Only the last arm may be a catch-all.
  predicate Testable(ds: seq<Disc>) {
    ds != [] && Tests(ds[..|ds| - 1]) && !ds[|ds| - 1].Unsupported?
  }

  lemma TestableByMembership(ds: seq<Disc>)
    requires ds != [] && Disc.Unsupported !in ds && CatchAll !in ds[..|ds| - 1]
    ensures Testable(ds)
  {
    var front := ds[..|ds| - 1];
    forall i | 0 <= i < |front|
      ensures front[i].Test?
    {
      assert ds[i] in ds && front[i] == ds[i] && front[i] in front;
    }
  }

  // One block per comparison: arm k has block armBase + k, comparison k has
  // block cmpBase + k, and the last comparison falls to `miss`.
  function CompareTerm(scrut: Reg, ds: seq<Disc>, armBase: BlockId, cmpBase: BlockId, miss: BlockId, k: nat): Terminator
    requires k < |ds| && Tests(ds)
  {
    IfEq(scrut, ds[k].d, armBase + k, if k + 1 < |ds| then cmpBase + k + 1 else miss)
  }

  function CompareBlocks(scrut: Reg, ds: seq<Disc>, armBase: BlockId, cmpBase: BlockId, miss: BlockId): (bs: seq<Block>)
    requires Tests(ds)
    ensures |bs| == |ds|
    ensures forall k :: 0 <= k < |ds| ==> bs[k] == Block([], CompareTerm(scrut, ds, armBase, cmpBase, miss, k))
  {
    seq(|ds|, k requires 0 <= k < |ds| => Block([], CompareTerm(scrut, ds, armBase, cmpBase, miss, k)))
  }

  function EmptyBlocks(n: nat): (bs: seq<Block>)
    ensures |bs| == n && forall k :: 0 <= k < n ==> bs[k] == EMPTY_BLOCK
  {
    seq(n, _ => EMPTY_BLOCK)
  }

  // Give the block allocated last a terminator, whichever block is current.
  function SealLast(blocks: seq<Block>, term: Terminator): (bs: seq<Block>)
    requires blocks != []
    ensures |bs| == |blocks|
  {
    blocks[|blocks| - 1 := blocks[|blocks| - 1].(term := term)]
  }

  // The last comparison falls to the catch-all arm, or to the merge block.
  function Miss(m: nat, ds: seq<Disc>): BlockId
    requires Testable(ds)
  {
    if |TestsOf(ds)| < |ds| then m + |ds| else m + 1 + |ds|
  }

  function Entry(m: nat, ds: seq<Disc>): BlockId
    requires Testable(ds)
  {
    if TestsOf(ds) != [] then m + 2 + |ds| else m + 1
  }

  // The state after the scrutinee is in a register: the result register, the
  // arm, merge and comparison blocks, and the jump into them.
  function Dispatch(s: State, scrut: Reg, ds: seq<Disc>): (t: State)
    requires s.Ok() && Testable(ds)
    ensures |t.blocks| > |s.blocks| + |ds| && t.numRegs == s.numRegs + 1
  {
    var m := |s.blocks|;
    var s1 := Emit(s, ConstInt(s.numRegs, 0));
    State(SealLast(s1.blocks, Jump(Entry(m, ds))) + EmptyBlocks(|ds| + 1)
          + CompareBlocks(scrut, TestsOf(ds), m + 1, m + |ds| + 2, Miss(m, ds)), s.numRegs + 1, 0)
  }

  // The arms that need a comparison: all but a final catch-all.
  function TestsOf(ds: seq<Disc>): (r: seq<Disc>)
    requires Testable(ds)
    ensures Tests(r) && r <= ds && |ds| - 1 <= |r| <= |ds|
    ensures |r| < |ds| <==> ds[|ds| - 1].CatchAll?
  {
    if ds[|ds| - 1].CatchAll? then ds[..|ds| - 1] else ds
  }

  // The end of an arm: bodyVal + 0 into a fresh register, that + 0 again into
  // `result`, and a jump to the merge block.
  function MoveInto(n: Reg, bodyVal: Reg, result: Reg): seq<Inst> {
    [ConstInt(n, 0), Arith(Add, n + 1, bodyVal, n), ConstInt(n + 2, 0), Arith(Add, result, n + 1, n + 2)]
  }

  function FinishArm(s: State, bodyVal: Reg, result: Reg, merge: BlockId): (t: State)
    requires s.Ok()
    ensures |t.blocks| == |s.blocks| && t.numRegs == s.numRegs + 3
    ensures forall i :: 0 <= i < |s.blocks| && i + 1 != s.current ==> t.blocks[i] == s.blocks[i]
    ensures t.blocks[s.current - 1] == Block(s.Cur().insts + MoveInto(s.numRegs, bodyVal, result), Jump(merge))
  {
    State(s.blocks[s.current - 1 := Block(s.Cur().insts + MoveInto(s.numRegs, bodyVal, result), Jump(merge))],
          s.numRegs + 3, 0)
  }

  function LowerArms(p: Program, s: State, arms: seq<Arm>, params: map<string, Reg>,
                     armBase: BlockId, merge: BlockId, result: Reg): (r: Results)
    requires 1 <= armBase && armBase - 1 + |arms| < |s.blocks| && 1 <= s.numRegs
    ensures r.AllDone? ==> |r.state.blocks| >= |s.blocks| && r.state.numRegs >= s.numRegs
    ensures r.NotDone? ==> !r.result.Done?
    decreases arms, 0
  {
    if arms == [] then AllDone([], s)
    else
      var arm := arms[0];
      assert arm.body < arm;
      if arm.body.OtherBody? then NotDone(Rejected)
      else
        var r := LowerExpr(p, UseBlock(s, armBase), arm.body.value, params);
        if !r.Done? then NotDone(r)
        else
          LowerArms(p, FinishArm(r.state, r.reg, result, merge), arms[1..], params, armBase + 1, merge, result)
  }

  function LowerExprs(p: Program, s: State, es: seq<Expr>, params: map<string, Reg>): (r: Results)
    requires s.Ok()
    ensures r.AllDone? ==> r.state.Ok() && |r.regs| == |es|
    ensures r.AllDone? ==> |r.state.blocks| >= |s.blocks| && r.state.numRegs >= s.numRegs
    ensures r.NotDone? ==> !r.result.Done?
    decreases es, 0
  {
    if es == [] then AllDone([], s)
    else
      var r := LowerExpr(p, s, es[0], params);
      if !r.Done? then NotDone(r)
      else
        var rest := LowerExprs(p, r.state, es[1..], params);
        if rest.AllDone? then AllDone([r.reg] + rest.regs, rest.state) else rest
  }

  // Branch on `recv` being the error discriminant: return it, or go on in a new block.
  function Propagate(s: State, recv: Reg, errIdx: Int64): (t: State)
    requires s.Ok()
    ensures t.Ok() && |t.blocks| == |s.blocks| + 2 && t.numRegs == s.numRegs
  {
    var m := |s.blocks|;
    State(SealLast(s.blocks, IfEq(recv, errIdx, m + 1, m + 2)) + [Block([], Return(recv)), EMPTY_BLOCK], s.numRegs, m + 2)
  }

  function LowerBinary(p: Program, s: State, op: BinOp, t: TypeId, a: Reg, b: Reg): Result
    requires s.Ok() && (op.ArithBin? || op.EqBin? || op.NeBin?)
  {
    var n := s.numRegs;
    if op.ArithBin? then Done(n, Emit(s, Arith(op.op, n, a, b)))
    else
      var s1 := Emit(s, if IsScalar(p, t) then EqScalar(n, a, b) else EqCall(n, EqName(p, t), [a, b]));
      if op.EqBin? then Done(n, s1)
      else
        var s2 := Emit(s1, ConstInt(n + 1, 1));
        Done(n + 2, Emit(s2, Arith(Sub, n + 2, n + 1, n)))
  }

  function LowerMatch(p: Program, s: State, scrut: Reg, t: TypeId, arms: seq<Arm>, params: map<string, Reg>): (r: Result)
    requires s.Ok()
    ensures r.Done? ==> r.state.Ok() && |r.state.blocks| >= |s.blocks| && r.state.numRegs >= s.numRegs
    decreases arms, 1
  {
    var ds := Discs(p, t, arms);
    if Disc.Unsupported in ds then Rejected
    else if arms == [] || CatchAll in ds[..|ds| - 1] then Panicked
    else
      assert Testable(ds) by { TestableByMembership(ds); }
      var armBase := |s.blocks| + 1;
      var merge := armBase + |arms|;
      var rs := LowerArms(p, Dispatch(s, scrut, ds), arms, params, armBase, merge, s.numRegs);
      if rs.NotDone? then rs.result else Done(s.numRegs, UseBlock(rs.state, merge))
  }

  function LowerLeaf(p: Program, s: State, e: Expr, params: map<string, Reg>): (r: Result)
    requires s.Ok()
    ensures r.Done? ==> r.state.Ok() && |r.state.blocks| == |s.blocks| && r.state.numRegs >= s.numRegs
  {
    var n := s.numRegs;
    match e
    case IntLit(v) => if v.Some? then Done(n, Emit(s, ConstInt(n, v.value))) else Rejected
    case BoolLit(b) => Done(n, Emit(s, ConstInt(n, if b then 1 else 0)))
    case Var(x) => if x in params then Done(params[x], s) else Rejected
    case Variant(_, en, vn) =>
      var i := VariantByName(p.enums, en, vn);
      if i.Some? then Done(n, Emit(s, ConstInt(n, AsInt64(i.value)))) else Rejected
    case _ => Rejected
  }

  function LowerExpr(p: Program, s: State, e: Expr, params: map<string, Reg>): (r: Result)
    requires s.Ok()
    ensures r.Done? ==> r.state.Ok() && |r.state.blocks| >= |s.blocks| && r.state.numRegs >= s.numRegs
    decreases e, 1
  {
    match e
    case Binary(op, t, lhs, rhs) =>
      if op.OtherBin? then Rejected
      else
        var a := LowerExpr(p, s, lhs, params);
        if !a.Done? then a
        else
          var b := LowerExpr(p, a.state, rhs, params);
          if !b.Done? then b else LowerBinary(p, b.state, op, t, a.reg, b.reg)
    case CallFn(name, args) =>
      var rs := LowerExprs(p, s, args, params);
      if rs.NotDone? then rs.result
      else
        var m := rs.state.numRegs;
        Done(m, Emit(rs.state, Call(m, CName(p.modPath, name), rs.regs)))
    case CallClosure(names, args, body) =>
      if |args| != |names| then Rejected
      else
        var rs := LowerExprs(p, s, args, params);
        if rs.NotDone? then rs.result
        else if ClosureValue(body).None? then Rejected
        else LowerExpr(p, rs.state, ClosureValue(body).value, BindAll(params, names, rs.regs))
    case Field(recv, f) =>
      var a := LowerExpr(p, s, recv, params);
      if !a.Done? then a
      else if f == "" then Rejected
      else
        var m := a.state.numRegs;
        Done(m, Emit(a.state, FieldRead(m, a.reg, f)))
    case OptField(recv, t, f) =>
      var a := LowerExpr(p, s, recv, params);
      if !a.Done? then a
      else if ErrorIndex(p, t).None? || f == "" then Rejected
      else
        var s1 := Propagate(a.state, a.reg, AsInt64(ErrorIndex(p, t).value));
        Done(s1.numRegs, Emit(s1, FieldRead(s1.numRegs, a.reg, f)))
    case Try(recv, t) =>
      var a := LowerExpr(p, s, recv, params);
      if !a.Done? then a
      else if ErrorIndex(p, t).None? then Rejected
      else Done(a.reg, Propagate(a.state, a.reg, AsInt64(ErrorIndex(p, t).value)))
    case Match(scrut, t, arms) =>
      var a := LowerExpr(p, s, scrut, params);
      if !a.Done? then a else LowerMatch(p, a.state, a.reg, t, arms, params)
    case _ => LowerLeaf(p, s, e, params)
  }
}
