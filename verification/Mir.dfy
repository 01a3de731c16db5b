// The mid-level IR of the compiler: instructions, basic blocks, the machine
// that gives them meaning, and what `Function.Validate` accepts.
module Mir {
  type Int64 = x: int | -0x8000_0000_0000_0000 <= x < 0x8000_0000_0000_0000

  // Registers and block identifiers are positive; zero is reserved for "none".
  type Reg = nat
  type BlockId = nat

  datatype Option<+T> = None | Some(value: T)

  datatype ArithOp = Add | Sub | Mul | Div | Mod

  datatype Inst =
    | ConstInt(dst: Reg, value: Int64)
    | Arith(op: ArithOp, dst: Reg, lhs: Reg, rhs: Reg)
    | Param(dst: Reg, index: nat)
    | Call(dst: Reg, name: string, args: seq<Reg>)
    | EqScalar(dst: Reg, lhs: Reg, rhs: Reg)
    | EqCall(dst: Reg, name: string, args: seq<Reg>)
    | FieldRead(dst: Reg, base: Reg, field: string)

  datatype Terminator =
    | NoTerm
    | Return(reg: Reg)
    | Jump(target: BlockId)
    | IfEq(reg: Reg, constant: Int64, onTrue: BlockId, onFalse: BlockId)

  datatype Block = Block(insts: seq<Inst>, term: Terminator)

  const EMPTY_BLOCK := Block([], NoTerm)

  // Registers an instruction reads.
  function Uses(inst: Inst): seq<Reg> {
    match inst
    case ConstInt(_, _) => []
    case Arith(_, _, l, r) => [l, r]
    case Param(_, _) => []
    case Call(_, _, args) => args
    case EqScalar(_, l, r) => [l, r]
    case EqCall(_, _, args) => args
    case FieldRead(_, base, _) => [base]
  }

  /******* Arithmetic *******/

  // Two's-complement wrap of a mathematical integer to 64 bits.
  function Wrap(x: int): Int64 {
    (x + 0x8000_0000_0000_0000) % 0x1_0000_0000_0000_0000 - 0x8000_0000_0000_0000
  }

  // Division truncating toward zero, as in C.
  function TruncDiv(a: int, b: int): int
    requires b != 0
  {
    var q := (if a < 0 then -a else a) / (if b < 0 then -b else b);
    if (a < 0) == (b < 0) then q else -q
  }

  // Signed 64-bit arithmetic. None stands for the operand pairs C leaves
  // undefined: a zero divisor, and the one quotient that does not fit.
  function EvalArith(op: ArithOp, a: Int64, b: Int64): Option<Int64> {
    match op
    case Add => Some(Wrap(a + b))
    case Sub => Some(Wrap(a - b))
    case Mul => Some(Wrap(a * b))
    case Div =>
      if b == 0 || TruncDiv(a, b) >= 0x8000_0000_0000_0000 then None else Some(Wrap(TruncDiv(a, b)))
    case Mod =>
      if b == 0 || TruncDiv(a, b) >= 0x8000_0000_0000_0000 then None else Some(Wrap(a - b * TruncDiv(a, b)))
  }

  /******* The machine *******/

  datatype Event = Event(name: string, args: seq<Int64>)

  // What the program calls into. A callee may look at the whole history of
  // calls made so far, and may fail to return.
  datatype World = World(
    call: (seq<Event>, string, seq<Int64>) -> Option<Int64>,
    field: (Int64, string) -> Int64)

  datatype Config =
    | Running(block: BlockId, pc: nat, regs: map<Reg, Int64>, trace: seq<Event>)
    | Returned(value: Int64, trace: seq<Event>)
    | Trapped(trace: seq<Event>)
    | Wrong  // an unwritten register was read, or control left the function

  predicate Written(rs: seq<Reg>, regs: map<Reg, Int64>) {
    forall i :: 0 <= i < |rs| ==> rs[i] in regs
  }

  function Read(rs: seq<Reg>, regs: map<Reg, Int64>): (vs: seq<Int64>)
    requires Written(rs, regs)
    ensures |vs| == |rs| && forall i :: 0 <= i < |rs| ==> vs[i] == regs[rs[i]]
  {
    if rs == [] then []
    else
      assert rs[0] in regs && forall i :: 0 <= i < |rs[1..]| ==> rs[1..][i] == rs[i + 1];
      [regs[rs[0]]] + Read(rs[1..], regs)
  }

  function StepInst(w: World, args: seq<Int64>, c: Config, inst: Inst): Config
    requires c.Running?
  {
    if !Written(Uses(inst), c.regs) then Wrong else
    match inst
    case ConstInt(d, v) => c.(pc := c.pc + 1, regs := c.regs[d := v])
    case Arith(op, d, l, r) =>
      assert Uses(inst)[0] in c.regs && Uses(inst)[1] in c.regs;
      (match EvalArith(op, c.regs[l], c.regs[r])
       case None => Trapped(c.trace)
       case Some(v) => c.(pc := c.pc + 1, regs := c.regs[d := v]))
    case Param(d, i) => if i < |args| then c.(pc := c.pc + 1, regs := c.regs[d := args[i]]) else Wrong
    case Call(d, name, rs) => StepCall(w, c, d, name, Read(rs, c.regs))
    case EqScalar(d, l, r) =>
      assert Uses(inst)[0] in c.regs && Uses(inst)[1] in c.regs;
      c.(pc := c.pc + 1, regs := c.regs[d := if c.regs[l] == c.regs[r] then 1 else 0])
    case EqCall(d, name, rs) => StepCall(w, c, d, name, Read(rs, c.regs))
    case FieldRead(d, b, f) =>
      assert Uses(inst)[0] in c.regs;
      c.(pc := c.pc + 1, regs := c.regs[d := w.field(c.regs[b], f)])
  }

  function StepCall(w: World, c: Config, d: Reg, name: string, vs: seq<Int64>): Config
    requires c.Running?
  {
    match w.call(c.trace, name, vs)
    case None => Trapped(c.trace + [Event(name, vs)])
    case Some(v) => Running(c.block, c.pc + 1, c.regs[d := v], c.trace + [Event(name, vs)])
  }

  function StepTerm(c: Config, term: Terminator): Config
    requires c.Running?
  {
    match term
    case NoTerm => Wrong
    case Return(r) => if r in c.regs then Returned(c.regs[r], c.trace) else Wrong
    case Jump(t) => c.(block := t, pc := 0)
    case IfEq(r, k, t, f) =>
      if r in c.regs then c.(block := if c.regs[r] == k then t else f, pc := 0) else Wrong
  }

  function Step(blocks: seq<Block>, w: World, args: seq<Int64>, c: Config): Config {
    if !c.Running? then c
    else if !(1 <= c.block <= |blocks|) then Wrong
    else
      var b := blocks[c.block - 1];
      if c.pc < |b.insts| then StepInst(w, args, c, b.insts[c.pc]) else StepTerm(c, b.term)
  }

  function Run(blocks: seq<Block>, w: World, args: seq<Int64>, c: Config, n: nat): Config
    decreases n
  {
    if n == 0 then c else Run(blocks, w, args, Step(blocks, w, args, c), n - 1)
  }

  ghost predicate Reaches(blocks: seq<Block>, w: World, args: seq<Int64>, c: Config, d: Config) {
    exists n: nat :: Run(blocks, w, args, c, n) == d
  }

  lemma {:induction false} RunAdd(blocks: seq<Block>, w: World, args: seq<Int64>, c: Config, m: nat, n: nat)
    ensures Run(blocks, w, args, c, m + n) == Run(blocks, w, args, Run(blocks, w, args, c, m), n)
    decreases m
  {
    if m > 0 {
      RunAdd(blocks, w, args, Step(blocks, w, args, c), m - 1, n);
    }
  }

  lemma ReachesSelf(blocks: seq<Block>, w: World, args: seq<Int64>, c: Config)
    ensures Reaches(blocks, w, args, c, c)
  {
    assert Run(blocks, w, args, c, 0) == c;
  }

  lemma ReachesStep(blocks: seq<Block>, w: World, args: seq<Int64>, c: Config)
    ensures Reaches(blocks, w, args, c, Step(blocks, w, args, c))
  {
    assert Run(blocks, w, args, c, 1) == Run(blocks, w, args, Step(blocks, w, args, c), 0);
  }

  lemma ReachesTrans(blocks: seq<Block>, w: World, args: seq<Int64>, c: Config, d: Config, e: Config)
    requires Reaches(blocks, w, args, c, d) && Reaches(blocks, w, args, d, e)
    ensures Reaches(blocks, w, args, c, e)
  {
    var m: nat :| Run(blocks, w, args, c, m) == d;
    var n: nat :| Run(blocks, w, args, d, n) == e;
    RunAdd(blocks, w, args, c, m, n);
  }

  // The machine is deterministic, so a run has at most one final configuration.
  lemma FinalUnique(blocks: seq<Block>, w: World, args: seq<Int64>, c: Config, d: Config, e: Config)
    requires Reaches(blocks, w, args, c, d) && Reaches(blocks, w, args, c, e)
    requires !d.Running? && !e.Running?
    ensures d == e
  {
    var m: nat :| Run(blocks, w, args, c, m) == d;
    var n: nat :| Run(blocks, w, args, c, n) == e;
    RunAdd(blocks, w, args, c, m, n);
    RunAdd(blocks, w, args, c, n, m);
    FinalStays(blocks, w, args, d, n);
    FinalStays(blocks, w, args, e, m);
  }

  lemma {:induction false} FinalStays(blocks: seq<Block>, w: World, args: seq<Int64>, c: Config, n: nat)
    requires !c.Running?
    ensures Run(blocks, w, args, c, n) == c
  {
    if n > 0 {
      FinalStays(blocks, w, args, c, n - 1);
    }
  }

  /******* Validation *******/

  // Register r is the destination of an instruction that precedes instruction
  // j of block b in the order in which blocks are listed.
  ghost predicate DefinedBefore(blocks: seq<Block>, b: nat, j: nat, r: Reg) {
    exists i: nat, k: nat :: DefinedAt(blocks, b, j, r, i, k)
  }

  predicate DefinedAt(blocks: seq<Block>, b: nat, j: nat, r: Reg, i: nat, k: nat) {
    i < |blocks| && k < |blocks[i].insts| && (i < b || (i == b && k < j)) && blocks[i].insts[k].dst == r
  }

  ghost predicate InstOk(blocks: seq<Block>, b: nat, j: nat, inst: Inst) {
    && inst.dst != 0
    && (inst.Call? || inst.EqCall? ==> inst.name != "")
    && (inst.EqCall? ==> |inst.args| == 2)
    && (inst.FieldRead? ==> inst.field != "")
    && (inst.Arith? || inst.EqScalar? ==> inst.lhs != 0 && inst.rhs != 0)
    && (inst.FieldRead? ==> inst.base != 0)
    && forall u :: 0 <= u < |Uses(inst)| ==> DefinedBefore(blocks, b, j, Uses(inst)[u])
  }

  ghost predicate TermOk(blocks: seq<Block>, b: nat)
    requires b < |blocks|
  {
    var n := |blocks[b].insts|;
    match blocks[b].term
    case NoTerm => false
    case Return(r) => r != 0 && DefinedBefore(blocks, b, n, r)
    case Jump(t) => t != 0
    case IfEq(r, _, t, f) => DefinedBefore(blocks, b, n, r) && t != 0 && f != 0
  }

  ghost predicate InstsOk(blocks: seq<Block>, b: nat)
    requires b < |blocks|
  {
    forall j :: 0 <= j < |blocks[b].insts| ==> InstOk(blocks, b, j, blocks[b].insts[j])
  }

  // What Function.Validate accepts.
  ghost predicate Valid(blocks: seq<Block>) {
    forall b :: 0 <= b < |blocks| ==> InstsOk(blocks, b) && TermOk(blocks, b)
  }

  // Function.Validate: one pass over the blocks in list order, remembering
  // the registers defined so far.
  method Validate(blocks: seq<Block>) returns (ok: bool)
    ensures ok <==> Valid(blocks)
  {
    var defined: set<Reg> := {};
    for b := 0 to |blocks|
      invariant forall r :: r in defined <==> DefinedBefore(blocks, b, 0, r)
      invariant forall i :: 0 <= i < b ==> InstsOk(blocks, i) && TermOk(blocks, i)
    {
      var insts := blocks[b].insts;
      for j := 0 to |insts|
        invariant forall r :: r in defined <==> DefinedBefore(blocks, b, j, r)
        invariant forall i :: 0 <= i < j ==> InstOk(blocks, b, i, insts[i])
      {
        var inst := insts[j];
        var shape := inst.dst != 0
          && (inst.Call? || inst.EqCall? ==> inst.name != "")
          && (inst.EqCall? ==> |inst.args| == 2)
          && (inst.FieldRead? ==> inst.field != "")
          && (inst.Arith? || inst.EqScalar? ==> inst.lhs != 0 && inst.rhs != 0)
          && (inst.FieldRead? ==> inst.base != 0);
        var uses := Uses(inst);
        if !shape || exists u :: 0 <= u < |uses| && uses[u] !in defined {
          assert !InstOk(blocks, b, j, inst) && !InstsOk(blocks, b);
          return false;
        }
        DefinedGrows(blocks, b, j);
        defined := defined + {inst.dst};
      }
      DefinedNextBlock(blocks, b);
      var sealed := match blocks[b].term
        case NoTerm => false
        case Return(r) => r != 0 && r in defined
        case Jump(t) => t != 0
        case IfEq(r, _, t, f) => r in defined && t != 0 && f != 0;
      if !sealed {
        assert !TermOk(blocks, b);
        return false;
      }
    }
    return true;
  }

  lemma DefinedGrows(blocks: seq<Block>, b: nat, j: nat)
    requires b < |blocks| && j < |blocks[b].insts|
    ensures forall r :: DefinedBefore(blocks, b, j + 1, r)
                        <==> DefinedBefore(blocks, b, j, r) || r == blocks[b].insts[j].dst
  {
    forall r | DefinedBefore(blocks, b, j, r)
      ensures DefinedBefore(blocks, b, j + 1, r)
    {
      var i: nat, k: nat :| DefinedAt(blocks, b, j, r, i, k);
      assert DefinedAt(blocks, b, j + 1, r, i, k);
    }
    assert DefinedAt(blocks, b, j + 1, blocks[b].insts[j].dst, b, j);
    forall r | DefinedBefore(blocks, b, j + 1, r) && r != blocks[b].insts[j].dst
      ensures DefinedBefore(blocks, b, j, r)
    {
      var i: nat, k: nat :| DefinedAt(blocks, b, j + 1, r, i, k);
      assert DefinedAt(blocks, b, j, r, i, k);
    }
  }

  lemma DefinedNextBlock(blocks: seq<Block>, b: nat)
    requires b < |blocks|
    ensures forall r :: DefinedBefore(blocks, b + 1, 0, r) <==> DefinedBefore(blocks, b, |blocks[b].insts|, r)
  {
    forall r | DefinedBefore(blocks, b + 1, 0, r)
      ensures DefinedBefore(blocks, b, |blocks[b].insts|, r)
    {
      var i: nat, k: nat :| DefinedAt(blocks, b + 1, 0, r, i, k);
      assert DefinedAt(blocks, b, |blocks[b].insts|, r, i, k);
    }
    forall r | DefinedBefore(blocks, b, |blocks[b].insts|, r)
      ensures DefinedBefore(blocks, b + 1, 0, r)
    {
      var i: nat, k: nat :| DefinedAt(blocks, b, |blocks[b].insts|, r, i, k);
      assert DefinedAt(blocks, b + 1, 0, r, i, k);
    }
  }
}
