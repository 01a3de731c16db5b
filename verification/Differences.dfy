// Where the generated code departs from the language, and exactly when.
module Differences {
  import opened Mir
  import opened Hir
  import opened Lowering
  import opened Discipline
  import opened LoweringTheorems

  /******* When the code of a function does what the language says *******/

  // What fn does with its arguments, under either reading.
  function Meaning(p: Program, w: World, m: Reading, fn: Fn, args: seq<Int64>): Outcome
    requires fn.body.ReturnOnly? && |args| == |fn.params|
  {
    Eval(p, w, m, fn.body.value, BindAll(map[], fn.params, args), [])
  }

  // The code of fn ends as the language says.
  ghost predicate Follows(p: Program, fn: Fn, w: World, args: seq<Int64>)
    requires LowerFn(p, fn).Done? && |args| == |fn.params|
  {
    exists end :: Final(end, Meaning(p, w, Language, fn, args)) && Reaches(Code(p, fn), w, args, START, end)
  }

  // Outcomes of a body with which a function ends alike.
  predicate SameEnd(a: Outcome, b: Outcome) {
    match a
    case Value(v, tr) => b == Value(v, tr) || b == Early(v, tr)
    case Early(v, tr) => b == Value(v, tr) || b == Early(v, tr)
    case Trap(tr) => b == Trap(tr)
    case Stuck => false
  }

  lemma FinalSame(c: Config, a: Outcome, b: Outcome)
    requires Final(c, a)
    ensures Final(c, b) <==> SameEnd(a, b)
    ensures !c.Running? && !a.Stuck?
  {
  }

  // The code of an accepted function does what the language says if and only
  // if the two readings of its body end alike.
  lemma FollowsIff(p: Program, fn: Fn, w: World, args: seq<Int64>)
    requires Accepted(p, fn) && |args| == |fn.params|
    ensures Follows(p, fn, w, args) <==>
      SameEnd(Meaning(p, w, Lowered, fn, args), Meaning(p, w, Language, fn, args))
    ensures Meaning(p, w, Lowered, fn, args) != Stuck
  {
    hide SameEnd, Final, Reaches, Eval, Valid;
    var end := AcceptedRuns(p, fn, w, args);
    var a, b := Meaning(p, w, Lowered, fn, args), Meaning(p, w, Language, fn, args);
    FinalSame(end, a, b);
    if Follows(p, fn, w, args) {
      var c :| Final(c, b) && Reaches(Code(p, fn), w, args, START, c);
      FinalSame(c, b, b);
      FinalUnique(Code(p, fn), w, args, START, c, end);
    }
  }

  // The two readings of e agree, the lowered one in its own environment.
  // `Readings` says that they do throughout the fragment.
  predicate Alike(p: Program, w: World, e: Expr, env: Env, env': Env, trace: seq<Event>) {
    Eval(p, w, Lowered, e, env', trace) == Eval(p, w, Language, e, env, trace)
  }

  // When fn's body is `l op e` and the readings of e end alike, one with a
  // value and the other leaving the function, the difference stays unseen
  // exactly when the operator gives back its right operand.
  lemma OperandFollowsIff(p: Program, fn: Fn, w: World, args: seq<Int64>)
    requires Accepted(p, fn) && |args| == |fn.params|
    requires fn.body.value.Binary? && fn.body.value.op.ArithBin?
    requires var env, e := BindAll(map[], fn.params, args), fn.body.value;
      var a := Eval(p, w, Language, e.lhs, env, []);
      && Alike(p, w, e.lhs, env, env, []) && a.Value?
      && SameEnd(Eval(p, w, Lowered, e.rhs, env, a.trace), Eval(p, w, Language, e.rhs, env, a.trace))
    ensures var env, e := BindAll(map[], fn.params, args), fn.body.value;
      var a := Eval(p, w, Language, e.lhs, env, []);
      var b := Eval(p, w, Language, e.rhs, env, a.trace);
      Follows(p, fn, w, args) <==>
        Alike(p, w, e.rhs, env, env, a.trace) || EvalArith(e.op.op, a.v, b.v) == Some(b.v)
  {
    hide Eval, EvalArith, SameEnd, Alike, Follows, Valid;
    FollowsIff(p, fn, w, args);
    OperandEnds(p, w, fn.body.value, BindAll(map[], fn.params, args));
  }

  lemma OperandEnds(p: Program, w: World, e: Expr, env: Env)
    requires e.Binary? && e.op.ArithBin?
    requires var a := Eval(p, w, Language, e.lhs, env, []);
      && Alike(p, w, e.lhs, env, env, []) && a.Value?
      && SameEnd(Eval(p, w, Lowered, e.rhs, env, a.trace), Eval(p, w, Language, e.rhs, env, a.trace))
    ensures var a := Eval(p, w, Language, e.lhs, env, []);
      var b := Eval(p, w, Language, e.rhs, env, a.trace);
      SameEnd(Eval(p, w, Lowered, e, env, []), Eval(p, w, Language, e, env, [])) <==>
        Alike(p, w, e.rhs, env, env, a.trace) || EvalArith(e.op.op, a.v, b.v) == Some(b.v)
  {
  }

  /******* `!=` *******/

  // `!=` on values that are not scalars is one minus what the equality function
  // returns: right exactly when that is zero or one (or the call traps).
  lemma InequalityReadingIff(p: Program, w: World, t: TypeId, a: Int64, b: Int64, trace: seq<Event>)
    ensures EvalBinary(p, w, Lowered, NeBin, t, a, b, trace) == EvalBinary(p, w, Language, NeBin, t, a, b, trace) <==>
      var o := EvalBinary(p, w, Language, EqBin, t, a, b, trace);
      IsScalar(p, t) || !o.Value? || o.v == 0 || o.v == 1
  {
    var o := EvalBinary(p, w, Language, EqBin, t, a, b, trace);
    if !IsScalar(p, t) && o.Value? {
      WrapZero(o.v);
    }
  }

  lemma WrapZero(v: Int64)
    ensures Wrap(1 - v as int) == 0 <==> v == 1
    ensures v == 0 ==> Wrap(1 - v as int) == 1
  {
  }

  lemma InequalityFollowsIff(p: Program, fn: Fn, w: World, args: seq<Int64>)
    requires Accepted(p, fn) && |args| == |fn.params|
    requires fn.body.value.Binary? && fn.body.value.op.NeBin?
    requires var env, e := BindAll(map[], fn.params, args), fn.body.value;
      var a := Eval(p, w, Language, e.lhs, env, []);
      && Alike(p, w, e.lhs, env, env, []) && a.Value?
      && Alike(p, w, e.rhs, env, env, a.trace) && Eval(p, w, Language, e.rhs, env, a.trace).Value?
    ensures var env, e := BindAll(map[], fn.params, args), fn.body.value;
      var a := Eval(p, w, Language, e.lhs, env, []);
      var b := Eval(p, w, Language, e.rhs, env, a.trace);
      var o := EvalBinary(p, w, Language, EqBin, e.operandType, a.v, b.v, b.trace);
      Follows(p, fn, w, args) <==> IsScalar(p, e.operandType) || !o.Value? || o.v == 0 || o.v == 1
  {
    hide Follows, Valid, Wrap;
    var env, e := BindAll(map[], fn.params, args), fn.body.value;
    var a := Eval(p, w, Language, e.lhs, env, []);
    var b := Eval(p, w, Language, e.rhs, env, a.trace);
    FollowsIff(p, fn, w, args);
    InequalityReadingIff(p, w, e.operandType, a.v, b.v, b.trace);
  }

  /******* Inlined closures *******/

  // The closure's body, evaluated after its arguments.
  function ClosureBody(p: Program, w: World, m: Reading, e: Expr, env: Env, trace: seq<Event>): Outcome
    requires e.CallClosure?
  {
    var vs := EvalExprs(p, w, Language, e.args, env, trace);
    if vs.Stops? then vs.outcome
    else if |e.params| != |e.args| || ClosureValue(e.body).None? then Stuck
    else Eval(p, w, m, ClosureValue(e.body).value, BindAll(env, e.params, vs.vs), vs.trace)
  }

  // Arguments and body of the closure read alike.
  predicate ClosureAlike(p: Program, w: World, e: Expr, env: Env, trace: seq<Event>)
    requires e.CallClosure?
  {
    && EvalExprs(p, w, Lowered, e.args, env, trace) == EvalExprs(p, w, Language, e.args, env, trace)
    && ClosureBody(p, w, Lowered, e, env, trace) == ClosureBody(p, w, Language, e, env, trace)
  }

  // Did the closure's own body return or propagate early?
  predicate LeavesClosure(p: Program, w: World, e: Expr, env: Env, trace: seq<Event>)
    requires e.CallClosure?
  {
    EvalExprs(p, w, Language, e.args, env, trace).Values? && ClosureBody(p, w, Language, e, env, trace).Early?
  }

  // An inlined closure is read as the language reads it exactly when its body
  // does not end early; if it does, the value is right but the function ends.
  lemma ClosureReadingIff(p: Program, w: World, e: Expr, env: Env, trace: seq<Event>)
    requires e.CallClosure? && ClosureAlike(p, w, e, env, trace)
    ensures Alike(p, w, e, env, env, trace) <==> !LeavesClosure(p, w, e, env, trace)
    ensures Eval(p, w, Lowered, e, env, trace) != Stuck ==>
      SameEnd(Eval(p, w, Lowered, e, env, trace), Eval(p, w, Language, e, env, trace))
    ensures LeavesClosure(p, w, e, env, trace) ==>
      var o := ClosureBody(p, w, Language, e, env, trace); Eval(p, w, Language, e, env, trace) == Value(o.v, o.trace)
  {
  }

  // A function whose body is such a call ends alike all the same.
  lemma ClosureAtTopFollows(p: Program, fn: Fn, w: World, args: seq<Int64>)
    requires Accepted(p, fn) && |args| == |fn.params| && fn.body.value.CallClosure?
    requires ClosureAlike(p, w, fn.body.value, BindAll(map[], fn.params, args), [])
    ensures Follows(p, fn, w, args)
  {
    hide Eval, EvalExprs, ClosureBody, ClosureAlike, LeavesClosure, SameEnd, Alike, Follows, Valid;
    FollowsIff(p, fn, w, args);
    ClosureReadingIff(p, w, fn.body.value, BindAll(map[], fn.params, args), []);
  }

  // As the right operand of an arithmetic operator it must not end early, or
  // the operator must give that value back.
  lemma ClosureOperandIff(p: Program, fn: Fn, w: World, args: seq<Int64>)
    requires Accepted(p, fn) && |args| == |fn.params|
    requires fn.body.value.Binary? && fn.body.value.op.ArithBin? && fn.body.value.rhs.CallClosure?
    requires var env, e := BindAll(map[], fn.params, args), fn.body.value;
      var a := Eval(p, w, Language, e.lhs, env, []);
      Alike(p, w, e.lhs, env, env, []) && a.Value? && ClosureAlike(p, w, e.rhs, env, a.trace)
    ensures var env, e := BindAll(map[], fn.params, args), fn.body.value;
      var a := Eval(p, w, Language, e.lhs, env, []);
      Follows(p, fn, w, args) <==>
        !LeavesClosure(p, w, e.rhs, env, a.trace)
        || var v := ClosureBody(p, w, Language, e.rhs, env, a.trace).v; EvalArith(e.op.op, a.v, v) == Some(v)
  {
    hide Eval, EvalExprs, EvalArith, ClosureAlike, SameEnd, Follows, Valid;
    var env, e := BindAll(map[], fn.params, args), fn.body.value;
    var a := Eval(p, w, Language, e.lhs, env, []);
    ClosureReadingIff(p, w, e.rhs, env, a.trace);
    FollowsIff(p, fn, w, args);
    OperandRuns(p, w, e, env);
    OperandFollowsIff(p, fn, w, args);
  }

  // An operation that is not stuck has operands that are not.
  lemma OperandRuns(p: Program, w: World, e: Expr, env: Env)
    requires e.Binary? && Eval(p, w, Lowered, e, env, []) != Stuck
    ensures var a := Eval(p, w, Lowered, e.lhs, env, []); a.Value? ==> Eval(p, w, Lowered, e.rhs, env, a.trace) != Stuck
  {
  }

  // A world for closed examples: every call returns zero.
  const QUIET := World((h: seq<Event>, n: string, vs: seq<Int64>) => Some(0), (v: Int64, f: string) => v)
  const RESULT := Program("", map[1 := TypeInfo(Enum, "R")], [EnumDecl("R", 1, ["Ok", "Err"])])

  function Returning(params: seq<string>, e: Expr): Fn {
    Fn(false, params, ReturnOnly(e))
  }

  lemma Departs(params: seq<string>, args: seq<Int64>, e: Expr, env: Env)
    requires Accepted(RESULT, Returning(params, e)) && |args| == |params| && env == BindAll(map[], params, args)
    requires !SameEnd(Eval(RESULT, QUIET, Lowered, e, env, []), Eval(RESULT, QUIET, Language, e, env, []))
    ensures !Follows(RESULT, Returning(params, e), QUIET, args)
  {
    hide Eval, SameEnd, Follows, Valid;
    FollowsIff(RESULT, Returning(params, e), QUIET, args);
  }

  lemma OneParam(x: string, v: Int64)
    ensures BindAll(map[], [x], [v]) == map[x := v]
  {
  }

  function TryInClosure(): Expr {
    Binary(ArithBin(Add), 0, IntLit(Some(5)), CallClosure([], [], Trailing(NoStmts, Try(Var("r"), 1))))
  }

  // `?` in an inlined closure leaves the enclosing function: `5 + (fn() { r? })()` on Err.
  lemma ClosureTryEscapes()
    ensures Accepted(RESULT, Returning(["r"], TryInClosure()))
    ensures Eval(RESULT, QUIET, Language, TryInClosure(), map["r" := 1], []) == Value(6, [])
    ensures Eval(RESULT, QUIET, Lowered, TryInClosure(), map["r" := 1], []) == Early(1, [])
    ensures !Follows(RESULT, Returning(["r"], TryInClosure()), QUIET, [1])
  {
    hide Eval, Valid, LowerFn, Follows, BindAll;
    ClosureAccepted();
    ClosureByLanguage();
    ClosureLowered();
    OneParam("r", 1);
    Departs(["r"], [1], TryInClosure(), map["r" := 1]);
  }

  lemma ClosureAccepted()
    ensures Accepted(RESULT, Returning(["r"], TryInClosure()))
  {
    hide Eval, EvalArms, Valid;
    AcceptedIff(RESULT, Returning(["r"], TryInClosure()));
  }

  lemma ClosureByLanguage()
    ensures Eval(RESULT, QUIET, Language, TryInClosure(), map["r" := 1], []) == Value(6, [])
  {
    hide EvalArms;
  }

  lemma ClosureLowered()
    ensures Eval(RESULT, QUIET, Lowered, TryInClosure(), map["r" := 1], []) == Early(1, [])
  {
    hide EvalArms;
  }

  /******* Which arm either reading takes *******/

  // Arm k is the first whose pattern matches v.
  predicate Chosen(p: Program, t: TypeId, arms: seq<Arm>, v: Int64, k: nat) {
    && k < |arms| && PatMatches(p, t, arms[k].pattern, v)
    && forall i :: 0 <= i < k ==> !PatMatches(p, t, arms[i].pattern, v)
  }

  // The lowered reading of the arms: the arm that is selected, and no more.
  function LoweredArms(p: Program, w: World, t: TypeId, arms: seq<Arm>, v: Int64, env: Env, trace: seq<Event>): Outcome {
    var k := Select(Discs(p, t, arms), v, 0);
    if k == |arms| then Value(0, trace)
    else if arms[k].body.OtherBody? then Stuck
    else Eval(p, w, Lowered, arms[k].body.value, env, trace)
  }

  lemma {:induction false} LanguageChoice(p: Program, w: World, t: TypeId, arms: seq<Arm>, v: Int64, k: nat, env: Env, trace: seq<Event>)
    requires Chosen(p, t, arms, v, k)
    ensures EvalArms(p, w, t, arms, v, env, trace) == EvalArms(p, w, t, arms[k..], v, env, trace)
    decreases k
  {
    if k == 0 {
      assert arms[0..] == arms;
    } else {
      assert Chosen(p, t, arms[1..], v, k - 1) by {
        assert forall i :: 0 <= i < k - 1 ==> arms[1..][i] == arms[i + 1];
      }
      LanguageChoice(p, w, t, arms[1..], v, k - 1, env, trace);
      assert arms[1..][k - 1..] == arms[k..];
    }
  }

  // The comparison chain selects the arm that the language chooses.
  lemma LoweredChoice(p: Program, t: TypeId, arms: seq<Arm>, v: Int64, k: nat)
    requires Chosen(p, t, arms, v, k) && Testable(Discs(p, t, arms))
    ensures Select(Discs(p, t, arms), v, 0) == k
  {
    hide PatMatches, DiscOf;
    var ds := Discs(p, t, arms);
    forall i | 0 <= i <= k
      ensures DiscMatches(ds[i], v) <==> i == k
    {
      assert i < |ds| - 1 ==> ds[i] == ds[..|ds| - 1][i];
      PatternReading(p, t, arms[i].pattern, v);
    }
  }

  // A match whose scrutinee reads alike and gives a value.
  predicate OnValue(p: Program, w: World, e: Expr, env: Env, trace: seq<Event>) {
    && e.Match? && Testable(Discs(p, e.scrutType, e.arms))
    && Alike(p, w, e.scrutinee, env, env, trace) && Eval(p, w, Language, e.scrutinee, env, trace).Value?
  }

  lemma MatchReadings(p: Program, w: World, e: Expr, env: Env, trace: seq<Event>)
    requires OnValue(p, w, e, env, trace)
    ensures var a := Eval(p, w, Language, e.scrutinee, env, trace);
      && Eval(p, w, Language, e, env, trace) == EvalArms(p, w, e.scrutType, e.arms, a.v, env, a.trace)
      && Eval(p, w, Lowered, e, env, trace) == LoweredArms(p, w, e.scrutType, e.arms, a.v, env, a.trace)
  {
  }

  // The chosen arm, of a match that the lowerer accepts.
  predicate TakesArm(p: Program, t: TypeId, arms: seq<Arm>, v: Int64, k: nat) {
    Testable(Discs(p, t, arms)) && Chosen(p, t, arms, v, k)
  }

  /******* Arms that end in `return` *******/

  predicate ReturnArm(arm: Arm) {
    arm.guard.None? && arm.body.ReturnOnly?
  }

  // The arm's body as the language evaluates it, with the pattern's names.
  function ArmBody(p: Program, w: World, arm: Arm, v: Int64, env: Env, trace: seq<Event>): Outcome
    requires !arm.body.OtherBody?
  {
    Eval(p, w, Language, arm.body.value, BindPattern(env, arm.pattern, v), trace)
  }

  predicate ArmAlike(p: Program, w: World, arm: Arm, v: Int64, env: Env, trace: seq<Event>)
    requires !arm.body.OtherBody?
  {
    Alike(p, w, arm.body.value, BindPattern(env, arm.pattern, v), env, trace)
  }

  // An arm that is a lone `return e;` is read as the language reads it exactly
  // when e has no value; if it has, the arm ends instead of the function.
  lemma ReturnArmReadingIff(p: Program, w: World, t: TypeId, arms: seq<Arm>, v: Int64, k: nat, env: Env, trace: seq<Event>)
    requires TakesArm(p, t, arms, v, k) && ReturnArm(arms[k]) && ArmAlike(p, w, arms[k], v, env, trace)
    ensures var b := ArmBody(p, w, arms[k], v, env, trace);
      var code, language := LoweredArms(p, w, t, arms, v, env, trace), EvalArms(p, w, t, arms, v, env, trace);
      && (code == language <==> !b.Value?)
      && code == b
      && (b != Stuck ==> SameEnd(code, language))
      && (b.Value? ==> language == Early(b.v, b.trace))
  {
    hide Eval, PatMatches, Discs;
    LoweredChoice(p, t, arms, v, k);
    LanguageChoice(p, w, t, arms, v, k, env, trace);
  }

  // An arm `return e; t` without a guard: the code drops the statement and
  // evaluates t, the language returns e.
  predicate DroppedReturn(arm: Arm) {
    arm.guard.None? && arm.body.Trailing? && arm.body.before.ReturnStmt?
  }

  function StatementOutcome(p: Program, w: World, arm: Arm, v: Int64, env: Env, trace: seq<Event>): Outcome
    requires DroppedReturn(arm)
  {
    Eval(p, w, Language, arm.body.before.returned, BindPattern(env, arm.pattern, v), trace)
  }

  lemma DroppedReturnReadingIff(p: Program, w: World, t: TypeId, arms: seq<Arm>, v: Int64, k: nat, env: Env, trace: seq<Event>)
    requires TakesArm(p, t, arms, v, k) && DroppedReturn(arms[k]) && ArmAlike(p, w, arms[k], v, env, trace)
    ensures var b, r := ArmBody(p, w, arms[k], v, env, trace), StatementOutcome(p, w, arms[k], v, env, trace);
      var code, language := LoweredArms(p, w, t, arms, v, env, trace), EvalArms(p, w, t, arms, v, env, trace);
      && code == b && language == AsReturn(r)
      && (code == language <==> !b.Value? && (b == r || (b.Early? && r == Value(b.v, b.trace))))
  {
    hide Eval, PatMatches, Discs;
    LoweredChoice(p, t, arms, v, k);
    LanguageChoice(p, w, t, arms, v, k, env, trace);
    assert arms[k..][0] == arms[k];
  }

  // As the whole body of an accepted function it is followed exactly when t
  // ends the function as e does.
  lemma DroppedReturnFollowsIff(p: Program, fn: Fn, w: World, args: seq<Int64>, k: nat)
    requires Accepted(p, fn) && |args| == |fn.params| && fn.body.value.Match?
    requires var env, e := BindAll(map[], fn.params, args), fn.body.value;
      var a := Eval(p, w, Language, e.scrutinee, env, []);
      && OnValue(p, w, e, env, []) && TakesArm(p, e.scrutType, e.arms, a.v, k)
      && DroppedReturn(e.arms[k]) && ArmAlike(p, w, e.arms[k], a.v, env, a.trace)
    ensures var env, e := BindAll(map[], fn.params, args), fn.body.value;
      var a := Eval(p, w, Language, e.scrutinee, env, []);
      Follows(p, fn, w, args) <==>
        SameEnd(ArmBody(p, w, e.arms[k], a.v, env, a.trace), StatementOutcome(p, w, e.arms[k], a.v, env, a.trace))
  {
    hide Eval, EvalArms, Alike, Follows, Valid, TakesArm, ArmAlike, Testable, LoweredArms, ArmBody;
    var env, e := BindAll(map[], fn.params, args), fn.body.value;
    var a := Eval(p, w, Language, e.scrutinee, env, []);
    FollowsIff(p, fn, w, args);
    MatchReadings(p, w, e, env, []);
    DroppedReturnReadingIff(p, w, e.scrutType, e.arms, a.v, k, env, a.trace);
  }

  // A function whose body is the match ends alike all the same.
  lemma ReturnArmAtTopFollows(p: Program, fn: Fn, w: World, args: seq<Int64>, k: nat)
    requires Accepted(p, fn) && |args| == |fn.params| && fn.body.value.Match?
    requires var env, e := BindAll(map[], fn.params, args), fn.body.value;
      var a := Eval(p, w, Language, e.scrutinee, env, []);
      && OnValue(p, w, e, env, []) && TakesArm(p, e.scrutType, e.arms, a.v, k)
      && ReturnArm(e.arms[k]) && ArmAlike(p, w, e.arms[k], a.v, env, a.trace)
    ensures Follows(p, fn, w, args)
  {
    hide Eval, EvalArms, SameEnd, Alike, Follows, Valid, TakesArm, ArmAlike, Testable, LoweredArms, ArmBody;
    var env, e := BindAll(map[], fn.params, args), fn.body.value;
    var a := Eval(p, w, Language, e.scrutinee, env, []);
    FollowsIff(p, fn, w, args);
    MatchReadings(p, w, e, env, []);
    ReturnArmReadingIff(p, w, e.scrutType, e.arms, a.v, k, env, a.trace);
  }

  // As the right operand of an arithmetic operator the match follows the
  // language if the body has no value or the operator gives that value back.
  lemma ReturnArmOperandIff(p: Program, fn: Fn, w: World, args: seq<Int64>, k: nat)
    requires Accepted(p, fn) && |args| == |fn.params|
    requires fn.body.value.Binary? && fn.body.value.op.ArithBin? && fn.body.value.rhs.Match?
    requires var env, e, m := BindAll(map[], fn.params, args), fn.body.value, fn.body.value.rhs;
      var a := Eval(p, w, Language, e.lhs, env, []);
      && Alike(p, w, e.lhs, env, env, []) && a.Value? && OnValue(p, w, m, env, a.trace)
      && var s := Eval(p, w, Language, m.scrutinee, env, a.trace);
      && TakesArm(p, m.scrutType, m.arms, s.v, k)
      && ReturnArm(m.arms[k]) && ArmAlike(p, w, m.arms[k], s.v, env, s.trace)
    ensures var env, e, m := BindAll(map[], fn.params, args), fn.body.value, fn.body.value.rhs;
      var a := Eval(p, w, Language, e.lhs, env, []);
      var s := Eval(p, w, Language, m.scrutinee, env, a.trace);
      var b := ArmBody(p, w, m.arms[k], s.v, env, s.trace);
      Follows(p, fn, w, args) <==> !b.Value? || EvalArith(e.op.op, a.v, b.v) == Some(b.v)
  {
    hide Eval, EvalArms, EvalArith, SameEnd, Follows, Valid, TakesArm, ArmAlike, Testable, LoweredArms, ArmBody;
    var env, e, m := BindAll(map[], fn.params, args), fn.body.value, fn.body.value.rhs;
    var a := Eval(p, w, Language, e.lhs, env, []);
    var s := Eval(p, w, Language, m.scrutinee, env, a.trace);
    FollowsIff(p, fn, w, args);
    OperandRuns(p, w, e, env);
    MatchReadings(p, w, m, env, a.trace);
    ReturnArmReadingIff(p, w, m.scrutType, m.arms, s.v, k, env, s.trace);
    OperandFollowsIff(p, fn, w, args);
  }

  function ReturnInArm(): Expr {
    Binary(ArithBin(Add), 0, IntLit(Some(1)), Match(Var("b"), 0, [Arm(Wildcard, None, ReturnOnly(IntLit(Some(7))))]))
  }

  // A lone `return` in an arm ends the arm, not the function: `1 + match b { _ => return 7 }`.
  lemma ReturnArmsFallThrough()
    ensures Accepted(RESULT, Returning(["b"], ReturnInArm()))
    ensures Eval(RESULT, QUIET, Language, ReturnInArm(), map["b" := 1], []) == Early(7, [])
    ensures Eval(RESULT, QUIET, Lowered, ReturnInArm(), map["b" := 1], []) == Value(8, [])
    ensures !Follows(RESULT, Returning(["b"], ReturnInArm()), QUIET, [1])
  {
    hide Eval, Valid, LowerFn, Follows, BindAll;
    ReturnAccepted();
    ReturnByLanguage();
    ReturnLowered();
    OneParam("b", 1);
    Departs(["b"], [1], ReturnInArm(), map["b" := 1]);
  }

  lemma ReturnAccepted()
    ensures Accepted(RESULT, Returning(["b"], ReturnInArm()))
  {
    hide Eval, EvalArms, Valid, Dispatch, Emit;
    ReturnLowers();
    hide LowerFn;
    AcceptedIff(RESULT, Returning(["b"], ReturnInArm()));
  }

  lemma ReturnLowers()
    ensures LowerFn(RESULT, Returning(["b"], ReturnInArm())).Done?
  {
    hide Eval, EvalArms, Valid, Dispatch, Emit;
  }

  lemma ReturnByLanguage()
    ensures Eval(RESULT, QUIET, Language, ReturnInArm(), map["b" := 1], []) == Early(7, [])
  {
  }

  lemma ReturnLowered()
    ensures Eval(RESULT, QUIET, Lowered, ReturnInArm(), map["b" := 1], []) == Value(8, [])
  {
    hide EvalArms;
  }


  function DroppedReturnMatch(): Expr {
    Match(Var("b"), 0, [Arm(Wildcard, None, Trailing(ReturnStmt(IntLit(Some(1))), IntLit(Some(2))))])
  }

  // `match b { _ => { return 1; 2 } }`: the code returns 2.
  lemma ReturnsAreDropped()
    ensures Accepted(RESULT, Returning(["b"], DroppedReturnMatch()))
    ensures Eval(RESULT, QUIET, Language, DroppedReturnMatch(), map["b" := 1], []) == Early(1, [])
    ensures Eval(RESULT, QUIET, Lowered, DroppedReturnMatch(), map["b" := 1], []) == Value(2, [])
    ensures !Follows(RESULT, Returning(["b"], DroppedReturnMatch()), QUIET, [1])
  {
    hide Eval, Valid, LowerFn, Follows, BindAll;
    DroppedAccepted();
    DroppedReadings();
    OneParam("b", 1);
    Departs(["b"], [1], DroppedReturnMatch(), map["b" := 1]);
  }

  lemma DroppedAccepted()
    ensures Accepted(RESULT, Returning(["b"], DroppedReturnMatch()))
  {
    hide Eval, EvalArms, Valid, Dispatch;
    AcceptedIff(RESULT, Returning(["b"], DroppedReturnMatch()));
  }

  lemma DroppedReadings()
    ensures Eval(RESULT, QUIET, Language, DroppedReturnMatch(), map["b" := 1], []) == Early(1, [])
    ensures Eval(RESULT, QUIET, Lowered, DroppedReturnMatch(), map["b" := 1], []) == Value(2, [])
  {
  }

  /******* Guards *******/

  predicate PlainBody(arm: Arm) {
    arm.body.Trailing? && arm.body.before.NoStmts?
  }

  function Guard(p: Program, w: World, arm: Arm, v: Int64, env: Env, trace: seq<Event>): Outcome
    requires arm.guard.Some?
  {
    Eval(p, w, Language, arm.guard.value, BindPattern(env, arm.pattern, v), trace)
  }

  // Arm k is chosen, has a guard, and its body reads alike.
  predicate GuardedArm(p: Program, w: World, t: TypeId, arms: seq<Arm>, v: Int64, k: nat, env: Env, trace: seq<Event>) {
    && TakesArm(p, t, arms, v, k) && arms[k].guard.Some? && PlainBody(arms[k])
    && ArmAlike(p, w, arms[k], v, env, trace)
  }

  // The code runs the body of the arm at once. The language evaluates the
  // guard first, and the later arms when that is zero.
  lemma GuardedArmReadings(p: Program, w: World, t: TypeId, arms: seq<Arm>, v: Int64, k: nat, env: Env, trace: seq<Event>)
    requires GuardedArm(p, w, t, arms, v, k, env, trace)
    ensures LoweredArms(p, w, t, arms, v, env, trace) == ArmBody(p, w, arms[k], v, env, trace)
    ensures var g := Guard(p, w, arms[k], v, env, trace);
      EvalArms(p, w, t, arms, v, env, trace) ==
        if !g.Value? then g
        else if g.v == 0 then EvalArms(p, w, t, arms[k + 1..], v, env, g.trace)
        else ArmBody(p, w, arms[k], v, env, g.trace)
  {
    hide Eval, PatMatches, Discs;
    LoweredChoice(p, t, arms, v, k);
    LanguageChoice(p, w, t, arms, v, k, env, trace);
    assert arms[k..][1..] == arms[k + 1..] && arms[k..][0] == arms[k];
  }

  // No calls: neither of functions nor of an equality function.
  predicate Silent(p: Program, e: Expr)
    decreases e, 1
  {
    match e
    case Binary(op, t, l, r) => (op.EqBin? || op.NeBin? ==> IsScalar(p, t)) && Silent(p, l) && Silent(p, r)
    case CallFn(_, _) => false
    case CallClosure(_, args, body) => AllSilent(p, args) && (ClosureValue(body).None? || Silent(p, ClosureValue(body).value))
    case Field(r, _) => Silent(p, r)
    case OptField(r, _, _) => Silent(p, r)
    case Try(r, _) => Silent(p, r)
    case Match(s, _, arms) => Silent(p, s) && ArmsSilent(p, arms)
    case _ => true
  }

  predicate AllSilent(p: Program, es: seq<Expr>)
    decreases es, 0
  {
    es == [] || (Silent(p, es[0]) && AllSilent(p, es[1..]))
  }

  predicate ArmsSilent(p: Program, arms: seq<Arm>)
    decreases arms, 0
  {
    arms == [] ||
    var arm := arms[0];
    assert arm.guard < arm && arm.body < arm;
    && (arm.guard.None? || Silent(p, arm.guard.value))
    && BodySilent(p, arm.body)
    && ArmsSilent(p, arms[1..])
  }

  predicate BodySilent(p: Program, b: Body)
    decreases b, 2
  {
    match b
    case Trailing(ReturnStmt(e), t) => Silent(p, e) && Silent(p, t)
    case Trailing(_, t) => Silent(p, t)
    case ReturnOnly(e) => Silent(p, e)
    case OtherBody => true
  }

  // The same outcome with another history.
  function After(o: Outcome, trace: seq<Event>): Outcome {
    match o
    case Value(v, _) => Value(v, trace)
    case Early(v, _) => Early(v, trace)
    case Trap(_) => Trap(trace)
    case Stuck => Stuck
  }

  function AfterAll(o: Outcomes, trace: seq<Event>): Outcomes {
    match o
    case Values(vs, _) => Values(vs, trace)
    case Stops(s) => Stops(After(s, trace))
  }

  // What makes no calls leaves the history alone and does not look at it.
  lemma {:induction false} SilentAfter(p: Program, w: World, e: Expr, env: Env, trace: seq<Event>, trace': seq<Event>)
    requires Silent(p, e)
    ensures Eval(p, w, Language, e, env, trace') == After(Eval(p, w, Language, e, env, trace), trace')
    decreases e, 2
  {
    match e
    case Binary(op, t, l, r) => SilentBinary(p, w, e, env, trace, trace');
    case CallClosure(params, args, body) => SilentClosure(p, w, e, env, trace, trace');
    case Field(r, _) => SilentAfter(p, w, r, env, trace, trace');
    case OptField(r, _, _) => SilentAfter(p, w, r, env, trace, trace');
    case Try(r, _) => SilentAfter(p, w, r, env, trace, trace');
    case Match(s, t, arms) => SilentMatch(p, w, e, env, trace, trace');
    case _ =>
  }

  lemma {:induction false} SilentBinary(p: Program, w: World, e: Expr, env: Env, trace: seq<Event>, trace': seq<Event>)
    requires e.Binary? && Silent(p, e)
    ensures Eval(p, w, Language, e, env, trace') == After(Eval(p, w, Language, e, env, trace), trace')
    decreases e, 1
  {
    SilentAfter(p, w, e.lhs, env, trace, trace');
    var a := Eval(p, w, Language, e.lhs, env, trace);
    if a.Value? {
      SilentAfter(p, w, e.rhs, env, a.trace, trace');
    }
  }

  lemma {:induction false} SilentClosure(p: Program, w: World, e: Expr, env: Env, trace: seq<Event>, trace': seq<Event>)
    requires e.CallClosure? && Silent(p, e)
    ensures Eval(p, w, Language, e, env, trace') == After(Eval(p, w, Language, e, env, trace), trace')
    decreases e, 1
  {
    SilentAll(p, w, e.args, env, trace, trace');
    var vs := EvalExprs(p, w, Language, e.args, env, trace);
    if vs.Values? && |e.params| == |e.args| && ClosureValue(e.body).Some? {
      SilentAfter(p, w, ClosureValue(e.body).value, BindAll(env, e.params, vs.vs), vs.trace, trace');
    }
  }

  lemma {:induction false} SilentMatch(p: Program, w: World, e: Expr, env: Env, trace: seq<Event>, trace': seq<Event>)
    requires e.Match? && Silent(p, e)
    ensures Eval(p, w, Language, e, env, trace') == After(Eval(p, w, Language, e, env, trace), trace')
    decreases e, 1
  {
    SilentAfter(p, w, e.scrutinee, env, trace, trace');
    var a := Eval(p, w, Language, e.scrutinee, env, trace);
    if a.Value? {
      SilentArms(p, w, e.scrutType, e.arms, a.v, env, a.trace, trace');
    }
  }

  lemma {:induction false} SilentAll(p: Program, w: World, es: seq<Expr>, env: Env, trace: seq<Event>, trace': seq<Event>)
    requires AllSilent(p, es)
    ensures EvalExprs(p, w, Language, es, env, trace') == AfterAll(EvalExprs(p, w, Language, es, env, trace), trace')
    decreases es, 0
  {
    if es != [] {
      SilentAfter(p, w, es[0], env, trace, trace');
      var a := Eval(p, w, Language, es[0], env, trace);
      if a.Value? {
        SilentAll(p, w, es[1..], env, a.trace, trace');
      }
    }
  }

  lemma {:induction false} SilentArms(p: Program, w: World, t: TypeId, arms: seq<Arm>, v: Int64, env: Env, trace: seq<Event>, trace': seq<Event>)
    requires ArmsSilent(p, arms)
    ensures EvalArms(p, w, t, arms, v, env, trace') == After(EvalArms(p, w, t, arms, v, env, trace), trace')
    decreases arms, 0
  {
    if arms != [] {
      var arm := arms[0];
      assert arm.guard < arm && arm.body < arm;
      var inner := BindPattern(env, arm.pattern, v);
      SilentArms(p, w, t, arms[1..], v, env, trace, trace');
      if arm.guard.Some? {
        SilentAfter(p, w, arm.guard.value, inner, trace, trace');
        var g := Eval(p, w, Language, arm.guard.value, inner, trace);
        if g.Value? {
          SilentArms(p, w, t, arms[1..], v, env, g.trace, trace');
          SilentBody(p, w, arm.body, inner, g.trace, trace');
        }
      } else {
        SilentBody(p, w, arm.body, inner, trace, trace');
      }
    }
  }

  lemma {:induction false} SilentBody(p: Program, w: World, b: Body, env: Env, trace: seq<Event>, trace': seq<Event>)
    requires BodySilent(p, b)
    ensures EvalBody(p, w, b, env, trace') == After(EvalBody(p, w, b, env, trace), trace')
    decreases b, 0
  {
    match b
    case Trailing(NoStmts, e) => SilentAfter(p, w, e, env, trace, trace');
    case Trailing(ReturnStmt(e), _) => SilentAfter(p, w, e, env, trace, trace');
    case ReturnOnly(e) => SilentAfter(p, w, e, env, trace, trace');
    case _ =>
  }

  // The history only grows.
  ghost predicate Grown(trace: seq<Event>, o: Outcome) {
    o == Stuck || trace <= o.trace
  }

  lemma {:induction false} TraceGrows(p: Program, w: World, e: Expr, env: Env, trace: seq<Event>)
    ensures Grown(trace, Eval(p, w, Language, e, env, trace))
    decreases e, 1
  {
    match e
    case Binary(op, t, l, r) =>
      TraceGrows(p, w, l, env, trace);
      var a := Eval(p, w, Language, l, env, trace);
      if a.Value? {
        TraceGrows(p, w, r, env, a.trace);
      }
    case CallFn(_, args) => AllGrow(p, w, args, env, trace);
    case CallClosure(params, args, body) =>
      AllGrow(p, w, args, env, trace);
      var vs := EvalExprs(p, w, Language, args, env, trace);
      if vs.Values? && |params| == |args| && ClosureValue(body).Some? {
        TraceGrows(p, w, ClosureValue(body).value, BindAll(env, params, vs.vs), vs.trace);
      }
    case Field(r, _) => TraceGrows(p, w, r, env, trace);
    case OptField(r, _, _) => TraceGrows(p, w, r, env, trace);
    case Try(r, _) => TraceGrows(p, w, r, env, trace);
    case Match(s, t, arms) =>
      TraceGrows(p, w, s, env, trace);
      var a := Eval(p, w, Language, s, env, trace);
      if a.Value? {
        ArmsGrow(p, w, t, arms, a.v, env, a.trace);
      }
    case _ =>
  }

  lemma {:induction false} AllGrow(p: Program, w: World, es: seq<Expr>, env: Env, trace: seq<Event>)
    ensures var r := EvalExprs(p, w, Language, es, env, trace);
      if r.Values? then trace <= r.trace else Grown(trace, r.outcome)
    decreases es, 0
  {
    if es != [] {
      TraceGrows(p, w, es[0], env, trace);
      var a := Eval(p, w, Language, es[0], env, trace);
      if a.Value? {
        AllGrow(p, w, es[1..], env, a.trace);
      }
    }
  }

  lemma {:induction false} ArmsGrow(p: Program, w: World, t: TypeId, arms: seq<Arm>, v: Int64, env: Env, trace: seq<Event>)
    ensures Grown(trace, EvalArms(p, w, t, arms, v, env, trace))
    decreases arms, 0
  {
    if arms != [] {
      var arm := arms[0];
      assert arm.guard < arm && arm.body < arm;
      var inner := BindPattern(env, arm.pattern, v);
      ArmsGrow(p, w, t, arms[1..], v, env, trace);
      if arm.guard.Some? {
        TraceGrows(p, w, arm.guard.value, inner, trace);
        var g := Eval(p, w, Language, arm.guard.value, inner, trace);
        if g.Value? {
          ArmsGrow(p, w, t, arms[1..], v, env, g.trace);
          BodyGrows(p, w, arm.body, inner, g.trace);
        }
      } else {
        BodyGrows(p, w, arm.body, inner, trace);
      }
    }
  }

  lemma {:induction false} BodyGrows(p: Program, w: World, b: Body, env: Env, trace: seq<Event>)
    ensures Grown(trace, EvalBody(p, w, b, env, trace))
    decreases b, 0
  {
    match b
    case Trailing(NoStmts, e) => TraceGrows(p, w, e, env, trace);
    case Trailing(ReturnStmt(e), _) => TraceGrows(p, w, e, env, trace);
    case ReturnOnly(e) => TraceGrows(p, w, e, env, trace);
    case _ =>
  }

  // A guard without calls that has a value is read as the language reads it
  // exactly when it holds, or the later arms do what this arm's body does.
  lemma SilentGuardReadingIff(p: Program, w: World, t: TypeId, arms: seq<Arm>, v: Int64, k: nat, env: Env, trace: seq<Event>)
    requires GuardedArm(p, w, t, arms, v, k, env, trace) && Silent(p, arms[k].guard.value)
    requires Guard(p, w, arms[k], v, env, trace).Value?
    ensures var g, b := Guard(p, w, arms[k], v, env, trace), ArmBody(p, w, arms[k], v, env, trace);
      LoweredArms(p, w, t, arms, v, env, trace) == EvalArms(p, w, t, arms, v, env, trace) <==>
        g.v != 0 || b == EvalArms(p, w, t, arms[k + 1..], v, env, trace)
  {
    hide Eval, EvalArms, LoweredArms, Silent, ArmAlike, Testable, PatMatches;
    GuardedArmReadings(p, w, t, arms, v, k, env, trace);
    SilentAfter(p, w, arms[k].guard.value, BindPattern(env, arms[k].pattern, v), trace, trace);
  }

  // Any guard: one that holds may make calls if the body then does what it
  // does without them, one that does not hold needs later arms that do, and
  // one that traps or leaves needs a body that does the very same.
  lemma GuardReadingIff(p: Program, w: World, t: TypeId, arms: seq<Arm>, v: Int64, k: nat, env: Env, trace: seq<Event>)
    requires GuardedArm(p, w, t, arms, v, k, env, trace)
    ensures var g, b := Guard(p, w, arms[k], v, env, trace), ArmBody(p, w, arms[k], v, env, trace);
      LoweredArms(p, w, t, arms, v, env, trace) == EvalArms(p, w, t, arms, v, env, trace) <==>
        if !g.Value? then b == g
        else if g.v == 0 then b == EvalArms(p, w, t, arms[k + 1..], v, env, g.trace)
        else b == ArmBody(p, w, arms[k], v, env, g.trace)
  {
    hide Eval, EvalArms, LoweredArms, ArmAlike, TakesArm;
    GuardedArmReadings(p, w, t, arms, v, k, env, trace);
  }

  // Over a body without calls, a guard that makes a call is never read as the
  // language reads it, and one that makes none is as `GuardReadingIff` says.
  lemma CallingGuardIff(p: Program, w: World, t: TypeId, arms: seq<Arm>, v: Int64, k: nat, env: Env, trace: seq<Event>)
    requires GuardedArm(p, w, t, arms, v, k, env, trace) && Silent(p, arms[k].body.value)
    requires ArmBody(p, w, arms[k], v, env, trace) != Stuck
    ensures var g, b := Guard(p, w, arms[k], v, env, trace), ArmBody(p, w, arms[k], v, env, trace);
      LoweredArms(p, w, t, arms, v, env, trace) == EvalArms(p, w, t, arms, v, env, trace) <==>
        && g != Stuck && g.trace == trace
        && (if !g.Value? then b == g else g.v != 0 || b == EvalArms(p, w, t, arms[k + 1..], v, env, trace))
  {
    hide Eval, EvalArms, LoweredArms, Silent, ArmAlike, Testable, PatMatches;
    var inner := BindPattern(env, arms[k].pattern, v);
    GuardedArmReadings(p, w, t, arms, v, k, env, trace);
    var g := Guard(p, w, arms[k], v, env, trace);
    SilentAfter(p, w, arms[k].body.value, inner, trace, trace);
    TraceGrows(p, w, arms[k].guard.value, inner, trace);
    if g.Value? {
      SilentAfter(p, w, arms[k].body.value, inner, trace, g.trace);
      ArmsGrow(p, w, t, arms[k + 1..], v, env, g.trace);
      assert g.trace <= trace ==> g.trace == trace;
    }
  }

  // An accepted function whose body is a match with a guard on the chosen arm
  // does what the language says if and only if the guard, having no calls,
  // holds, or the later arms end the function as this arm's body does.
  lemma SilentGuardFollowsIff(p: Program, fn: Fn, w: World, args: seq<Int64>, k: nat)
    requires Accepted(p, fn) && |args| == |fn.params| && fn.body.value.Match?
    requires var env, e := BindAll(map[], fn.params, args), fn.body.value;
      var a := Eval(p, w, Language, e.scrutinee, env, []);
      && OnValue(p, w, e, env, []) && GuardedArm(p, w, e.scrutType, e.arms, a.v, k, env, a.trace)
      && Silent(p, e.arms[k].guard.value) && Guard(p, w, e.arms[k], a.v, env, a.trace).Value?
    ensures var env, e := BindAll(map[], fn.params, args), fn.body.value;
      var a := Eval(p, w, Language, e.scrutinee, env, []);
      var g, b := Guard(p, w, e.arms[k], a.v, env, a.trace), ArmBody(p, w, e.arms[k], a.v, env, a.trace);
      Follows(p, fn, w, args) <==>
        g.v != 0 || SameEnd(b, EvalArms(p, w, e.scrutType, e.arms[k + 1..], a.v, env, a.trace))
  {
    hide Eval, EvalArms, LoweredArms, Silent, ArmAlike, Testable, PatMatches, Follows, Valid;
    var env, e := BindAll(map[], fn.params, args), fn.body.value;
    var a := Eval(p, w, Language, e.scrutinee, env, []);
    FollowsIff(p, fn, w, args);
    MatchReadings(p, w, e, env, []);
    GuardedArmReadings(p, w, e.scrutType, e.arms, a.v, k, env, a.trace);
    SilentAfter(p, w, e.arms[k].guard.value, BindPattern(env, e.arms[k].pattern, a.v), a.trace, a.trace);
  }

  // With any guard: the body must end the function as the language's own
  // outcome does, after the guard's calls.
  lemma GuardFollowsIff(p: Program, fn: Fn, w: World, args: seq<Int64>, k: nat)
    requires Accepted(p, fn) && |args| == |fn.params| && fn.body.value.Match?
    requires var env, e := BindAll(map[], fn.params, args), fn.body.value;
      var a := Eval(p, w, Language, e.scrutinee, env, []);
      OnValue(p, w, e, env, []) && GuardedArm(p, w, e.scrutType, e.arms, a.v, k, env, a.trace)
    ensures var env, e := BindAll(map[], fn.params, args), fn.body.value;
      var a := Eval(p, w, Language, e.scrutinee, env, []);
      var g, b := Guard(p, w, e.arms[k], a.v, env, a.trace), ArmBody(p, w, e.arms[k], a.v, env, a.trace);
      Follows(p, fn, w, args) <==>
        if !g.Value? then SameEnd(b, g)
        else if g.v == 0 then SameEnd(b, EvalArms(p, w, e.scrutType, e.arms[k + 1..], a.v, env, g.trace))
        else SameEnd(b, ArmBody(p, w, e.arms[k], a.v, env, g.trace))
  {
    hide Eval, EvalArms, LoweredArms, SameEnd, ArmAlike, TakesArm, Follows, Valid;
    var env, e := BindAll(map[], fn.params, args), fn.body.value;
    var a := Eval(p, w, Language, e.scrutinee, env, []);
    FollowsIff(p, fn, w, args);
    MatchReadings(p, w, e, env, []);
    GuardedArmReadings(p, w, e.scrutType, e.arms, a.v, k, env, a.trace);
  }

  // A guard that makes a call over a body that makes none is never followed.
  lemma CallingGuardNeverFollows(p: Program, fn: Fn, w: World, args: seq<Int64>, k: nat)
    requires Accepted(p, fn) && |args| == |fn.params| && fn.body.value.Match?
    requires var env, e := BindAll(map[], fn.params, args), fn.body.value;
      var a := Eval(p, w, Language, e.scrutinee, env, []);
      && OnValue(p, w, e, env, []) && GuardedArm(p, w, e.scrutType, e.arms, a.v, k, env, a.trace)
      && Silent(p, e.arms[k].body.value)
      && var g := Guard(p, w, e.arms[k], a.v, env, a.trace); g != Stuck && g.trace != a.trace
    ensures !Follows(p, fn, w, args)
  {
    hide Eval, EvalArms, LoweredArms, Silent, ArmAlike, Testable, PatMatches, Follows, Valid;
    var env, e := BindAll(map[], fn.params, args), fn.body.value;
    var a := Eval(p, w, Language, e.scrutinee, env, []);
    var g := Guard(p, w, e.arms[k], a.v, env, a.trace);
    var inner := BindPattern(env, e.arms[k].pattern, a.v);
    GuardFollowsIff(p, fn, w, args, k);
    TraceGrows(p, w, e.arms[k].guard.value, inner, a.trace);
    SilentAfter(p, w, e.arms[k].body.value, inner, a.trace, a.trace);
    if g.Value? {
      SilentAfter(p, w, e.arms[k].body.value, inner, a.trace, g.trace);
      ArmsGrow(p, w, e.scrutType, e.arms[k + 1..], a.v, env, g.trace);
    }
  }

  const GUARDED := [Arm(BoolPat(true), Some(BoolLit(false)), Trailing(NoStmts, IntLit(Some(1)))),
                    Arm(Wildcard, None, Trailing(NoStmts, IntLit(Some(2))))]

  // The lowerer never looks at a guard: `match b { true if false => 1, _ => 2 }` on true.
  lemma GuardsAreIgnored()
    ensures
      var e := Match(Var("b"), 0, GUARDED);
      && Accepted(RESULT, Returning(["b"], e))
      && Eval(RESULT, QUIET, Language, e, map["b" := 1], []) == Value(2, [])
      && Eval(RESULT, QUIET, Lowered, e, map["b" := 1], []) == Value(1, [])
      && !Follows(RESULT, Returning(["b"], e), QUIET, [1])
  {
    hide Eval, Valid, LowerFn, Follows, BindAll;
    GuardedAccepted();
    GuardedByLanguage();
    GuardedLowered();
    OneParam("b", 1);
    Departs(["b"], [1], Match(Var("b"), 0, GUARDED), map["b" := 1]);
  }

  lemma GuardedAccepted()
    ensures Accepted(RESULT, Returning(["b"], Match(Var("b"), 0, GUARDED)))
  {
    hide Eval, EvalArms, Valid, Dispatch, Emit;
    GuardedLowers();
    hide LowerFn;
    AcceptedIff(RESULT, Returning(["b"], Match(Var("b"), 0, GUARDED)));
  }

  lemma GuardedLowers()
    ensures LowerFn(RESULT, Returning(["b"], Match(Var("b"), 0, GUARDED))).Done?
  {
    hide Eval, EvalArms, Valid, Dispatch, Emit;
  }

  lemma GuardedByLanguage()
    ensures Eval(RESULT, QUIET, Language, Match(Var("b"), 0, GUARDED), map["b" := 1], []) == Value(2, [])
  {
    var env := map["b" := 1];
    assert GUARDED[1..] == [GUARDED[1]];
    assert EvalArms(RESULT, QUIET, 0, GUARDED[1..], 1, env, []) == Value(2, []);
    assert EvalArms(RESULT, QUIET, 0, GUARDED, 1, env, []) == EvalArms(RESULT, QUIET, 0, GUARDED[1..], 1, env, []);
  }

  lemma GuardedLowered()
    ensures Eval(RESULT, QUIET, Lowered, Match(Var("b"), 0, GUARDED), map["b" := 1], []) == Value(1, [])
  {
    hide EvalArms;
  }

  /******* Names bound by a pattern *******/

  // The language looks only at the names that are free, the guards' included.
  lemma {:induction false} OnlyFree(p: Program, w: World, e: Expr, env: Env, env': Env, trace: seq<Event>)
    requires AgreeOn(Free(e), env, env')
    ensures Eval(p, w, Language, e, env, trace) == Eval(p, w, Language, e, env', trace)
    decreases e, 1
  {
    match e
    case Binary(op, t, l, r) =>
      OnlyFree(p, w, l, env, env', trace);
      var a := Eval(p, w, Language, l, env, trace);
      if a.Value? {
        OnlyFree(p, w, r, env, env', a.trace);
      }
    case CallFn(_, args) => OnlyFreeAll(p, w, args, env, env', trace);
    case CallClosure(params, args, body) =>
      OnlyFreeAll(p, w, args, env, env', trace);
      var vs := EvalExprs(p, w, Language, args, env, trace);
      if vs.Values? && |params| == |args| && ClosureValue(body).Some? {
        var value := ClosureValue(body).value;
        AgreeBind(Free(value), env, env', params, vs.vs);
        OnlyFree(p, w, value, BindAll(env, params, vs.vs), BindAll(env', params, vs.vs), vs.trace);
      }
    case Field(r, _) => OnlyFree(p, w, r, env, env', trace);
    case OptField(r, _, _) => OnlyFree(p, w, r, env, env', trace);
    case Try(r, _) => OnlyFree(p, w, r, env, env', trace);
    case Match(s, t, arms) =>
      OnlyFree(p, w, s, env, env', trace);
      var a := Eval(p, w, Language, s, env, trace);
      if a.Value? {
        OnlyFreeArms(p, w, t, arms, a.v, env, env', a.trace);
      }
    case _ =>
  }

  lemma {:induction false} OnlyFreeAll(p: Program, w: World, es: seq<Expr>, env: Env, env': Env, trace: seq<Event>)
    requires AgreeOn(FreeAll(es), env, env')
    ensures EvalExprs(p, w, Language, es, env, trace) == EvalExprs(p, w, Language, es, env', trace)
    decreases es, 0
  {
    if es != [] {
      OnlyFree(p, w, es[0], env, env', trace);
      var a := Eval(p, w, Language, es[0], env, trace);
      if a.Value? {
        OnlyFreeAll(p, w, es[1..], env, env', a.trace);
      }
    }
  }

  lemma AgreeInside(xs: set<string>, env: Env, env': Env, pat: Pattern, v: Int64)
    requires AgreeOn(xs - Bound(pat), env, env')
    ensures AgreeOn(xs, BindPattern(env, pat, v), BindPattern(env', pat, v))
  {
    hide Bound;
    forall x | x in xs
      ensures var a, b := BindPattern(env, pat, v), BindPattern(env', pat, v);
        (x in a <==> x in b) && (x in a ==> a[x] == b[x])
    {
      assert x !in Bound(pat) ==> x in xs - Bound(pat);
    }
  }

  lemma {:induction false} OnlyFreeArms(p: Program, w: World, t: TypeId, arms: seq<Arm>, v: Int64, env: Env, env': Env, trace: seq<Event>)
    requires AgreeOn(FreeArms(arms), env, env')
    ensures EvalArms(p, w, t, arms, v, env, trace) == EvalArms(p, w, t, arms, v, env', trace)
    decreases arms, 0
  {
    if arms != [] {
      var arm := arms[0];
      assert arm.guard < arm && arm.body < arm;
      var inner, inner' := BindPattern(env, arm.pattern, v), BindPattern(env', arm.pattern, v);
      OnlyFreeArms(p, w, t, arms[1..], v, env, env', trace);
      var after := trace;
      if arm.guard.Some? {
        AgreeInside(Free(arm.guard.value), env, env', arm.pattern, v);
        OnlyFree(p, w, arm.guard.value, inner, inner', trace);
        var g := Eval(p, w, Language, arm.guard.value, inner, trace);
        if g.Value? {
          after := g.trace;
          OnlyFreeArms(p, w, t, arms[1..], v, env, env', g.trace);
        }
      }
      AgreeInside(FreeBody(arm.body), env, env', arm.pattern, v);
      OnlyFreeBody(p, w, arm.body, inner, inner', after);
    }
  }

  lemma {:induction false} OnlyFreeBody(p: Program, w: World, b: Body, env: Env, env': Env, trace: seq<Event>)
    requires AgreeOn(FreeBody(b), env, env')
    ensures EvalBody(p, w, b, env, trace) == EvalBody(p, w, b, env', trace)
    decreases b, 0
  {
    match b
    case Trailing(NoStmts, e) => OnlyFree(p, w, e, env, env', trace);
    case Trailing(ReturnStmt(e), _) => OnlyFree(p, w, e, env, env', trace);
    case ReturnOnly(e) => OnlyFree(p, w, e, env, env', trace);
    case _ =>
  }

  // Arm k is chosen, has no guard, and its body reads alike where the pattern's
  // names are not bound.
  predicate UnboundArm(p: Program, w: World, t: TypeId, arms: seq<Arm>, v: Int64, k: nat, env: Env, trace: seq<Event>) {
    && TakesArm(p, t, arms, v, k) && arms[k].guard.None? && PlainBody(arms[k])
    && Alike(p, w, arms[k].body.value, env, env, trace)
  }

  // The arm is read as the language reads it exactly when its body has the
  // same outcome with the pattern's names bound and without; so always when
  // none of them is free in it.
  lemma BindingReadingIff(p: Program, w: World, t: TypeId, arms: seq<Arm>, v: Int64, k: nat, env: Env, trace: seq<Event>)
    requires UnboundArm(p, w, t, arms, v, k, env, trace)
    ensures var code, language := LoweredArms(p, w, t, arms, v, env, trace), EvalArms(p, w, t, arms, v, env, trace);
      var b := Eval(p, w, Language, arms[k].body.value, env, trace);
      && code == b && language == ArmBody(p, w, arms[k], v, env, trace)
      && (code == language <==> b == ArmBody(p, w, arms[k], v, env, trace))
      && (Bound(arms[k].pattern) !! Free(arms[k].body.value) ==> code == language)
  {
    hide Eval, PatMatches, Discs, Free, Bound;
    LoweredChoice(p, t, arms, v, k);
    LanguageChoice(p, w, t, arms, v, k, env, trace);
    assert arms[k..][0] == arms[k];
    if Bound(arms[k].pattern) !! Free(arms[k].body.value) {
      OnlyFree(p, w, arms[k].body.value, env, BindPattern(env, arms[k].pattern, v), trace);
    }
  }

  // When the body is the bound name itself, the code finds the value only if
  // the function happens to have it under that name.
  lemma BoundNameReadingIff(p: Program, w: World, t: TypeId, arms: seq<Arm>, v: Int64, k: nat, env: Env, trace: seq<Event>, x: string)
    requires TakesArm(p, t, arms, v, k) && arms[k].guard.None? && PlainBody(arms[k])
    requires arms[k].body.value == Var(x) && x in Bound(arms[k].pattern)
    ensures EvalArms(p, w, t, arms, v, env, trace) == Value(v, trace)
    ensures LoweredArms(p, w, t, arms, v, env, trace) == Value(v, trace) <==> x in env && env[x] == v
  {
    hide PatMatches, Discs, Bound, LoweredArms, EvalArms, TakesArm;
    BindingReadingIff(p, w, t, arms, v, k, env, trace);
  }

  lemma BindingFollowsIff(p: Program, fn: Fn, w: World, args: seq<Int64>, k: nat)
    requires Accepted(p, fn) && |args| == |fn.params| && fn.body.value.Match?
    requires var env, e := BindAll(map[], fn.params, args), fn.body.value;
      var a := Eval(p, w, Language, e.scrutinee, env, []);
      OnValue(p, w, e, env, []) && UnboundArm(p, w, e.scrutType, e.arms, a.v, k, env, a.trace)
    ensures var env, e := BindAll(map[], fn.params, args), fn.body.value;
      var a := Eval(p, w, Language, e.scrutinee, env, []);
      && (Follows(p, fn, w, args) <==>
          SameEnd(Eval(p, w, Language, e.arms[k].body.value, env, a.trace), ArmBody(p, w, e.arms[k], a.v, env, a.trace)))
      && (Bound(e.arms[k].pattern) !! Free(e.arms[k].body.value) ==> Follows(p, fn, w, args))
  {
    hide Eval, EvalArms, LoweredArms, TakesArm, ArmBody, Alike, Follows, Valid, Free, Bound;
    var env, e := BindAll(map[], fn.params, args), fn.body.value;
    var a := Eval(p, w, Language, e.scrutinee, env, []);
    FollowsIff(p, fn, w, args);
    MatchReadings(p, w, e, env, []);
    BindingReadingIff(p, w, e.scrutType, e.arms, a.v, k, env, a.trace);
  }

  function BindingMatch(): Expr {
    Match(Var("x"), 0, [Arm(Bind("y"), None, Trailing(NoStmts, Var("y")))])
  }

  // A name bound by a pattern is not bound in the arm: `match x { y => y }` reads parameter y.
  lemma BindPatternsDoNotBind()
    ensures Accepted(RESULT, Returning(["x", "y"], BindingMatch()))
    ensures Eval(RESULT, QUIET, Language, BindingMatch(), map["x" := 3, "y" := 4], []) == Value(3, [])
    ensures Eval(RESULT, QUIET, Lowered, BindingMatch(), map["x" := 3, "y" := 4], []) == Value(4, [])
    ensures !Follows(RESULT, Returning(["x", "y"], BindingMatch()), QUIET, [3, 4])
  {
    hide Eval, Valid, LowerFn, Follows, BindAll;
    BindingAccepted();
    BindingReadings();
    TwoParams("x", 3, "y", 4);
    Departs(["x", "y"], [3, 4], BindingMatch(), map["x" := 3, "y" := 4]);
  }

  lemma TwoParams(x: string, v: Int64, y: string, u: Int64)
    requires x != y
    ensures BindAll<Int64>(map[], [x, y], [v, u]) == map[x := v, y := u]
  {
    var names: seq<string>, vs: seq<Int64>, none: Env, first: Env := [x, y], [v, u], map[], map[x := v];
    assert names[1..] == [y] && vs[1..] == [u] && none[x := v] == first;
    assert BindAll<Int64>(none, names, vs) == BindAll<Int64>(first, [y], [u]);
    assert BindAll<Int64>(first, [y], [u]) == first[y := u];
  }

  lemma BindingAccepted()
    ensures Accepted(RESULT, Returning(["x", "y"], BindingMatch()))
  {
    hide Eval, EvalArms, Valid, Dispatch;
    AcceptedIff(RESULT, Returning(["x", "y"], BindingMatch()));
  }

  lemma BindingReadings()
    ensures Eval(RESULT, QUIET, Language, BindingMatch(), map["x" := 3, "y" := 4], []) == Value(3, [])
    ensures Eval(RESULT, QUIET, Lowered, BindingMatch(), map["x" := 3, "y" := 4], []) == Value(4, [])
  {
  }
}
