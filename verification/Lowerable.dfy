// Which bodies lower without a diagnostic, said of the source alone.
module Lowerable {
  import opened Mir
  import opened Hir
  import opened Lowering
  import opened Discipline
  import opened LoweringTheorems

  /******* The names a body may use *******/

  predicate Declares(d: EnumDecl, variant: string) {
    exists i :: 0 <= i < |d.variants| && d.variants[i] == variant
  }

  // Some enum of that name has the variant.
  predicate NamedVariant(p: Program, name: string, variant: string) {
    exists i :: 0 <= i < |p.enums| && p.enums[i].name == name && Declares(p.enums[i], variant)
  }

  predicate TypedVariant(p: Program, t: TypeId, variant: string) {
    exists i :: 0 <= i < |p.enums| && p.enums[i].typeId == t && Declares(p.enums[i], variant)
  }

  predicate IsEnum(p: Program, t: TypeId) {
    t in p.types && p.types[t].kind == Enum
  }

  // The first declaration of the enum type t is the i-th.
  predicate FirstOf(p: Program, t: TypeId, i: int) {
    0 <= i < |p.enums| && p.enums[i].typeId == t && forall j :: 0 <= j < i ==> p.enums[j].typeId != t
  }

  // `?` on a value of type t knows what to propagate.
  predicate HasError(p: Program, t: TypeId) {
    IsEnum(p, t) && exists i :: 0 <= i < |p.enums| && FirstOf(p, t, i) && (Declares(p.enums[i], "Err") || Declares(p.enums[i], "None"))
  }

  /******* Patterns *******/

  // A pattern that one comparison decides.
  predicate Compares(p: Program, scrutType: TypeId, pat: Pattern) {
    match pat
    case BoolPat(_) => true
    case Constructor(ct, v, path) =>
      var t := if ct == 0 && scrutType in p.types then scrutType else ct;
      IsEnum(p, t) && TypedVariant(p, t, if v == "" && path != [] then path[|path| - 1] else v)
    case _ => false
  }

  // A pattern that needs none.
  predicate Catches(pat: Pattern) {
    match pat
    case Wildcard => true
    case Bind(_) => true
    case OrPat(alts) => BoolPat(true) in alts && BoolPat(false) in alts
    case AtBind(_, inner) => inner == Wildcard
    case _ => false
  }

  // All arms but the last compare; the last may catch the rest.
  predicate ArmPatterns(p: Program, t: TypeId, arms: seq<Arm>) {
    && arms != []
    && (forall i :: 0 <= i < |arms| - 1 ==> Compares(p, t, arms[i].pattern))
    && (Compares(p, t, arms[|arms| - 1].pattern) || Catches(arms[|arms| - 1].pattern))
  }

  /******* Expressions *******/

  predicate Lowers(p: Program, names: set<string>, e: Expr)
    decreases e, 1
  {
    match e
    case IntLit(n) => n != None
    case BoolLit(_) => true
    case OtherLit => false
    case Var(x) => x in names
    case Variant(_, en, vn) => NamedVariant(p, en, vn)
    case Binary(op, _, l, r) => op != OtherBin && Lowers(p, names, l) && Lowers(p, names, r)
    case CallFn(_, args) => AllLower(p, names, args)
    case CallClosure(params, args, body) =>
      |params| == |args| && AllLower(p, names, args) && ClosureLowers(p, names + (set x | x in params), body)
    case Field(r, f) => f != "" && Lowers(p, names, r)
    case OptField(r, t, f) => f != "" && HasError(p, t) && Lowers(p, names, r)
    case Try(r, t) => HasError(p, t) && Lowers(p, names, r)
    case Match(s, t, arms) => Lowers(p, names, s) && ArmPatterns(p, t, arms) && ArmsLower(p, names, arms)
    case OtherExpr => false
  }

  // A trailing expression and nothing else, or one `return`.
  predicate ClosureLowers(p: Program, names: set<string>, b: Body)
    decreases b, 2
  {
    match b
    case Trailing(NoStmts, e) => Lowers(p, names, e)
    case Trailing(ReturnStmt(e), _) => Lowers(p, names, e)
    case Trailing(OtherStmts, _) => false
    case ReturnOnly(e) => Lowers(p, names, e)
    case OtherBody => false
  }

  predicate AllLower(p: Program, names: set<string>, es: seq<Expr>)
    decreases es, 0
  {
    es == [] || (Lowers(p, names, es[0]) && AllLower(p, names, es[1..]))
  }

  // A trailing expression, whatever comes before it, or a lone `return`.
  predicate ArmsLower(p: Program, names: set<string>, arms: seq<Arm>)
    decreases arms, 0
  {
    arms == [] ||
    var arm := arms[0];
    assert arm.body < arm;
    ArmLowers(p, names, arm.body) && ArmsLower(p, names, arms[1..])
  }

  predicate ArmLowers(p: Program, names: set<string>, b: Body)
    decreases b, 2
  {
    match b
    case Trailing(_, e) => Lowers(p, names, e)
    case ReturnOnly(e) => Lowers(p, names, e)
    case OtherBody => false
  }

  /******* Lookups find what is declared *******/

  lemma FirstIndexIff(vs: Variants, name: string)
    ensures FirstIndex(vs, name, 0).Some? <==> exists i :: 0 <= i < |vs| && vs[i] == name
  {
    if i :| 0 <= i < |vs| && vs[i] == name {
      assert vs[0..] == vs;
    }
  }

  lemma {:induction false} LookupIff(enums: seq<EnumDecl>, t: TypeId, name: string, variant: string)
    ensures VariantByType(enums, t, variant).Some? <==>
      exists i :: 0 <= i < |enums| && enums[i].typeId == t && Declares(enums[i], variant)
    ensures VariantByName(enums, name, variant).Some? <==>
      exists i :: 0 <= i < |enums| && enums[i].name == name && Declares(enums[i], variant)
  {
    if enums != [] {
      FirstIndexIff(enums[0].variants, variant);
      LookupIff(enums[1..], t, name, variant);
      forall i | 1 <= i < |enums|
        ensures enums[i] == enums[1..][i - 1]
      {
      }
    }
  }

  // k is where the variant first stands in the i-th enum.
  predicate StandsAt(p: Program, i: int, variant: string, k: int) {
    && 0 <= i < |p.enums| && 0 <= k < |p.enums[i].variants| && p.enums[i].variants[k] == variant
    && forall j :: 0 <= j < k ==> p.enums[i].variants[j] != variant
  }

  // The discriminant of `E.V` is where V stands in the first enum named E that
  // has it.
  lemma {:induction false} NamedFirst(p: Program, name: string, variant: string) returns (i: nat)
    requires VariantByName(p.enums, name, variant).Some?
    ensures StandsAt(p, i, variant, VariantByName(p.enums, name, variant).value) && p.enums[i].name == name
    ensures forall j :: 0 <= j < i ==> !(p.enums[j].name == name && Declares(p.enums[j], variant))
    decreases |p.enums|
  {
    FirstIndexIff(p.enums[0].variants, variant);
    if p.enums[0].name == name && FirstIndex(p.enums[0].variants, variant, 0).Some? {
      i := 0;
    } else {
      var k := NamedFirst(p.(enums := p.enums[1..]), name, variant);
      i := k + 1;
    }
  }

  lemma {:induction false} FirstErrorIff(vs: Variants, from: nat)
    requires from <= |vs|
    ensures FirstError(vs, from).Some? <==> exists i :: from <= i < |vs| && (vs[i] == "Err" || vs[i] == "None")
    ensures FirstError(vs, from).Some? ==>
      var k := FirstError(vs, from).value; forall i :: from <= i < k && i < |vs| ==> vs[i] != "Err" && vs[i] != "None"
    decreases |vs| - from
  {
    if from < |vs| {
      FirstErrorIff(vs, from + 1);
    }
  }

  // The propagated discriminant is the first variant named Err or None of the
  // type's first declaration.
  lemma {:induction false} ErrorFound(enums: seq<EnumDecl>, t: TypeId, i: nat)
    requires i < |enums| && enums[i].typeId == t && forall j :: 0 <= j < i ==> enums[j].typeId != t
    ensures ErrorInEnums(enums, t) == FirstError(enums[i].variants, 0)
    decreases i
  {
    if i > 0 {
      ErrorFound(enums[1..], t, i - 1);
    }
  }

  lemma {:induction false} ErrorMissing(enums: seq<EnumDecl>, t: TypeId) returns (i: nat)
    requires ErrorInEnums(enums, t).Some?
    ensures i < |enums| && enums[i].typeId == t && forall j :: 0 <= j < i ==> enums[j].typeId != t
  {
    if enums[0].typeId == t {
      i := 0;
    } else {
      var k := ErrorMissing(enums[1..], t);
      i := k + 1;
    }
  }

  lemma ErrorIndexIff(p: Program, t: TypeId)
    ensures ErrorIndex(p, t).Some? <==> HasError(p, t)
    ensures ErrorIndex(p, t).Some? ==>
      exists i :: FirstOf(p, t, i) &&
        var k, vs := ErrorIndex(p, t).value, p.enums[i].variants;
        k < |vs| && (vs[k] == "Err" || vs[k] == "None") && forall j :: 0 <= j < k ==> vs[j] != "Err" && vs[j] != "None"
  {
    if IsEnum(p, t) {
      if i :| FirstOf(p, t, i) {
        ErrorFound(p.enums, t, i);
        FirstErrorIff(p.enums[i].variants, 0);
        forall j | FirstOf(p, t, j)
          ensures j == i
        {
          assert !(j < i) && !(i < j);
        }
      } else if ErrorInEnums(p.enums, t).Some? {
        var i := ErrorMissing(p.enums, t);
        assert FirstOf(p, t, i);
      }
    }
  }

  lemma PatternIff(p: Program, t: TypeId, pat: Pattern)
    ensures DiscOf(p, t, pat).Test? <==> Compares(p, t, pat)
    ensures DiscOf(p, t, pat).CatchAll? <==> Catches(pat)
  {
    if pat.Constructor? {
      var ty := if pat.ctorType == 0 && t in p.types then t else pat.ctorType;
      LookupIff(p.enums, ty, "", if pat.variant == "" && pat.path != [] then pat.path[|pat.path| - 1] else pat.variant);
    }
  }

  lemma ArmPatternsIff(p: Program, t: TypeId, arms: seq<Arm>)
    ensures (arms != [] && Disc.Unsupported !in Discs(p, t, arms) && CatchAll !in Discs(p, t, arms)[..|arms| - 1]) <==>
      ArmPatterns(p, t, arms)
  {
    hide DiscOf, Compares, Catches;
    var ds := Discs(p, t, arms);
    forall i | 0 <= i < |arms|
      ensures ds[i].Test? <==> Compares(p, t, arms[i].pattern)
      ensures ds[i].CatchAll? <==> Catches(arms[i].pattern)
    {
      PatternIff(p, t, arms[i].pattern);
    }
    if arms != [] {
      var front := ds[..|arms| - 1];
      assert ds == front + [ds[|arms| - 1]];
      if ArmPatterns(p, t, arms) {
        forall i | 0 <= i < |front|
          ensures front[i].Test?
        {
          assert front[i] == ds[i] && Compares(p, t, arms[i].pattern);
        }
      }
      if Disc.Unsupported !in ds && CatchAll !in front {
        forall i | 0 <= i < |arms| - 1
          ensures Compares(p, t, arms[i].pattern)
        {
          assert front[i] == ds[i] && front[i] in front && ds[i] in ds;
        }
      }
    }
  }

  /******* Lowering *******/

  lemma {:induction false} BindAllKeys<T>(m: map<string, T>, names: seq<string>, vs: seq<T>)
    requires |names| == |vs|
    ensures BindAll(m, names, vs).Keys == m.Keys + set x | x in names
    decreases names
  {
    if names != [] {
      BindAllKeys(m[names[0] := vs[0]], names[1..], vs[1..]);
      assert names == [names[0]] + names[1..];
    }
  }

  // From any state of the builder an expression lowers without a diagnostic
  // exactly when its parts are of the forms above.
  lemma {:induction false} LowersIff(p: Program, s: State, e: Expr, params: map<string, Reg>)
    requires s.Ok()
    ensures LowerExpr(p, s, e, params).Done? <==> Lowers(p, params.Keys, e)
    decreases e, 1
  {
    hide Emit, LowerBinary, LowerMatch, LowerExprs, Propagate, LowerLeaf, HasError, NamedVariant, ArmPatterns, ErrorIndex;
    match e
    case Binary(op, _, l, r) =>
      LowersIff(p, s, l, params);
      var a := LowerExpr(p, s, l, params);
      if a.Done? && op != OtherBin {
        LowersIff(p, a.state, r, params);
        if LowerExpr(p, a.state, r, params).Done? {
          BinaryLowers(p, LowerExpr(p, a.state, r, params).state, e.op, e.operandType, a.reg, LowerExpr(p, a.state, r, params).reg);
        }
      }
    case CallFn(_, args) => AllLowerIff(p, s, args, params);
    case CallClosure(_, _, _) => ClosureLowersIff(p, s, e, params);
    case Field(r, _) => LowersIff(p, s, r, params);
    case OptField(r, t, _) =>
      LowersIff(p, s, r, params);
      ErrorIndexIff(p, t);
    case Try(r, t) =>
      LowersIff(p, s, r, params);
      ErrorIndexIff(p, t);
    case Match(x, t, arms) =>
      LowersIff(p, s, x, params);
      var a := LowerExpr(p, s, x, params);
      if a.Done? {
        MatchLowersIff(p, a.state, a.reg, t, arms, params);
      }
    case _ => LeafLowersIff(p, s, e, params);
  }

  lemma BinaryLowers(p: Program, s: State, op: BinOp, t: TypeId, a: Reg, b: Reg)
    requires s.Ok() && (op.ArithBin? || op.EqBin? || op.NeBin?)
    ensures LowerBinary(p, s, op, t, a, b).Done?
  {
  }

  lemma LeafLowersIff(p: Program, s: State, e: Expr, params: map<string, Reg>)
    requires s.Ok()
    requires e.IntLit? || e.BoolLit? || e.OtherLit? || e.Var? || e.Variant? || e.OtherExpr?
    ensures LowerLeaf(p, s, e, params).Done? <==> Lowers(p, params.Keys, e)
  {
    hide Emit;
    if e.Variant? {
      LookupIff(p.enums, 0, e.enumName, e.variant);
    }
  }

  lemma {:induction false} AllLowerIff(p: Program, s: State, es: seq<Expr>, params: map<string, Reg>)
    requires s.Ok()
    ensures LowerExprs(p, s, es, params).AllDone? <==> AllLower(p, params.Keys, es)
    decreases es, 0
  {
    hide LowerExpr, Lowers;
    if es != [] {
      LowersIff(p, s, es[0], params);
      var r := LowerExpr(p, s, es[0], params);
      if r.Done? {
        AllLowerIff(p, r.state, es[1..], params);
      }
    }
  }

  lemma {:induction false} ClosureLowersIff(p: Program, s: State, e: Expr, params: map<string, Reg>)
    requires e.CallClosure? && s.Ok()
    ensures LowerExpr(p, s, e, params).Done? <==> Lowers(p, params.Keys, e)
    decreases e, 0
  {
    hide LowerExprs;
    AllLowerIff(p, s, e.args, params);
    var rs := LowerExprs(p, s, e.args, params);
    if rs.AllDone? && |e.params| == |e.args| && ClosureValue(e.body).Some? {
      BindAllKeys(params, e.params, rs.regs);
      LowersIff(p, rs.state, ClosureValue(e.body).value, BindAll(params, e.params, rs.regs));
    }
  }

  lemma {:induction false} MatchLowersIff(p: Program, s: State, scrut: Reg, t: TypeId, arms: seq<Arm>, params: map<string, Reg>)
    requires s.Ok()
    ensures LowerMatch(p, s, scrut, t, arms, params).Done? <==> ArmPatterns(p, t, arms) && ArmsLower(p, params.Keys, arms)
    decreases arms, 1
  {
    hide LowerArms, ArmPatterns, ArmsLower, Dispatch, Testable;
    ArmPatternsIff(p, t, arms);
    var ds := Discs(p, t, arms);
    if ArmPatterns(p, t, arms) {
      TestableByMembership(ds);
      ArmsLowerIff(p, Dispatch(s, scrut, ds), arms, params, |s.blocks| + 1, |s.blocks| + 1 + |arms|, s.numRegs);
    }
  }

  lemma {:induction false} ArmsLowerIff(p: Program, s: State, arms: seq<Arm>, params: map<string, Reg>,
                                        armBase: BlockId, merge: BlockId, result: Reg)
    requires 1 <= armBase && armBase - 1 + |arms| < |s.blocks| && 1 <= s.numRegs
    ensures LowerArms(p, s, arms, params, armBase, merge, result).AllDone? <==> ArmsLower(p, params.Keys, arms)
    decreases arms, 0
  {
    hide LowerExpr, Lowers, FinishArm;
    if arms != [] {
      var arm := arms[0];
      assert arm.body < arm;
      if !arm.body.OtherBody? {
        var u := UseBlock(s, armBase);
        LowersIff(p, u, arm.body.value, params);
        var r := LowerExpr(p, u, arm.body.value, params);
        if r.Done? {
          ArmsLowerIff(p, FinishArm(r.state, r.reg, result, merge), arms[1..], params, armBase + 1, merge, result);
        }
      }
    }
  }

  /******* Functions *******/

  function Parameters(fn: Fn): set<string> {
    set x | x in fn.params
  }

  // A function is accepted exactly when it is not generic, its body is a lone
  // `return e;`, e lowers, and no branch in e leaves from the wrong block.
  lemma AcceptedFnIff(p: Program, fn: Fn)
    ensures LowerFn(p, fn).Done? <==>
      !fn.generic && fn.body.ReturnOnly? && Lowers(p, Parameters(fn), fn.body.value)
    ensures Accepted(p, fn) <==>
      !fn.generic && fn.body.ReturnOnly? && Lowers(p, Parameters(fn), fn.body.value)
      && Plan(p, fn.body.value, true).Some?
  {
    hide LowerExpr, Lowers, Plan, BindAll;
    if !fn.generic && fn.body.ReturnOnly? {
      BindAllKeys(map[], fn.params, ParamRegs(|fn.params|));
      var none: map<string, Reg> := map[];
      assert none.Keys + (set x | x in fn.params) == Parameters(fn);
      LowersIff(p, ParamState(|fn.params|), fn.body.value, ParamMap(fn.params));
    }
    if LowerFn(p, fn).Done? {
      AcceptedIff(p, fn);
    }
  }
}
