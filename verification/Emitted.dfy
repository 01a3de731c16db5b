// What single expressions are lowered to, instruction by instruction, the names
// that the code calls, and the machine's arithmetic.
module Emitted {
  import opened Mir
  import opened Hir
  import opened Lowering
  import opened Lowerable

  /******* Instructions *******/

  // These instructions are added to the current block, and nothing else changes
  // but the number of registers.
  predicate Adds(s: State, t: State, insts: seq<Inst>)
    requires s.Ok()
  {
    && t.current == s.current && |t.blocks| == |s.blocks| && t.numRegs == s.numRegs + |insts|
    && (forall i :: 0 <= i < |s.blocks| && i + 1 != s.current ==> t.blocks[i] == s.blocks[i])
    && t.blocks[s.current - 1] == Block(s.Cur().insts + insts, s.Cur().term)
  }

  lemma LiteralEmits(p: Program, s: State, e: Expr, params: map<string, Reg>)
    requires s.Ok()
    ensures e == BoolLit(true) ==>
      var r := LowerExpr(p, s, e, params); r.Done? && r.reg == s.numRegs && Adds(s, r.state, [ConstInt(s.numRegs, 1)])
    ensures e == BoolLit(false) ==>
      var r := LowerExpr(p, s, e, params); r.Done? && r.reg == s.numRegs && Adds(s, r.state, [ConstInt(s.numRegs, 0)])
    ensures e.IntLit? && e.parsed.Some? ==>
      var r := LowerExpr(p, s, e, params); r.Done? && r.reg == s.numRegs && Adds(s, r.state, [ConstInt(s.numRegs, e.parsed.value)])
    ensures e.Var? && e.name in params ==>
      var r := LowerExpr(p, s, e, params); r.Done? && r.reg == params[e.name] && r.state == s
  {
  }

  // A variant is its place in the first enum of that name which has it.
  lemma VariantEmits(p: Program, s: State, t: TypeId, name: string, variant: string, i: nat, k: nat, params: map<string, Reg>)
    requires s.Ok() && i < |p.enums| && k < |p.enums[i].variants|
    requires p.enums[i].name == name && p.enums[i].variants[k] == variant
    requires forall j :: 0 <= j < k ==> p.enums[i].variants[j] != variant
    requires forall j :: 0 <= j < i ==> p.enums[j].name != name || variant !in p.enums[j].variants
    ensures var r := LowerExpr(p, s, Variant(t, name, variant), params);
      r.Done? && r.reg == s.numRegs && Adds(s, r.state, [ConstInt(s.numRegs, k)])
  {
    VariantPlace(p.enums, name, variant, i, k);
  }

  lemma {:induction false} VariantPlace(enums: seq<EnumDecl>, name: string, variant: string, i: nat, k: nat)
    requires i < |enums| && k < |enums[i].variants| && enums[i].name == name && enums[i].variants[k] == variant
    requires forall j :: 0 <= j < k ==> enums[i].variants[j] != variant
    requires forall j :: 0 <= j < i ==> enums[j].name != name || variant !in enums[j].variants
    ensures VariantByName(enums, name, variant) == Option.Some(k)
  {
    if i > 0 {
      VariantPlace(enums[1..], name, variant, i - 1, k);
    } else {
      FirstPlace(enums[0].variants, variant, 0, k);
    }
  }

  lemma {:induction false} FirstPlace(vs: Variants, variant: string, from: nat, k: nat)
    requires from <= k < |vs| && vs[k] == variant && forall j :: from <= j < k ==> vs[j] != variant
    ensures FirstIndex(vs, variant, from) == Option.Some(k)
    decreases k - from
  {
    if from < k {
      FirstPlace(vs, variant, from + 1, k);
    }
  }

  lemma {:induction false} TypedPlace(enums: seq<EnumDecl>, t: TypeId, variant: string, i: nat, k: nat)
    requires i < |enums| && k < |enums[i].variants| && enums[i].typeId == t && enums[i].variants[k] == variant
    requires forall j :: 0 <= j < k ==> enums[i].variants[j] != variant
    requires forall j :: 0 <= j < i ==> enums[j].typeId != t || variant !in enums[j].variants
    ensures VariantByType(enums, t, variant) == Option.Some(k)
  {
    if i > 0 {
      TypedPlace(enums[1..], t, variant, i - 1, k);
    } else {
      FirstPlace(enums[0].variants, variant, 0, k);
    }
  }

  // A constructor pattern tests for the place of its variant in its own enum,
  // and without a recorded type in that of the scrutinee; the variant is the
  // one recorded, or else the last of the path.
  lemma ConstructorTests(p: Program, scrutType: TypeId, pat: Pattern, t: TypeId, variant: string, i: nat, k: nat)
    requires pat.Constructor? && t in p.types && p.types[t].kind == Enum
    requires t == pat.ctorType || (pat.ctorType == 0 && t == scrutType)
    requires pat.ctorType == 0 && scrutType in p.types ==> t == scrutType
    requires if pat.variant == "" && pat.path != [] then variant == pat.path[|pat.path| - 1] else variant == pat.variant
    requires i < |p.enums| && k < |p.enums[i].variants| && p.enums[i].typeId == t && p.enums[i].variants[k] == variant
    requires forall j :: 0 <= j < k ==> p.enums[i].variants[j] != variant
    requires forall j :: 0 <= j < i ==> p.enums[j].typeId != t || variant !in p.enums[j].variants
    ensures DiscOf(p, scrutType, pat) == Test(k)
  {
    TypedPlace(p.enums, t, variant, i, k);
  }

  // `?` propagates the first variant called Err or None of the receiver's enum.
  lemma ErrorPlace(p: Program, t: TypeId, i: nat, k: nat)
    requires t in p.types && p.types[t].kind == Enum
    requires i < |p.enums| && k < |p.enums[i].variants| && p.enums[i].typeId == t
    requires forall j :: 0 <= j < i ==> p.enums[j].typeId != t
    requires p.enums[i].variants[k] == "Err" || p.enums[i].variants[k] == "None"
    requires forall j :: 0 <= j < k ==> p.enums[i].variants[j] != "Err" && p.enums[i].variants[j] != "None"
    ensures ErrorIndex(p, t) == Option.Some(k)
  {
    ErrorPlaceFrom(p.enums, t, i, k);
  }

  lemma {:induction false} ErrorPlaceFrom(enums: seq<EnumDecl>, t: TypeId, i: nat, k: nat)
    requires i < |enums| && k < |enums[i].variants| && enums[i].typeId == t
    requires forall j :: 0 <= j < i ==> enums[j].typeId != t
    requires enums[i].variants[k] == "Err" || enums[i].variants[k] == "None"
    requires forall j :: 0 <= j < k ==> enums[i].variants[j] != "Err" && enums[i].variants[j] != "None"
    ensures ErrorInEnums(enums, t) == Option.Some(k)
  {
    if i > 0 {
      ErrorPlaceFrom(enums[1..], t, i - 1, k);
    } else {
      FirstErrorPlace(enums[0].variants, 0, k);
    }
  }

  lemma {:induction false} FirstErrorPlace(vs: Variants, from: nat, k: nat)
    requires from <= k < |vs| && (vs[k] == "Err" || vs[k] == "None")
    requires forall j :: from <= j < k ==> vs[j] != "Err" && vs[j] != "None"
    ensures FirstError(vs, from) == Option.Some(k)
    decreases k - from
  {
    if from < k {
      FirstErrorPlace(vs, from + 1, k);
    }
  }

  lemma BooleanTests(p: Program, scrutType: TypeId)
    ensures DiscOf(p, scrutType, BoolPat(true)) == Test(1) && DiscOf(p, scrutType, BoolPat(false)) == Test(0)
  {
  }

  // Numbers, booleans and characters are compared by an instruction; values of
  // other types, or of none, by the equality function of their type.
  predicate ByInstruction(p: Program, t: TypeId) {
    t in p.types && p.types[t].kind in {Scalar, Bool}
  }

  lemma BinaryEmits(p: Program, s: State, op: BinOp, t: TypeId, a: Reg, b: Reg)
    requires s.Ok()
    ensures var n := s.numRegs;
      var eq := if ByInstruction(p, t) then EqScalar(n, a, b) else EqCall(n, EqName(p, t), [a, b]);
      && (op == EqBin ==> var r := LowerBinary(p, s, op, t, a, b); r.Done? && r.reg == n && Adds(s, r.state, [eq]))
      && (op == NeBin ==>
            var r := LowerBinary(p, s, op, t, a, b);
            r.Done? && r.reg == n + 2 && Adds(s, r.state, [eq, ConstInt(n + 1, 1), Arith(Sub, n + 2, n + 1, n)]))
      && (op.ArithBin? ==>
            var r := LowerBinary(p, s, op, t, a, b); r.Done? && r.reg == n && Adds(s, r.state, [Arith(op.op, n, a, b)]))
  {
    var n := s.numRegs;
    if op == EqBin || op == NeBin {
      var eq := if ByInstruction(p, t) then EqScalar(n, a, b) else EqCall(n, EqName(p, t), [a, b]);
      var s1 := Emit(s, eq);
      assert Adds(s, s1, [eq]);
      if op == NeBin {
        AddsMore(s, s1, [eq], ConstInt(n + 1, 1));
        AddsMore(s, Emit(s1, ConstInt(n + 1, 1)), [eq] + [ConstInt(n + 1, 1)], Arith(Sub, n + 2, n + 1, n));
        assert [eq] + [ConstInt(n + 1, 1)] + [Arith(Sub, n + 2, n + 1, n)] == [eq, ConstInt(n + 1, 1), Arith(Sub, n + 2, n + 1, n)];
      }
    }
  }

  lemma AddsMore(s: State, t: State, insts: seq<Inst>, inst: Inst)
    requires s.Ok() && t.Ok() && Adds(s, t, insts) && inst.dst == t.numRegs
    ensures Adds(s, Emit(t, inst), insts + [inst])
  {
    assert s.Cur().insts + (insts + [inst]) == s.Cur().insts + insts + [inst];
  }

  // Two literals in a row, as operands or as arguments.
  lemma TwoLiterals(p: Program, s: State, v: Int64, w: Int64, params: map<string, Reg>)
    requires s.Ok()
    ensures var n := s.numRegs;
      var r1 := LowerExpr(p, s, IntLit(Option.Some(v)), params);
      && r1.Done? && r1.reg == n && r1.state.Ok()
      && var r2 := LowerExpr(p, r1.state, IntLit(Option.Some(w)), params);
      && r2.Done? && r2.reg == n + 1 && r2.state.Ok() && r2.state.numRegs == n + 2
      && Adds(s, r2.state, [ConstInt(n, v), ConstInt(n + 1, w)])
  {
    var n := s.numRegs;
    var s1 := Emit(s, ConstInt(n, v));
    assert LowerExpr(p, s, IntLit(Option.Some(v)), params) == Done(n, s1);
    assert LowerExpr(p, s1, IntLit(Option.Some(w)), params) == Done(n + 1, Emit(s1, ConstInt(n + 1, w)));
    hide LowerExpr;
    assert Adds(s, s1, [ConstInt(n, v)]);
    AddsMore(s, s1, [ConstInt(n, v)], ConstInt(n + 1, w));
    assert [ConstInt(n, v)] + [ConstInt(n + 1, w)] == [ConstInt(n, v), ConstInt(n + 1, w)];
  }

  // Operands and arguments are computed from left to right and used in that order.
  lemma OperandsInOrder(p: Program, s: State, v: Int64, w: Int64, op: ArithOp, t: TypeId, params: map<string, Reg>)
    requires s.Ok()
    ensures var n := s.numRegs;
      var r := LowerExpr(p, s, Binary(ArithBin(op), t, IntLit(Option.Some(v)), IntLit(Option.Some(w))), params);
      r.Done? && r.reg == n + 2 && Adds(s, r.state, [ConstInt(n, v), ConstInt(n + 1, w), Arith(op, n + 2, n, n + 1)])
  {
    var n := s.numRegs;
    var x, y := IntLit(Option.Some(v)), IntLit(Option.Some(w));
    TwoLiterals(p, s, v, w, params);
    var s1 := LowerExpr(p, s, x, params).state;
    var s2 := LowerExpr(p, s1, y, params).state;
    BinaryStep(p, s, ArithBin(op), t, x, y, params);
    hide *;
    ArithmeticIs(p, s2, op, t, n, n + 1);
    AddsMore(s, s2, [ConstInt(n, v), ConstInt(n + 1, w)], Arith(op, n + 2, n, n + 1));
  }

  lemma BinaryStep(p: Program, s: State, op: BinOp, t: TypeId, x: Expr, y: Expr, params: map<string, Reg>)
    requires s.Ok() && !op.OtherBin? && LowerExpr(p, s, x, params).Done?
    requires LowerExpr(p, LowerExpr(p, s, x, params).state, y, params).Done?
    ensures var r1 := LowerExpr(p, s, x, params); var r2 := LowerExpr(p, r1.state, y, params);
      LowerExpr(p, s, Binary(op, t, x, y), params) == LowerBinary(p, r2.state, op, t, r1.reg, r2.reg)
  {
    hide LowerBinary;
  }

  lemma ArgumentsInOrder(p: Program, s: State, v: Int64, w: Int64, f: string, params: map<string, Reg>)
    requires s.Ok()
    ensures var n := s.numRegs;
      var r := LowerExpr(p, s, CallFn(f, [IntLit(Option.Some(v)), IntLit(Option.Some(w))]), params);
      r.Done? && r.reg == n + 2 && Adds(s, r.state, [ConstInt(n, v), ConstInt(n + 1, w), Call(n + 2, CName(p.modPath, f), [n, n + 1])])
  {
    var n := s.numRegs;
    var x, y := IntLit(Option.Some(v)), IntLit(Option.Some(w));
    TwoLiterals(p, s, v, w, params);
    var s1 := LowerExpr(p, s, x, params).state;
    var s2 := LowerExpr(p, s1, y, params).state;
    BothArguments(p, s, x, y, params);
    CallStep(p, s, f, [x, y], params);
    hide *;
    AddsMore(s, s2, [ConstInt(n, v), ConstInt(n + 1, w)], Call(n + 2, CName(p.modPath, f), [n, n + 1]));
  }

  lemma CallStep(p: Program, s: State, f: string, es: seq<Expr>, params: map<string, Reg>)
    requires s.Ok() && LowerExprs(p, s, es, params).AllDone?
    ensures var rs := LowerExprs(p, s, es, params); var m := rs.state.numRegs;
      LowerExpr(p, s, CallFn(f, es), params) == Done(m, Emit(rs.state, Call(m, CName(p.modPath, f), rs.regs)))
  {
    hide LowerExprs;
  }

  lemma ArithmeticIs(p: Program, s: State, op: ArithOp, t: TypeId, a: Reg, b: Reg)
    requires s.Ok()
    ensures LowerBinary(p, s, ArithBin(op), t, a, b) == Done(s.numRegs, Emit(s, Arith(op, s.numRegs, a, b)))
  {
  }

  lemma BothArguments(p: Program, s: State, x: Expr, y: Expr, params: map<string, Reg>)
    requires s.Ok() && LowerExpr(p, s, x, params).Done?
    requires var s1 := LowerExpr(p, s, x, params).state; LowerExpr(p, s1, y, params).Done?
    ensures var r1 := LowerExpr(p, s, x, params); var r2 := LowerExpr(p, r1.state, y, params);
      LowerExprs(p, s, [x, y], params) == AllDone([r1.reg, r2.reg], r2.state)
  {
    var r1 := LowerExpr(p, s, x, params);
    ArgumentsStep(p, r1.state, [y], params);
    ArgumentsStep(p, s, [x, y], params);
  }

  lemma ArgumentsStep(p: Program, s: State, es: seq<Expr>, params: map<string, Reg>)
    requires s.Ok() && es != [] && LowerExpr(p, s, es[0], params).Done?
    ensures var r := LowerExpr(p, s, es[0], params); var rest := LowerExprs(p, r.state, es[1..], params);
      && (rest.AllDone? ==> LowerExprs(p, s, es, params) == AllDone([r.reg] + rest.regs, rest.state))
      && LowerExprs(p, r.state, [], params) == AllDone([], r.state)
  {
    hide LowerExpr;
  }

  /******* Names *******/

  // In a module two functions share a C name only if they are one; `main` is
  // kept, and no other function has its name.
  lemma CNameIff(m: string, f: string, g: string)
    ensures CName(m, f) == CName(m, g) <==> f == g
    ensures CName(m, f) == "main" <==> f == "main"
    ensures f != "main" ==> "fuse_" <= CName(m, f)
  {
    if f != "main" {
      CNamePrefix(m, f);
    }
    if g != "main" {
      CNamePrefix(m, g);
    }
    if f != "main" && g != "main" && CName(m, f) == CName(m, g) {
      var front := if m == "" then "fuse_" else "fuse_" + m + "__";
      assert f == CName(m, f)[|front|..] && g == CName(m, g)[|front|..];
    }
  }

  lemma CNamePrefix(m: string, f: string)
    requires f != "main"
    ensures CName(m, f) == (if m == "" then "fuse_" else "fuse_" + m + "__") + f
    ensures "fuse_" <= CName(m, f) && CName(m, f)[0] == 'f'
  {
    assert m != "" ==> "fuse_" + m + "__" == "fuse_" + (m + "__");
  }

  // Across modules the name does not tell where the module's ends.
  lemma CNamesAcrossModules(m: string, f: string, n: string, g: string)
    requires f != "main" && g != "main" && m != "" && n != ""
    ensures CName(m, f) == CName(n, g) <==> m + "__" + f == n + "__" + g
  {
    Qualified(m, f);
    Qualified(n, g);
    hide *;
    SameRest("fuse_", m + "__" + f, n + "__" + g);
  }

  lemma Qualified(m: string, f: string)
    requires f != "main" && m != ""
    ensures CName(m, f) == "fuse_" + (m + "__" + f)
  {
  }

  lemma SameRest(front: string, a: string, b: string)
    ensures front + a == front + b <==> a == b
  {
    assert (front + a)[|front|..] == a && (front + b)[|front|..] == b;
  }

  lemma TwoFunctionsOneName()
    ensures CName("a", "b__c") == CName("a__b", "c")
  {
    CNamesAcrossModules("a", "b__c", "a__b", "c");
    assert "a" + "__" + "b__c" == "a__b" + "__" + "c";
  }

  predicate LetterOrDigit(c: char) {
    'a' <= c <= 'z' || 'A' <= c <= 'Z' || '0' <= c <= '9'
  }

  predicate NamedType(p: Program, t: TypeId) {
    t in p.types && p.types[t].name != ""
  }

  // The equality function is named after the type: its letters and digits, and
  // an underscore for anything else. So two types share one exactly when their
  // names differ only in what is neither.
  lemma EqNameIff(p: Program, t: TypeId, u: TypeId)
    requires NamedType(p, t) && NamedType(p, u)
    ensures var a, b := p.types[t].name, p.types[u].name;
      EqName(p, t) == EqName(p, u) <==>
        |a| == |b| && forall i :: 0 <= i < |a| ==> a[i] == b[i] || (Under(a[i]) && Under(b[i]))
  {
    var a, b := p.types[t].name, p.types[u].name;
    EqNameIs(p, t);
    EqNameIs(p, u);
    var x, y := EqName(p, t), EqName(p, u);
    if x == y {
      SharedName(p, t, u);
    }
    if |a| == |b| && forall i :: 0 <= i < |a| ==> a[i] == b[i] || (Under(a[i]) && Under(b[i])) {
      assert x == x[..|a|] + x[|a|..];
      assert y == y[..|b|] + y[|b|..];
      assert forall i :: 0 <= i < |a| ==> x[i] == y[i];
    }
  }

  lemma SharedName(p: Program, t: TypeId, u: TypeId)
    requires NamedType(p, t) && NamedType(p, u) && EqName(p, t) == EqName(p, u)
    ensures var a, b := p.types[t].name, p.types[u].name;
      |a| == |b| && forall i :: 0 <= i < |a| ==> a[i] == b[i] || (Under(a[i]) && Under(b[i]))
  {
    EqNameIs(p, t);
    EqNameIs(p, u);
    var a, b := p.types[t].name, p.types[u].name;
    forall i | 0 <= i < |a|
      ensures a[i] == b[i] || (Under(a[i]) && Under(b[i]))
    {
      assert EqName(p, t)[i] == EqName(p, u)[i];
    }
  }

  predicate Under(c: char) {
    c == '_' || !LetterOrDigit(c)
  }

  lemma EqNameIs(p: Program, t: TypeId)
    ensures NamedType(p, t) ==>
      var a := p.types[t].name;
      && |EqName(p, t)| == |a| + 4 && EqName(p, t)[|a|..] == "__eq"
      && forall i :: 0 <= i < |a| ==> EqName(p, t)[i] == if LetterOrDigit(a[i]) then a[i] else '_'
    ensures !NamedType(p, t) ==> EqName(p, t) == "unknown_type__eq"
  {
    if NamedType(p, t) {
      var a := p.types[t].name;
      var front := Sanitize(a);
      assert EqName(p, t) == front + "__eq" && |front| == |a|;
      assert forall i :: 0 <= i < |a| ==> (front + "__eq")[i] == front[i];
    }
  }

  /******* Arithmetic *******/

  const TWO63 := 0x8000_0000_0000_0000
  const TWO64 := 0x1_0000_0000_0000_0000

  // Sums, differences and products are exact up to a multiple of 2 to the 64.
  lemma SumsWrap(op: ArithOp, a: Int64, b: Int64)
    requires op in {Add, Sub, Mul}
    ensures EvalArith(op, a, b).Some?
    ensures var exact := if op == Add then a + b else if op == Sub then a - b else a * b;
      var r := EvalArith(op, a, b).value;
      (r - exact) % TWO64 == 0 && (-TWO63 <= exact < TWO63 ==> r == exact)
  {
    var exact := if op == Add then a + b else if op == Sub then a - b else a * b;
    WrapIs(exact);
  }

  lemma WrapIs(x: int)
    ensures (Wrap(x) - x) % TWO64 == 0 && (-TWO63 <= x < TWO63 ==> Wrap(x) == x)
  {
    var q := (x + TWO63) / TWO64;
    assert x + TWO63 == q * TWO64 + (x + TWO63) % TWO64;
    assert Wrap(x) - x == -q * TWO64;
  }

  function Magnitude(x: int): nat {
    if x < 0 then -x else x
  }

  // A quotient is cut toward zero and the remainder has the dividend's sign;
  // neither is defined for a zero divisor or where the quotient does not fit.
  lemma DivisionTruncates(a: Int64, b: Int64)
    ensures EvalArith(Div, a, b).None? <==> b == 0 || (a == -TWO63 && b == -1)
    ensures EvalArith(Mod, a, b).None? <==> b == 0 || (a == -TWO63 && b == -1)
    ensures EvalArith(Div, a, b).Some? ==>
      var q, r := EvalArith(Div, a, b).value, EvalArith(Mod, a, b).value;
      q * b + r == a && Magnitude(r) < Magnitude(b) && (r == 0 || (r < 0 <==> a < 0))
  {
    if b != 0 {
      QuotientFits(a, b);
      var q := TruncDiv(a, b);
      if q < TWO63 {
        WrapIs(q);
        WrapIs(a - b * q);
      }
    }
  }

  // k is the quotient of a by b, cut toward zero.
  predicate Cut(a: Int64, b: Int64, k: int) {
    var m := a - b * k;
    && -TWO63 <= k <= TWO63 && (k == TWO63 <==> a == -TWO63 && b == -1)
    && Magnitude(m) < Magnitude(b) && (m == 0 || (m < 0 <==> a < 0))
  }

  lemma QuotientFits(a: Int64, b: Int64)
    requires b != 0
    ensures Cut(a, b, TruncDiv(a, b))
  {
    hide Cut, TruncDiv;
    var q, r := Divide(Magnitude(a), Magnitude(b));
    CutIs(a, b, q);
    Signed(a, b, q, r);
  }

  lemma CutIs(a: int, b: int, q: nat)
    requires b != 0 && q == Magnitude(a) / Magnitude(b)
    ensures TruncDiv(a, b) == if (a < 0) == (b < 0) then q else 0 - q
  {
  }

  lemma Signed(a: Int64, b: Int64, q: int, r: int)
    requires b != 0 && Magnitude(a) == q * Magnitude(b) + r && 0 <= r < Magnitude(b) && 0 <= q <= Magnitude(a)
    requires (Magnitude(b) > 1 && a != 0 ==> q < Magnitude(a)) && (Magnitude(b) == 1 ==> q == Magnitude(a))
    ensures Cut(a, b, if (a < 0) == (b < 0) then q else 0 - q)
  {
    Signs(a, b, q, r);
  }

  lemma Signs(a: int, b: int, q: int, r: int)
    requires b != 0 && Magnitude(a) == q * Magnitude(b) + r
    ensures a - b * (if (a < 0) == (b < 0) then q else -q) == if a < 0 then -r else r
  {
    assert b * -q == -(b * q) && -b * q == -(b * q);
  }

  lemma Divide(x: nat, y: nat) returns (q: nat, r: nat)
    requires y > 0
    ensures q == x / y && x == q * y + r && r < y && q <= x
    ensures (y > 1 && x > 0 ==> q < x) && (y == 1 ==> q == x)
  {
    q, r := x / y, x % y;
    AtLeast(q, y);
  }

  lemma AtLeast(q: nat, y: nat)
    requires y > 0
    ensures q * y >= q && (y > 1 ==> q * y >= q + q)
  {
    assert q * y == q + q * (y - 1);
    if y > 1 {
      assert q * (y - 1) == q + q * (y - 2);
    }
  }
}
