// The checker's exhaustiveness rules, and what they buy the lowered code.
module Exhaustive {
  import opened Mir
  import opened Hir
  import opened Lowering
  import opened Discipline
  import opened Simulation
  import opened Acceptance

  predicate IsTotal(pat: Pattern) {
    match pat
    case Wildcard => true
    case Bind(_) => true
    case OrPat(alts) => exists i :: 0 <= i < |alts| && IsTotal(alts[i])
    case _ => false
  }

  function VariantName(pat: Pattern): string
    requires pat.Constructor?
  {
    if pat.variant == "" && pat.path != [] then pat.path[|pat.path| - 1] else pat.variant
  }

  function CoveredBy(pat: Pattern): set<string> {
    match pat
    case Constructor(_, _, _) => if VariantName(pat) == "" then {} else {VariantName(pat)}
    case OrPat(alts) => set i, x | 0 <= i < |alts| && x in CoveredBy(alts[i]) :: x
    case _ => {}
  }

  // A boolean literal, alone or as a direct alternative of an or-pattern.
  predicate Names(pat: Pattern, b: bool) {
    pat == BoolPat(b) || (pat.OrPat? && BoolPat(b) in pat.alts)
  }

  function DeclOf(enums: seq<EnumDecl>, t: TypeId): (d: Option<EnumDecl>)
    ensures d.Some? ==> d.value in enums && d.value.typeId == t
  {
    if enums == [] then None else if enums[0].typeId == t then Some(enums[0]) else DeclOf(enums[1..], t)
  }

  // What checkExhaustive asks of the arms.
  ghost predicate NoDiagnostic(p: Program, t: TypeId, arms: seq<Arm>) {
    || (exists i :: 0 <= i < |arms| && IsTotal(arms[i].pattern))
    || t !in p.types
    || (p.types[t].kind == Bool && SomeArmNames(arms, true) && SomeArmNames(arms, false))
    || (p.types[t].kind == Enum &&
        (DeclOf(p.enums, t).None? ||
         forall i :: 0 <= i < |DeclOf(p.enums, t).value.variants| ==> Covered(arms, DeclOf(p.enums, t).value.variants[i])))
  }

  ghost predicate SomeArmNames(arms: seq<Arm>, b: bool) {
    exists i :: 0 <= i < |arms| && Names(arms[i].pattern, b)
  }

  ghost predicate Covered(arms: seq<Arm>, name: string) {
    exists i :: 0 <= i < |arms| && name in CoveredBy(arms[i].pattern)
  }

  // checkExhaustive: true when a diagnostic is reported.
  method CheckExhaustive(p: Program, t: TypeId, arms: seq<Arm>) returns (diagnosed: bool)
    ensures diagnosed <==> !NoDiagnostic(p, t, arms)
  {
    var i := 0;
    while i < |arms|
      invariant 0 <= i <= |arms|
      invariant forall j :: 0 <= j < i ==> !IsTotal(arms[j].pattern)
    {
      if IsTotal(arms[i].pattern) {
        return false;
      }
      i := i + 1;
    }
    if t !in p.types {
      return false;
    }
    match p.types[t].kind
    case Bool => diagnosed := CheckBool(arms);
    case Enum => diagnosed := CheckEnum(DeclOf(p.enums, t), arms);
    case _ => diagnosed := true;
  }

  method CheckBool(arms: seq<Arm>) returns (diagnosed: bool)
    ensures diagnosed <==> !(SomeArmNames(arms, true) && SomeArmNames(arms, false))
  {
    var coverTrue, coverFalse := false, false;
    for i := 0 to |arms|
      invariant coverTrue <==> SomeArmNames(arms[..i], true)
      invariant coverFalse <==> SomeArmNames(arms[..i], false)
    {
      NamesGrows(arms, i, true);
      NamesGrows(arms, i, false);
      if Names(arms[i].pattern, true) {
        coverTrue := true;
      }
      if Names(arms[i].pattern, false) {
        coverFalse := true;
      }
    }
    assert arms[..|arms|] == arms;
    return !coverTrue || !coverFalse;
  }

  lemma NamesGrows(arms: seq<Arm>, i: nat, b: bool)
    requires i < |arms|
    ensures SomeArmNames(arms[..i + 1], b) <==> SomeArmNames(arms[..i], b) || Names(arms[i].pattern, b)
  {
    assert forall j :: 0 <= j < i ==> arms[..i + 1][j] == arms[..i][j];
    assert arms[..i + 1][i] == arms[i];
  }

  method CheckEnum(decl: Option<EnumDecl>, arms: seq<Arm>) returns (diagnosed: bool)
    ensures diagnosed <==> decl.Some? && exists i :: 0 <= i < |decl.value.variants| && !Covered(arms, decl.value.variants[i])
  {
    if decl.None? {
      return false;
    }
    var covered: set<string> := {};
    for i := 0 to |arms|
      invariant forall x :: x in covered <==> Covered(arms[..i], x)
    {
      assert forall j :: 0 <= j < i ==> arms[..i + 1][j] == arms[..i][j];
      assert arms[..i + 1][i] == arms[i];
      covered := covered + CoveredBy(arms[i].pattern);
    }
    assert arms[..|arms|] == arms;
    var k := 0;
    while k < |decl.value.variants|
      invariant 0 <= k <= |decl.value.variants|
      invariant forall i :: 0 <= i < k ==> decl.value.variants[i] in covered
    {
      if decl.value.variants[k] !in covered {
        return true;
      }
      k := k + 1;
    }
    return false;
  }

  /******* What passing the check means *******/

  // Constructor patterns name the scrutinee's own enum.
  predicate NamesOwnEnum(t: TypeId, pat: Pattern) {
    match pat
    case Constructor(ct, _, _) => ct == 0 || ct == t
    case OrPat(alts) => forall i :: 0 <= i < |alts| ==> NamesOwnEnum(t, alts[i])
    case AtBind(_, inner) => NamesOwnEnum(t, inner)
    case _ => true
  }

  // v is a value of the scrutinee's type.
  predicate InRange(p: Program, t: TypeId, v: Int64) {
    t in p.types &&
    match p.types[t].kind
    case Bool => v == 0 || v == 1
    case Enum => DeclOf(p.enums, t).Some? && 0 <= v < |DeclOf(p.enums, t).value.variants|
    case _ => false
  }

  // The enum of type t is declared once, with distinct variant names.
  predicate WellDeclared(p: Program, t: TypeId) {
    && (forall i, j :: 0 <= i < j < |p.enums| ==> p.enums[i].typeId != p.enums[j].typeId)
    && (DeclOf(p.enums, t).Some? ==>
      var vs := DeclOf(p.enums, t).value.variants;
      "" !in vs && forall i, j :: 0 <= i < j < |vs| ==> vs[i] != vs[j])
  }

  lemma {:induction false} TotalMatches(p: Program, t: TypeId, pat: Pattern, v: Int64)
    requires IsTotal(pat)
    ensures PatMatches(p, t, pat, v)
  {
    if pat.OrPat? {
      var i :| 0 <= i < |pat.alts| && IsTotal(pat.alts[i]);
      TotalMatches(p, t, pat.alts[i], v);
    }
  }

  lemma {:induction false} IndexOfVariant(enums: seq<EnumDecl>, t: TypeId, k: nat)
    requires forall i, j :: 0 <= i < j < |enums| ==> enums[i].typeId != enums[j].typeId
    requires DeclOf(enums, t).Some? && k < |DeclOf(enums, t).value.variants|
    requires var vs := DeclOf(enums, t).value.variants; forall i, j :: 0 <= i < j < |vs| ==> vs[i] != vs[j]
    ensures VariantByType(enums, t, DeclOf(enums, t).value.variants[k]) == Some(k)
  {
    if enums[0].typeId != t {
      IndexOfVariant(enums[1..], t, k);
    } else {
      var vs := enums[0].variants;
      var r := FirstIndex(vs, vs[k], 0);
      assert vs[k] in vs[0..];
    }
  }

  lemma {:induction false} CoveredMatches(p: Program, t: TypeId, pat: Pattern, v: Int64)
    requires WellDeclared(p, t) && InRange(p, t, v) && p.types[t].kind == Enum && NamesOwnEnum(t, pat)
    requires DeclOf(p.enums, t).value.variants[v] in CoveredBy(pat)
    ensures PatMatches(p, t, pat, v)
  {
    match pat
    case Constructor(_, _, _) => IndexOfVariant(p.enums, t, v);
    case OrPat(alts) =>
      var i :| 0 <= i < |alts| && DeclOf(p.enums, t).value.variants[v] in CoveredBy(alts[i]);
      CoveredMatches(p, t, alts[i], v);
    case _ =>
  }

  // No diagnostic: every value of a Bool or unit-enum scrutinee has an arm.
  lemma ExhaustiveIsSound(p: Program, t: TypeId, arms: seq<Arm>, v: Int64)
    requires NoDiagnostic(p, t, arms) && WellDeclared(p, t) && InRange(p, t, v)
    requires forall i :: 0 <= i < |arms| ==> NamesOwnEnum(t, arms[i].pattern)
    ensures exists i :: 0 <= i < |arms| && PatMatches(p, t, arms[i].pattern, v)
  {
    if i :| 0 <= i < |arms| && IsTotal(arms[i].pattern) {
      TotalMatches(p, t, arms[i].pattern, v);
    } else if p.types[t].kind == Bool {
      var i :| 0 <= i < |arms| && Names(arms[i].pattern, v == 1);
      if arms[i].pattern.OrPat? {
        var j :| 0 <= j < |arms[i].pattern.alts| && arms[i].pattern.alts[j] == BoolPat(v == 1);
        assert PatMatches(p, t, arms[i].pattern.alts[j], v);
      }
      assert PatMatches(p, t, arms[i].pattern, v);
    } else {
      var i :| 0 <= i < |arms| && DeclOf(p.enums, t).value.variants[v] in CoveredBy(arms[i].pattern);
      CoveredMatches(p, t, arms[i].pattern, v);
    }
  }

  /******* What a diagnostic means *******/

  // Patterns of the scrutinee's type.
  predicate Typed(p: Program, t: TypeId, pat: Pattern)
    requires t in p.types
  {
    match pat
    case BoolPat(_) => p.types[t].kind == Bool
    case Constructor(ct, _, _) => p.types[t].kind == Enum && (ct == 0 || ct == t)
    case OrPat(alts) => forall i :: 0 <= i < |alts| ==> Typed(p, t, alts[i])
    case AtBind(_, inner) => Typed(p, t, inner)
    case _ => true
  }

  predicate AllTyped(p: Program, t: TypeId, arms: seq<Arm>)
    requires t in p.types
  {
    forall i :: 0 <= i < |arms| ==> Typed(p, t, arms[i].pattern)
  }

  // Bool, or an enum that is declared: the types whose values are listed.
  predicate Listed(p: Program, t: TypeId) {
    t in p.types && (p.types[t].kind == Bool || (p.types[t].kind == Enum && DeclOf(p.enums, t).Some?)) && WellDeclared(p, t)
  }

  // The check counts v as covered by this pattern.
  predicate Counts(p: Program, t: TypeId, pat: Pattern, v: Int64)
    requires InRange(p, t, v)
  {
    || IsTotal(pat)
    || (p.types[t].kind == Bool && Names(pat, v == 1))
    || (p.types[t].kind == Enum && DeclOf(p.enums, t).value.variants[v] in CoveredBy(pat))
  }

  // v matches in a place where the check does not look: below `x @ ...`, or,
  // for Bool, in an or-pattern inside an or-pattern.
  predicate Overlooked(p: Program, t: TypeId, pat: Pattern, v: Int64)
    requires t in p.types
  {
    match pat
    case AtBind(_, inner) => PatMatches(p, t, inner, v)
    case OrPat(alts) =>
      (exists i :: 0 <= i < |alts| && Overlooked(p, t, alts[i], v))
      || (p.types[t].kind == Bool && exists i :: 0 <= i < |alts| && alts[i].OrPat? && PatMatches(p, t, alts[i], v))
    case _ => false
  }

  // A pattern matches exactly what the check counts and what it overlooks.
  lemma {:induction false} CountsOrOverlooks(p: Program, t: TypeId, pat: Pattern, v: Int64)
    requires Listed(p, t) && InRange(p, t, v) && Typed(p, t, pat)
    ensures PatMatches(p, t, pat, v) <==> Counts(p, t, pat, v) || Overlooked(p, t, pat, v)
    decreases pat, 1
  {
    match pat
    case Constructor(_, _, _) => ConstructorCounts(p, t, pat, v);
    case OrPat(alts) => AlternativesCount(p, t, pat, v);
    case _ =>
  }

  lemma ConstructorCounts(p: Program, t: TypeId, pat: Pattern, v: Int64)
    requires Listed(p, t) && InRange(p, t, v) && Typed(p, t, pat) && pat.Constructor?
    ensures PatMatches(p, t, pat, v) <==> Counts(p, t, pat, v)
  {
    IndexOfVariant(p.enums, t, v);
    if CtorIndex(p, t, pat) == Some(v) {
      VariantHere(p.enums, t, VariantName(pat), v);
    }
  }

  lemma {:induction false} AlternativesCount(p: Program, t: TypeId, pat: Pattern, v: Int64)
    requires Listed(p, t) && InRange(p, t, v) && Typed(p, t, pat) && pat.OrPat?
    ensures PatMatches(p, t, pat, v) <==> Counts(p, t, pat, v) || Overlooked(p, t, pat, v)
    decreases pat, 0
  {
    var alts := pat.alts;
    forall i | 0 <= i < |alts|
      ensures PatMatches(p, t, alts[i], v) <==> Counts(p, t, alts[i], v) || Overlooked(p, t, alts[i], v)
    {
      CountsOrOverlooks(p, t, alts[i], v);
    }
    if i :| 0 <= i < |alts| && PatMatches(p, t, alts[i], v) {
      assert Counts(p, t, alts[i], v) || Overlooked(p, t, alts[i], v);
      assert alts[i].BoolPat? ==> alts[i] == BoolPat(v == 1);
    }
    if p.types[t].kind == Bool && BoolPat(v == 1) in alts {
      var i :| 0 <= i < |alts| && alts[i] == BoolPat(v == 1);
      assert PatMatches(p, t, alts[i], v);
    }
  }

  // A diagnostic is reported exactly when some value is counted for no arm.
  lemma DiagnosticIff(p: Program, t: TypeId, arms: seq<Arm>)
    requires Listed(p, t) && AllTyped(p, t, arms)
    ensures !NoDiagnostic(p, t, arms) <==>
      exists v: Int64 :: InRange(p, t, v) && forall i :: 0 <= i < |arms| ==> !Counts(p, t, arms[i].pattern, v)
  {
    if !NoDiagnostic(p, t, arms) {
      if p.types[t].kind == Bool {
        var v: Int64 := if SomeArmNames(arms, true) then 0 else 1;
        assert InRange(p, t, v) && !SomeArmNames(arms, v == 1);
      } else {
        var vs := DeclOf(p.enums, t).value.variants;
        var k :| 0 <= k < |vs| && !Covered(arms, vs[k]);
        var v: Int64 := k;
        assert InRange(p, t, v);
      }
    }
    if v: Int64 :| InRange(p, t, v) && forall i :: 0 <= i < |arms| ==> !Counts(p, t, arms[i].pattern, v) {
      assert p.types[t].kind == Bool ==> !SomeArmNames(arms, v == 1);
      assert p.types[t].kind == Enum ==> !Covered(arms, DeclOf(p.enums, t).value.variants[v]);
    }
  }

  // v is a value of the type that no arm matches.
  predicate Gap(p: Program, t: TypeId, arms: seq<Arm>, v: Int64) {
    InRange(p, t, v) && forall i :: 0 <= i < |arms| ==> !PatMatches(p, t, arms[i].pattern, v)
  }

  // A diagnostic is spurious, every value having an arm, exactly when each
  // value that is counted for no arm is overlooked in one.
  lemma SpuriousIff(p: Program, t: TypeId, arms: seq<Arm>)
    requires Listed(p, t) && AllTyped(p, t, arms) && !NoDiagnostic(p, t, arms)
    ensures (forall v: Int64 :: !Gap(p, t, arms, v)) <==>
      forall v: Int64 :: InRange(p, t, v) && (forall i :: 0 <= i < |arms| ==> !Counts(p, t, arms[i].pattern, v)) ==>
        exists i :: 0 <= i < |arms| && Overlooked(p, t, arms[i].pattern, v)
  {
    hide PatMatches, Overlooked, NoDiagnostic, Counts, Typed, InRange;
    forall v: Int64 | InRange(p, t, v)
      ensures Gap(p, t, arms, v) <==>
        forall i :: 0 <= i < |arms| ==> !Counts(p, t, arms[i].pattern, v) && !Overlooked(p, t, arms[i].pattern, v)
    {
      forall i | 0 <= i < |arms|
        ensures PatMatches(p, t, arms[i].pattern, v) <==>
          Counts(p, t, arms[i].pattern, v) || Overlooked(p, t, arms[i].pattern, v)
      {
        CountsOrOverlooks(p, t, arms[i].pattern, v);
      }
    }
  }

  // No `x @ ...`, and for Bool no or-pattern inside an or-pattern.
  predicate Plain(pat: Pattern, nested: bool) {
    match pat
    case AtBind(_, _) => false
    case OrPat(alts) => forall i :: 0 <= i < |alts| ==> Plain(alts[i], nested) && (alts[i].OrPat? ==> nested)
    case _ => true
  }

  // So with plain patterns a diagnostic means that some value has no arm.
  lemma DiagnosticMeansGap(p: Program, t: TypeId, arms: seq<Arm>)
    requires Listed(p, t) && AllTyped(p, t, arms) && !NoDiagnostic(p, t, arms)
    requires forall i :: 0 <= i < |arms| ==> Plain(arms[i].pattern, p.types[t].kind == Enum)
    ensures exists v: Int64 :: Gap(p, t, arms, v)
  {
    DiagnosticIff(p, t, arms);
    var v: Int64 :| InRange(p, t, v) && forall i :: 0 <= i < |arms| ==> !Counts(p, t, arms[i].pattern, v);
    forall i | 0 <= i < |arms|
      ensures !PatMatches(p, t, arms[i].pattern, v)
    {
      CountsOrOverlooks(p, t, arms[i].pattern, v);
      PlainOverlooksNothing(p, t, arms[i].pattern, v);
    }
    assert Gap(p, t, arms, v);
  }

  lemma {:induction false} PlainOverlooksNothing(p: Program, t: TypeId, pat: Pattern, v: Int64)
    requires Listed(p, t) && Plain(pat, p.types[t].kind == Enum)
    ensures !Overlooked(p, t, pat, v)
  {
    if pat.OrPat? {
      forall i | 0 <= i < |pat.alts|
        ensures !Overlooked(p, t, pat.alts[i], v)
      {
        PlainOverlooksNothing(p, t, pat.alts[i], v);
      }
    }
  }

  // `x @ _` matches everything, but alone it is reported.
  lemma AtWildcardIsReported(p: Program, t: TypeId, x: string, guard: Option<Expr>, body: Body, v: Int64)
    requires Listed(p, t) && InRange(p, t, v)
    ensures var arms := [Arm(AtBind(x, Wildcard), guard, body)];
      !NoDiagnostic(p, t, arms) && forall u: Int64 :: !Gap(p, t, arms, u)
  {
    var arms := [Arm(AtBind(x, Wildcard), guard, body)];
    DiagnosticIff(p, t, arms);
    assert !Counts(p, t, arms[0].pattern, v);
    forall u: Int64
      ensures !Gap(p, t, arms, u)
    {
      assert PatMatches(p, t, arms[0].pattern, u);
    }
  }

  lemma {:induction false} VariantHere(enums: seq<EnumDecl>, t: TypeId, name: string, k: nat)
    requires forall i, j :: 0 <= i < j < |enums| ==> enums[i].typeId != enums[j].typeId
    requires DeclOf(enums, t).Some? && VariantByType(enums, t, name) == Some(k)
    ensures k < |DeclOf(enums, t).value.variants| && DeclOf(enums, t).value.variants[k] == name
  {
    if enums[0].typeId != t {
      VariantHere(enums[1..], t, name, k);
    } else {
      NoSuchEnum(enums[1..], t, name);
    }
  }

  lemma {:induction false} NoSuchEnum(enums: seq<EnumDecl>, t: TypeId, name: string)
    requires forall i :: 0 <= i < |enums| ==> enums[i].typeId != t
    ensures VariantByType(enums, t, name).None?
  {
    if enums != [] {
      NoSuchEnum(enums[1..], t, name);
    }
  }

  // Joined to lowering: when the check passed, running the comparison chain on
  // a value of the scrutinee's type always enters an arm. The edge from the
  // last comparison to the merge block is dead.
  lemma FallbackEdgeIsDead(m: Machine, p: Program, s: State, scrut: Reg, t: TypeId, arms: seq<Arm>,
                           params: map<string, Reg>, regs: Regs, trace: seq<Event>) returns (k: nat)
    requires Open(s) && s.AtLast() && ParamsOk(params, s) && StraightArms(p, arms) && scrut in regs && scrut < s.numRegs
    requires LowerMatch(p, s, scrut, t, arms, params).Done?
    requires Extends(m.blocks, LowerMatch(p, s, scrut, t, arms, params).state.blocks)
    requires NoDiagnostic(p, t, arms) && WellDeclared(p, t) && InRange(p, t, regs[scrut])
    requires forall i :: 0 <= i < |arms| ==> NamesOwnEnum(t, arms[i].pattern)
    ensures k < |arms|
    ensures m.To(At(s, regs, trace), Running(|s.blocks| + 1 + k, 0, regs[s.numRegs := 0], trace))
  {
    hide *;
    OpenOk(s);
    MatchUnfold(p, s, scrut, t, arms, params);
    ExhaustiveSelects(p, t, arms, regs[scrut]);
    k := Select(Discs(p, t, arms), regs[scrut], 0);
    var _ := SimDispatch(m, p, s, scrut, t, arms, params, regs, trace);
  }

  lemma ExhaustiveSelects(p: Program, t: TypeId, arms: seq<Arm>, v: Int64)
    requires NoDiagnostic(p, t, arms) && WellDeclared(p, t) && InRange(p, t, v) && Testable(Discs(p, t, arms))
    requires forall i :: 0 <= i < |arms| ==> NamesOwnEnum(t, arms[i].pattern)
    ensures Select(Discs(p, t, arms), v, 0) < |arms|
  {
    ExhaustiveIsSound(p, t, arms, v);
    var i :| 0 <= i < |arms| && PatMatches(p, t, arms[i].pattern, v);
    var ds := Discs(p, t, arms);
    assert !ds[i].Unsupported? by {
      if i < |ds| - 1 {
        assert ds[..|ds| - 1][i].Test?;
      }
    }
    SupportedReading(p, t, arms[i].pattern, v, ds[i]);
  }

  lemma SupportedReading(p: Program, t: TypeId, pat: Pattern, v: Int64, d: Disc)
    requires d == DiscOf(p, t, pat) && PatMatches(p, t, pat, v) && !d.Unsupported?
    ensures DiscMatches(d, v)
  {
    if pat.Constructor? {
      var ty := if pat.ctorType == 0 && t in p.types then t else pat.ctorType;
      VariantsFit(p.enums, ty, "", VariantName(pat));
    }
  }
}
