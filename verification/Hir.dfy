// The expressions the lowerer accepts or diagnoses, and what they mean.
module Hir {
  import opened Mir

  // typetable kinds, as far as lowering asks about them.
  datatype Kind = Bool | Scalar | Enum | OtherKind
  datatype TypeInfo = TypeInfo(kind: Kind, name: string)
  type TypeId = nat  // zero means no type was recorded

  type Variants = vs: seq<string> | |vs| < 0x8000_0000_0000_0000
  datatype EnumDecl = EnumDecl(name: string, typeId: TypeId, variants: Variants)

  // A checked program: its type table, and the enums of all modules in order.
  datatype Program = Program(modPath: string, types: map<TypeId, TypeInfo>, enums: seq<EnumDecl>)

  datatype BinOp = ArithBin(op: ArithOp) | EqBin | NeBin | OtherBin

  datatype Pattern =
    | Wildcard
    | Bind(name: string)
    | BoolPat(b: bool)
    | Constructor(ctorType: TypeId, variant: string, path: seq<string>)
    | OrPat(alts: seq<Pattern>)
    | AtBind(name: string, inner: Pattern)
    | OtherPat  // other literals and ranges

  // A block, by the shapes lowering distinguishes: a trailing expression
  // (possibly after statements), a lone `return e;`, or anything else.
  datatype Body =
    | Trailing(before: Lead, value: Expr)
    | ReturnOnly(value: Expr)
    | OtherBody

  // The statements before a trailing expression: none, one `return e;`, or others.
  datatype Lead = NoStmts | ReturnStmt(returned: Expr) | OtherStmts

  datatype Arm = Arm(pattern: Pattern, guard: Option<Expr>, body: Body)

  // `operandType` and its like record TypeOf() of the sub-expression.
  datatype Expr =
    | IntLit(parsed: Option<Int64>)  // None: the text is not a 64-bit literal
    | BoolLit(b: bool)
    | OtherLit
    | Var(name: string)
    | Variant(enumType: TypeId, enumName: string, variant: string)
    | Binary(op: BinOp, operandType: TypeId, lhs: Expr, rhs: Expr)
    | CallFn(name: string, args: seq<Expr>)
    | CallClosure(params: seq<string>, args: seq<Expr>, body: Body)
    | Field(receiver: Expr, field: string)
    | OptField(receiver: Expr, receiverType: TypeId, field: string)
    | Try(receiver: Expr, receiverType: TypeId)
    | Match(scrutinee: Expr, scrutType: TypeId, arms: seq<Arm>)
    | OtherExpr

  // What an inlined closure evaluates: its trailing expression if that is all,
  // or else its one statement's `return` value.
  function ClosureValue(b: Body): (e: Option<Expr>)
    ensures e.Some? ==> e.value < b
  {
    match b
    case Trailing(NoStmts, e) => Some(e)
    case Trailing(ReturnStmt(e), _) => Some(e)
    case ReturnOnly(e) => Some(e)
    case _ => None
  }

  /******* Names and enums *******/

  function CName(modPath: string, name: string): (c: string)
    ensures c != ""
  {
    if name == "main" then "main"
    else if modPath == "" then "fuse_" + name
    else "fuse_" + modPath + "__" + name
  }

  function SanitizeChar(c: char): char {
    if 'a' <= c <= 'z' || 'A' <= c <= 'Z' || '0' <= c <= '9' then c else '_'
  }

  function Sanitize(s: string): string {
    if s == "" then "_" else seq(|s|, i requires 0 <= i < |s| => SanitizeChar(s[i]))
  }

  function EqName(p: Program, t: TypeId): (c: string)
    ensures c != ""
  {
    if t in p.types && p.types[t].name != "" then Sanitize(p.types[t].name) + "__eq" else "unknown_type__eq"
  }

  function FirstIndex(vs: Variants, name: string, from: nat): (r: Option<nat>)
    requires from <= |vs|
    ensures r.Some? ==> from <= r.value < |vs| && vs[r.value] == name
    ensures r.Some? ==> name !in vs[from..r.value]
    ensures r.None? ==> name !in vs[from..]
    decreases |vs| - from
  {
    if from == |vs| then None
    else if vs[from] == name then Some(from)
    else FirstIndex(vs, name, from + 1)
  }

  function VariantByType(enums: seq<EnumDecl>, t: TypeId, variant: string): Option<nat> {
    if enums == [] then None
    else if enums[0].typeId == t && FirstIndex(enums[0].variants, variant, 0).Some?
    then FirstIndex(enums[0].variants, variant, 0)
    else VariantByType(enums[1..], t, variant)
  }

  function VariantByName(enums: seq<EnumDecl>, name: string, variant: string): Option<nat> {
    if enums == [] then None
    else if enums[0].name == name && FirstIndex(enums[0].variants, variant, 0).Some?
    then FirstIndex(enums[0].variants, variant, 0)
    else VariantByName(enums[1..], name, variant)
  }

  function FirstError(vs: Variants, from: nat): (r: Option<nat>)
    requires from <= |vs|
    ensures r.Some? ==> r.value < |vs| && vs[r.value] in {"Err", "None"}
    decreases |vs| - from
  {
    if from == |vs| then None
    else if vs[from] == "Err" || vs[from] == "None" then Some(from)
    else FirstError(vs, from + 1)
  }

  function ErrorInEnums(enums: seq<EnumDecl>, t: TypeId): Option<nat> {
    if enums == [] then None
    else if enums[0].typeId == t then FirstError(enums[0].variants, 0)
    else ErrorInEnums(enums[1..], t)
  }

  // The discriminant that `?` propagates for a receiver of type t.
  function ErrorIndex(p: Program, t: TypeId): (r: Option<nat>)
  {
    if t in p.types && p.types[t].kind == Enum then ErrorInEnums(p.enums, t) else None
  }

  lemma {:induction false} VariantsFit(enums: seq<EnumDecl>, t: TypeId, name: string, variant: string)
    ensures VariantByType(enums, t, variant).Some? ==> VariantByType(enums, t, variant).value < 0x8000_0000_0000_0000
    ensures VariantByName(enums, name, variant).Some? ==> VariantByName(enums, name, variant).value < 0x8000_0000_0000_0000
    ensures ErrorInEnums(enums, t).Some? ==> ErrorInEnums(enums, t).value < 0x8000_0000_0000_0000
  {
    if enums != [] {
      VariantsFit(enums[1..], t, name, variant);
    }
  }

  function AsInt64(n: nat): Int64 {
    if n < 0x8000_0000_0000_0000 then n else 0
  }

  /******* Patterns *******/

  function CtorIndex(p: Program, scrutType: TypeId, pat: Pattern): Option<nat>
    requires pat.Constructor?
  {
    var t := if pat.ctorType == 0 && scrutType in p.types then scrutType else pat.ctorType;
    if t !in p.types || p.types[t].kind != Enum then None
    else
      var name := if pat.variant == "" && pat.path != [] then pat.path[|pat.path| - 1] else pat.variant;
      VariantByType(p.enums, t, name)
  }

  // The language's reading of a pattern against a discriminant.
  predicate PatMatches(p: Program, scrutType: TypeId, pat: Pattern, v: Int64) {
    match pat
    case Wildcard => true
    case Bind(_) => true
    case BoolPat(b) => v == (if b then 1 else 0)
    case Constructor(_, _, _) => CtorIndex(p, scrutType, pat) == Some(v)
    case OrPat(alts) => exists i :: 0 <= i < |alts| && PatMatches(p, scrutType, alts[i], v)
    case AtBind(_, inner) => PatMatches(p, scrutType, inner, v)
    case OtherPat => false
  }

  function Bound(pat: Pattern): set<string> {
    match pat
    case Bind(x) => {x}
    case AtBind(x, inner) => {x} + Bound(inner)
    case OrPat(alts) => set i, x | 0 <= i < |alts| && x in Bound(alts[i]) :: x
    case _ => {}
  }

  datatype Disc = CatchAll | Test(d: Int64) | Unsupported

  function OrIsTotal(alts: seq<Pattern>): bool {
    BoolPat(true) in alts && BoolPat(false) in alts
  }

  // The lowerer's reading of a pattern: one integer to compare with, or none.
  function DiscOf(p: Program, scrutType: TypeId, pat: Pattern): Disc {
    match pat
    case Wildcard => CatchAll
    case Bind(_) => CatchAll
    case BoolPat(b) => Test(if b then 1 else 0)
    case Constructor(_, _, _) =>
      (match CtorIndex(p, scrutType, pat) case None => Unsupported case Some(i) => Test(AsInt64(i)))
    case OrPat(alts) => if OrIsTotal(alts) then CatchAll else Unsupported
    case AtBind(_, inner) => if inner.Wildcard? then CatchAll else Unsupported
    case OtherPat => Unsupported
  }

  function Discs(p: Program, scrutType: TypeId, arms: seq<Arm>): (ds: seq<Disc>)
    ensures |ds| == |arms|
    ensures forall i :: 0 <= i < |arms| ==> ds[i] == DiscOf(p, scrutType, arms[i].pattern)
  {
    seq(|arms|, i requires 0 <= i < |arms| => DiscOf(p, scrutType, arms[i].pattern))
  }

  predicate DiscMatches(d: Disc, v: Int64) {
    d.CatchAll? || d == Test(v)
  }

  // Index of the first arm at or after `from` whose test accepts v.
  function Select(ds: seq<Disc>, v: Int64, from: nat): (k: nat)
    requires from <= |ds|
    ensures from <= k <= |ds|
    ensures k < |ds| ==> DiscMatches(ds[k], v)
    ensures forall i :: from <= i < k ==> !DiscMatches(ds[i], v)
    decreases |ds| - from
  {
    if from == |ds| || DiscMatches(ds[from], v) then from else Select(ds, v, from + 1)
  }

  /******* Meaning *******/

  datatype Outcome =
    | Value(v: Int64, trace: seq<Event>)
    | Early(v: Int64, trace: seq<Event>)  // the enclosing fn returns v now
    | Trap(trace: seq<Event>)
    | Stuck  // the language gives no meaning

  datatype Outcomes =
    | Values(vs: seq<Int64>, trace: seq<Event>)
    | Stops(outcome: Outcome)

  // Two readings of an expression: what the language says, and what the
  // lowerer's treatment of guards, bindings, arm bodies, closures and
  // unmatched values amounts to.
  datatype Reading = Language | Lowered

  type Env = map<string, Int64>

  function BindAll<T>(m: map<string, T>, names: seq<string>, vs: seq<T>): map<string, T>
    requires |names| == |vs|
    decreases names
  {
    if names == [] then m else BindAll(m[names[0] := vs[0]], names[1..], vs[1..])
  }

  function BindPattern(env: Env, pat: Pattern, v: Int64): Env {
    env + map x | x in Bound(pat) :: v
  }

  function CallOutcome(w: World, trace: seq<Event>, name: string, vs: seq<Int64>): Outcome {
    match w.call(trace, name, vs)
    case None => Trap(trace + [Event(name, vs)])
    case Some(v) => Value(v, trace + [Event(name, vs)])
  }

  function EvalBinary(p: Program, w: World, m: Reading, op: BinOp, t: TypeId, a: Int64, b: Int64, trace: seq<Event>): Outcome {
    match op
    case ArithBin(o) =>
      (match EvalArith(o, a, b) case None => Trap(trace) case Some(v) => Value(v, trace))
    case EqBin =>
      if IsScalar(p, t) then Value(if a == b then 1 else 0, trace)
      else CallOutcome(w, trace, EqName(p, t), [a, b])
    case NeBin =>
      if IsScalar(p, t) then Value(if a != b then 1 else 0, trace)
      else
        var o := CallOutcome(w, trace, EqName(p, t), [a, b]);
        if o.Value? then Value(if m == Lowered then Wrap(1 - o.v) else if o.v == 0 then 1 else 0, o.trace) else o
    case OtherBin => Stuck
  }

  predicate IsScalar(p: Program, t: TypeId) {
    t in p.types && (p.types[t].kind == Scalar || p.types[t].kind == Bool)
  }

  function EvalExprs(p: Program, w: World, m: Reading, es: seq<Expr>, env: Env, trace: seq<Event>): (r: Outcomes)
    ensures r.Values? ==> |r.vs| == |es|
    ensures r.Stops? ==> !r.outcome.Value?
    decreases es, 0
  {
    if es == [] then Values([], trace)
    else
      var o := Eval(p, w, m, es[0], env, trace);
      if !o.Value? then Stops(o)
      else
        var rest := EvalExprs(p, w, m, es[1..], env, o.trace);
        if rest.Values? then Values([o.v] + rest.vs, rest.trace) else rest
  }

  function Eval(p: Program, w: World, m: Reading, e: Expr, env: Env, trace: seq<Event>): Outcome
    decreases e, 1
  {
    match e
    case IntLit(n) => if n.Some? then Value(n.value, trace) else Stuck
    case BoolLit(b) => Value(if b then 1 else 0, trace)
    case Var(x) => if x in env then Value(env[x], trace) else Stuck
    case Variant(t, en, vn) =>
      var i := if m == Language then VariantByType(p.enums, t, vn) else VariantByName(p.enums, en, vn);
      if i.Some? then Value(AsInt64(i.value), trace) else Stuck
    case Binary(op, t, l, r) =>
      var a := Eval(p, w, m, l, env, trace);
      if !a.Value? then a
      else
        var b := Eval(p, w, m, r, env, a.trace);
        if !b.Value? then b else EvalBinary(p, w, m, op, t, a.v, b.v, b.trace)
    case CallFn(name, args) =>
      var vs := EvalExprs(p, w, m, args, env, trace);
      if vs.Stops? then vs.outcome else CallOutcome(w, vs.trace, CName(p.modPath, name), vs.vs)
    case CallClosure(params, args, body) =>
      var vs := EvalExprs(p, w, m, args, env, trace);
      if vs.Stops? then vs.outcome
      else if |params| != |args| || ClosureValue(body).None? then Stuck
      else
        var o := Eval(p, w, m, ClosureValue(body).value, BindAll(env, params, vs.vs), vs.trace);
        if m == Language && o.Early? then Value(o.v, o.trace) else o
    case Field(r, f) =>
      var a := Eval(p, w, m, r, env, trace);
      if !a.Value? then a else if f == "" then Stuck else Value(w.field(a.v, f), a.trace)
    case OptField(r, t, f) =>
      var a := Eval(p, w, m, r, env, trace);
      if !a.Value? then a
      else if ErrorIndex(p, t).None? || f == "" then Stuck
      else if a.v == AsInt64(ErrorIndex(p, t).value) then Early(a.v, a.trace)
      else Value(w.field(a.v, f), a.trace)
    case Try(r, t) =>
      var a := Eval(p, w, m, r, env, trace);
      if !a.Value? then a
      else if ErrorIndex(p, t).None? then Stuck
      else if a.v == AsInt64(ErrorIndex(p, t).value) then Early(a.v, a.trace)
      else a
    case Match(s, t, arms) =>
      var a := Eval(p, w, m, s, env, trace);
      if !a.Value? then a
      else if m == Language then EvalArms(p, w, t, arms, a.v, env, a.trace)
      else
        var k := Select(Discs(p, t, arms), a.v, 0);
        if k == |arms| then Value(0, a.trace)
        else if arms[k].body.OtherBody? then Stuck
        else Eval(p, w, m, arms[k].body.value, env, a.trace)
    case _ => Stuck
  }

  // A `return` of what has outcome o.
  function AsReturn(o: Outcome): Outcome {
    if o.Value? then Early(o.v, o.trace) else o
  }

  // The language's match: the first arm whose pattern matches and whose guard
  // holds, with the pattern's names bound to the scrutinee.
  function EvalArms(p: Program, w: World, t: TypeId, arms: seq<Arm>, v: Int64, env: Env, trace: seq<Event>): Outcome
    decreases arms, 0
  {
    if arms == [] then Stuck
    else if !PatMatches(p, t, arms[0].pattern, v) then EvalArms(p, w, t, arms[1..], v, env, trace)
    else
      var inner := BindPattern(env, arms[0].pattern, v);
      var arm := arms[0];
      assert arm.guard < arm && arm.body < arm;
      var g := if arms[0].guard.None? then Value(1, trace)
               else Eval(p, w, Language, arms[0].guard.value, inner, trace);
      if !g.Value? then g
      else if g.v == 0 then EvalArms(p, w, t, arms[1..], v, env, g.trace)
      else EvalBody(p, w, arms[0].body, inner, g.trace)
  }

  // The language's reading of an arm's block.
  function EvalBody(p: Program, w: World, b: Body, env: Env, trace: seq<Event>): Outcome
    decreases b, 0
  {
    match b
    case Trailing(NoStmts, e) => Eval(p, w, Language, e, env, trace)
    case Trailing(ReturnStmt(e), _) => AsReturn(Eval(p, w, Language, e, env, trace))
    case Trailing(OtherStmts, _) => Stuck
    case ReturnOnly(e) => AsReturn(Eval(p, w, Language, e, env, trace))
    case OtherBody => Stuck
  }
}
