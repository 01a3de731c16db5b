// What the operators of constant expressions compute, in numbers and truth
// values, and which declarations names and patterns reach.
module ConstantOperators {
  import opened Integers
  import opened Constants

  /******* The integer types *******/

  // The values of each type, in figures.
  lemma TypeTable(t: Ty, n: nat)
    ensures Canonical(t, n) <==> n < match t
      case I8 => 256
      case U8 => 256
      case I16 => 65536
      case U16 => 65536
      case I32 => 4294967296
      case U32 => 4294967296
      case _ => 18446744073709551616
    ensures Number(t, n) == match t
      case I8 => if n >= 128 then n - 256 else n
      case I16 => if n >= 32768 then n - 65536 else n
      case I32 => if n >= 2147483648 then n - 4294967296 else n
      case I64 => if n >= 9223372036854775808 then n - 18446744073709551616 else n
      case ISize => if n >= 9223372036854775808 then n - 18446744073709551616 else n
      case _ => n
  {
    hide Pow2;
    Widths();
  }

  // Wrapping keeps a number up to multiples of two to the width, in the range.
  lemma WrapIs(t: Ty, z: int)
    ensures Canonical(t, Wrap(t, z))
    ensures (z - Wrap(t, z)) % Pow2(Bits(t)) == 0
  {
    var m := Pow2(Bits(t));
    assert z == z / m * m + z % m;
    ModShift(0, z / m, m);
  }

  // Division rounds towards zero: what is left is smaller than the divisor and
  // has the dividend's sign.
  lemma QuoTruncates(a: int, b: int)
    requires b != 0
    ensures a == Quo(a, b) * b + Rem(a, b)
    ensures -(if b < 0 then -b else b) < Rem(a, b) < if b < 0 then -b else b
    ensures (a >= 0 ==> Rem(a, b) >= 0) && (a <= 0 ==> Rem(a, b) <= 0)
  {
    if a < 0 {
      assert -a == (-a) / b * b + (-a) % b;
      assert Quo(a, b) * b == -((-a) / b * b) by {
        var q := (-a) / b;
        assert (-q) * b == -(q * b);
      }
    } else {
      assert a == a / b * b + a % b;
    }
  }

  /******* Operators *******/

  // Comparisons of integers are those of the numbers they stand for.
  lemma IntegerComparisons(t: Ty, l: nat, r: nat, x: Expr, y: Expr)
    requires Canonical(t, l) && Canonical(t, r)
    ensures var vs, a, b := [IntV(t, l), IntV(t, r)], Number(t, l), Number(t, r);
      && Compute(Binary(Compare(Eq), x, y), vs) == Ok(BoolV(a == b))
      && Compute(Binary(Compare(Ne), x, y), vs) == Ok(BoolV(a != b))
      && Compute(Binary(Compare(Lt), x, y), vs) == Ok(BoolV(a < b))
      && Compute(Binary(Compare(Le), x, y), vs) == Ok(BoolV(a <= b))
      && Compute(Binary(Compare(Gt), x, y), vs) == Ok(BoolV(a > b))
      && Compute(Binary(Compare(Ge), x, y), vs) == Ok(BoolV(a >= b))
  {
    hide Pow2, SignedInt, Number, Canonical;
    if IsSigned(t) {
      SignedIntIsNumber(t, l);
      SignedIntIsNumber(t, r);
    } else {
      UnsignedNumber(t, l);
      UnsignedNumber(t, r);
    }
  }

  lemma UnsignedNumber(t: Ty, n: nat)
    requires !IsSigned(t)
    ensures Number(t, n) == n
  {
  }

  // False comes before true.
  lemma BooleanComparisons(a: bool, b: bool, x: Expr, y: Expr)
    ensures var vs := [BoolV(a), BoolV(b)];
      && Compute(Binary(Compare(Eq), x, y), vs) == Ok(BoolV(a == b))
      && Compute(Binary(Compare(Ne), x, y), vs) == Ok(BoolV(a != b))
      && Compute(Binary(Compare(Lt), x, y), vs) == Ok(BoolV(!a && b))
      && Compute(Binary(Compare(Le), x, y), vs) == Ok(BoolV(!a || b))
      && Compute(Binary(Compare(Gt), x, y), vs) == Ok(BoolV(a && !b))
      && Compute(Binary(Compare(Ge), x, y), vs) == Ok(BoolV(a || !b))
  {
  }

  lemma CharacterComparisons(a: nat, b: nat, x: Expr, y: Expr)
    ensures var vs := [CharV(a), CharV(b)];
      && Compute(Binary(Compare(Eq), x, y), vs) == Ok(BoolV(a == b))
      && Compute(Binary(Compare(Ne), x, y), vs) == Ok(BoolV(a != b))
      && Compute(Binary(Compare(Lt), x, y), vs) == Ok(BoolV(a < b))
      && Compute(Binary(Compare(Le), x, y), vs) == Ok(BoolV(a <= b))
      && Compute(Binary(Compare(Gt), x, y), vs) == Ok(BoolV(a > b))
      && Compute(Binary(Compare(Ge), x, y), vs) == Ok(BoolV(a >= b))
  {
  }

  // Values of different kinds are not compared, and of the others only
  // integers, booleans and characters are.
  lemma ComparableIff(cmp: Cmp, l: Value, r: Value, x: Expr, y: Expr)
    ensures Compute(Binary(Compare(cmp), x, y), [l, r]) != Stuck <==>
      (l.IntV? && r.IntV?) || (l.BoolV? && r.BoolV?) || (l.CharV? && r.CharV?)
  {
  }

  // The arithmetic operators and shifts, on numbers; only a zero divisor and
  // operands of different types are refused.
  lemma ArithmeticOperators(t: Ty, l: nat, r: nat, x: Expr, y: Expr)
    requires Canonical(t, l) && Canonical(t, r)
    ensures var vs, a, b := [IntV(t, l), IntV(t, r)], Number(t, l), Number(t, r);
      && Compute(Binary(Arith(Add), x, y), vs) == Ok(IntV(t, Wrap(t, a + b)))
      && Compute(Binary(Arith(Sub), x, y), vs) == Ok(IntV(t, Wrap(t, a - b)))
      && Compute(Binary(Arith(Mul), x, y), vs) == Ok(IntV(t, Wrap(t, a * b)))
      && (b == 0 ==> Compute(Binary(Arith(Div), x, y), vs) == Stuck && Compute(Binary(Arith(Mod), x, y), vs) == Stuck)
      && (b != 0 ==> Compute(Binary(Arith(Div), x, y), vs) == Ok(IntV(t, Wrap(t, Quo(a, b)))))
      && (b != 0 ==> Compute(Binary(Arith(Mod), x, y), vs) == Ok(IntV(t, Wrap(t, Rem(a, b)))))
      && Compute(Binary(Arith(Shl), x, y), vs) == Ok(IntV(t, Wrap(t, a * Pow2(r))))
      && Compute(Binary(Arith(Shr), x, y), vs) == Ok(IntV(t, Wrap(t, a / Pow2(r))))
  {
    hide Apply, Wrap, Number, Canonical, Pow2, Quo, Rem;
    OperatorsWrap(Add, t, l, r);
    OperatorsWrap(Sub, t, l, r);
    OperatorsWrap(Mul, t, l, r);
    OperatorsWrap(Div, t, l, r);
    OperatorsWrap(Mod, t, l, r);
    OperatorsWrap(Shl, t, l, r);
    OperatorsWrap(Shr, t, l, r);
  }

  lemma BitOperators(t: Ty, l: nat, r: nat, x: Expr, y: Expr)
    requires Canonical(t, l) && Canonical(t, r)
    ensures var vs := [IntV(t, l), IntV(t, r)];
      var a, o, e := Compute(Binary(Arith(BitAnd), x, y), vs), Compute(Binary(Arith(BitOr), x, y), vs), Compute(Binary(Arith(BitXor), x, y), vs);
      && a.Out? && a.fl == Normal && a.v.IntV? && a.v.ty == t
      && o.Out? && o.fl == Normal && o.v.IntV? && o.v.ty == t
      && e.Out? && e.fl == Normal && e.v.IntV? && e.v.ty == t
      && (forall i :: Bit(a.v.n, i) <==> Bit(l, i) && Bit(r, i))
      && (forall i :: Bit(o.v.n, i) <==> Bit(l, i) || Bit(r, i))
      && (forall i :: Bit(e.v.n, i) <==> Bit(l, i) != Bit(r, i))
  {
    hide Apply, Canonical, Bit, And, Or, Xor;
    BitwiseOperators(t, l, r);
  }

  lemma ArithmeticNeedsIntegers(op: IntOp, l: Value, r: Value, x: Expr, y: Expr)
    requires Compute(Binary(Arith(op), x, y), [l, r]) != Stuck
    ensures l.IntV? && r.IntV? && l.ty == r.ty
  {
  }

  // Negation and complement of integers, negation of truth values.
  lemma UnaryOperators(t: Ty, n: nat, b: bool, x: Expr)
    requires Canonical(t, n)
    ensures Compute(Unary(Neg, x), [IntV(t, n)]) == Ok(IntV(t, Wrap(t, -Number(t, n))))
    ensures Compute(Unary(Not, x), [IntV(t, n)]) == Ok(IntV(t, Wrap(t, -1 - Number(t, n))))
    ensures Compute(Unary(Not, x), [BoolV(b)]) == Ok(BoolV(!b)) && Compute(Unary(Neg, x), [BoolV(b)]) == Stuck
  {
    hide Negate, Complement, Wrap, Number, Canonical;
    UnaryWraps(t, n);
  }

  // Casts to integers and characters keep the number up to wrapping; true is one.
  lemma Casts(s: Ty, t: Ty, n: nat, cp: nat, b: bool, x: Expr)
    requires Canonical(s, n) && Canonical(CharTy, cp) && (IsInteger(t) || t.CharTy?)
    ensures Compute(Cast(x, t), [IntV(s, n)]) == Ok(IntV(t, Wrap(t, Number(s, n))))
    ensures Compute(Cast(x, t), [CharV(cp)]) == Ok(IntV(t, Wrap(t, cp)))
    ensures Compute(Cast(x, t), [BoolV(b)]) == Ok(IntV(t, if b then 1 else 0))
  {
    hide Convert, Wrap, Number, Canonical;
    CastIsModular(s, t, n);
    CastIsModular(CharTy, t, cp);
    UnsignedNumber(CharTy, cp);
  }

  lemma TuplesAndFields(args: seq<Expr>, t: Ty, vs: seq<Value>, x: Expr, i: int)
    requires |args| == |vs|
    ensures Compute(Tuple(args, t), vs) == Ok(TupleV(t, vs))
    ensures 0 <= i < |vs| ==> Compute(Field(x, Some(i)), [TupleV(t, vs)]) == Ok(vs[i])
    ensures !(0 <= i < |vs|) ==> Compute(Field(x, Some(i)), [TupleV(t, vs)]) == Stuck
  {
  }

  // `&&` and `||` on what the operands evaluate to: the right one is looked at
  // only where the left one does not decide.
  lemma LogicalOperators(p: Program, x: Expr, y: Expr, env: Env, n: nat, m: nat, a: bool)
    requires n > 0 && RefExpr(p, x, env, n, m) == Ok(BoolV(a))
    ensures !a ==> RefExpr(p, Binary(LogAnd, x, y), env, n, m) == Ok(BoolV(false))
    ensures a ==> RefExpr(p, Binary(LogOr, x, y), env, n, m) == Ok(BoolV(true))
    ensures forall b :: RefExpr(p, y, env, n, m) == Ok(BoolV(b)) ==>
      && RefExpr(p, Binary(LogAnd, x, y), env, n, m) == Ok(BoolV(a && b))
      && RefExpr(p, Binary(LogOr, x, y), env, n, m) == Ok(BoolV(a || b))
  {
    var e, f := Binary(LogAnd, x, y), Binary(LogOr, x, y);
    assert RefExpr(p, e, env, n, m) == RefLogical(p, e, env, n, m);
    assert RefExpr(p, f, env, n, m) == RefLogical(p, f, env, n, m);
  }

  /******* Range patterns *******/

  // The range the pattern is meant to hold, on numbers.
  predicate InRange(inclusive: bool, a: int, x: int, b: int) {
    a <= x && if inclusive then x <= b else x < b
  }

  // Bounds are compared as words.
  lemma RangePatternCompares(p: Program, lo: Expr, hi: Expr, inclusive: bool, t: Ty, a: nat, b: nat, x: nat, env: Env, n: nat, m: nat)
    requires RefExpr(p, lo, env, n, m) == Ok(IntV(t, a)) && RefExpr(p, hi, env, n, m) == Ok(IntV(t, b))
    ensures RefMatch(p, RangePat(lo, hi, inclusive), IntV(t, x), env, n, m) == Trial(InRange(inclusive, a, x, b), true, env)
  {
    hide RefExpr;
  }

  // So a range pattern holds the right numbers exactly when the type is
  // unsigned or both bounds have the same sign: `-1..=1` matches nothing.
  lemma RangePatternIff(inclusive: bool, t: Ty, a: nat, b: nat)
    requires Canonical(t, a) && Canonical(t, b)
    ensures
      (forall x: nat :: Canonical(t, x) ==>
        (InRange(inclusive, a, x, b) <==> InRange(inclusive, Number(t, a), Number(t, x), Number(t, b))))
      <==> !IsSigned(t) || (Number(t, a) < 0 <==> Number(t, b) < 0)
  {
    if IsSigned(t) {
      if Number(t, a) < 0 <= Number(t, b) || Number(t, b) < 0 <= Number(t, a) {
        assert InRange(inclusive, a, a, b) != InRange(inclusive, Number(t, a), Number(t, a), Number(t, b));
      }
    }
  }

  /******* Variants *******/

  predicate StandsAt(variants: seq<string>, name: string, k: int) {
    0 <= k < |variants| && variants[k] == name && forall j :: 0 <= j < k ==> variants[j] != name
  }

  lemma {:induction false} VariantIndexIs(variants: seq<string>, name: string)
    ensures match VariantIndex(variants, name)
      case Some(k) => StandsAt(variants, name, k)
      case None => name !in variants
  {
    if variants != [] && variants[0] != name {
      VariantIndexIs(variants[1..], name);
    }
  }

  // The number of `E.V` is where V stands in the first enum named E that has it.
  lemma {:induction false} FoundVariantIs(enums: seq<Enum>, name: string, variant: string) returns (i: nat)
    requires FindVariant(enums, name, variant).Some?
    ensures i < |enums| && enums[i].name == name && StandsAt(enums[i].variants, variant, FindVariant(enums, name, variant).value)
    ensures forall j :: 0 <= j < i ==> !(enums[j].name == name && variant in enums[j].variants)
  {
    VariantIndexIs(enums[0].variants, variant);
    if enums[0].name == name && variant in enums[0].variants {
      i := 0;
    } else {
      var k := FoundVariantIs(enums[1..], name, variant);
      i := k + 1;
    }
  }

  lemma {:induction false} NoVariantIff(enums: seq<Enum>, name: string, variant: string)
    ensures FindVariant(enums, name, variant).None? <==>
      forall i :: 0 <= i < |enums| ==> !(enums[i].name == name && variant in enums[i].variants)
  {
    if enums != [] {
      VariantIndexIs(enums[0].variants, variant);
      NoVariantIff(enums[1..], name, variant);
      assert forall i :: 1 <= i < |enums| ==> enums[i] == enums[1..][i - 1];
    }
  }

  /******* Bindings *******/

  // Each parameter is bound to the argument of the last parameter of its name,
  // and nothing else is bound.
  lemma {:induction false} ParamsBound(params: seq<string>, vs: seq<Value>, i: nat)
    requires |params| == |vs| && i < |params| && forall j :: i < j < |params| ==> params[j] != params[i]
    ensures params[i] in BindParams(params, vs) && BindParams(params, vs)[params[i]] == vs[i]
  {
    if i < |params| - 1 {
      ParamsBound(params[..|params| - 1], vs[..|vs| - 1], i);
    }
  }

  lemma {:induction false} OnlyParamsBound(params: seq<string>, vs: seq<Value>)
    requires |params| == |vs|
    ensures forall x :: x in BindParams(params, vs) <==> x in params
  {
    if params != [] {
      OnlyParamsBound(params[..|params| - 1], vs[..|vs| - 1]);
      assert params == params[..|params| - 1] + [params[|params| - 1]];
    }
  }

  // A name binds the value; a tuple binds part by part, left to right.
  lemma PatternsBind(x: string, subs: seq<Pattern>, v: Value, vs: seq<Value>, t: Ty, env: Env)
    ensures BindPattern(Bind(x), v, env) == Some(env[x := v]) && BindPattern(Wild, v, env) == Some(env)
    ensures |subs| != |vs| ==> BindPattern(TuplePat(subs), TupleV(t, vs), env) == None
    ensures |subs| == |vs| && subs != [] ==>
      var first := BindPattern(subs[0], vs[0], env);
      BindPattern(TuplePat(subs), TupleV(t, vs), env) ==
        if first == None then None else BindPattern(TuplePat(subs[1..]), TupleV(t, vs[1..]), first.value)
    ensures |subs| == |vs| && subs == [] ==> BindPattern(TuplePat(subs), TupleV(t, vs), env) == Some(env)
  {
    if |subs| == |vs| && subs != [] {
      var first := BindPattern(subs[0], vs[0], env);
      if first.Some? {
        SubsFromNext(subs, vs, t, 1, first.value);
      }
    }
  }

  lemma {:induction false} SubsFromNext(subs: seq<Pattern>, vs: seq<Value>, t: Ty, i: nat, env: Env)
    requires |subs| == |vs| && 1 <= i <= |subs|
    ensures BindSubs(TuplePat(subs), TupleV(t, vs), i, env) == BindSubs(TuplePat(subs[1..]), TupleV(t, vs[1..]), i - 1, env)
    decreases |subs| - i
  {
    hide BindPattern;
    if i < |subs| {
      assert subs[1..][i - 1] == subs[i] && vs[1..][i - 1] == vs[i];
      var r := BindPattern(subs[i], vs[i], env);
      if r.Some? {
        SubsFromNext(subs, vs, t, i + 1, r.value);
      }
    }
  }
}
