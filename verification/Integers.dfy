// Fixed-width integers of the constant evaluator: 64-bit words holding values
// of 8 to 64 bits, masked after every step, and what each operator computes.
module Integers {
  datatype Option<+T> = None | Some(value: T)

  // Primitive types have one identity each; every other type is opaque here.
  datatype Ty = I8 | I16 | I32 | I64 | ISize | U8 | U16 | U32 | U64 | USize | BoolTy | CharTy | UnitTy | OtherTy(id: nat)

  predicate IsInteger(t: Ty) {
    !t.BoolTy? && !t.CharTy? && !t.UnitTy? && !t.OtherTy?
  }

  predicate IsSigned(t: Ty) {
    t.I8? || t.I16? || t.I32? || t.I64? || t.ISize?
  }

  function Bits(t: Ty): (b: nat)
    ensures b == 8 || b == 16 || b == 32 || b == 64
  {
    match t
    case I8 | U8 => 8
    case I16 | U16 => 16
    case I32 | U32 => 32
    case _ => 64
  }

  /******* Words *******/

  const TWO64: nat := 0x1_0000_0000_0000_0000

  function Pow2(k: nat): (p: nat)
    ensures p > 0
  {
    if k == 0 then 1 else 2 * Pow2(k - 1)
  }

  // The low 64 bits of an integer: Go's conversion to uint64.
  function Word(z: int): (w: nat)
    ensures w < TWO64
  {
    z % TWO64
  }

  // Go's conversion of a word to int64.
  function Int64(w: nat): int {
    if w < TWO64 / 2 then w else w - TWO64
  }

  function And(x: nat, y: nat): nat {
    if x == 0 || y == 0 then 0 else (x % 2) * (y % 2) + 2 * And(x / 2, y / 2)
  }

  function Or(x: nat, y: nat): nat {
    if x == 0 then y else if y == 0 then x
    else (if x % 2 == 0 then y % 2 else 1) + 2 * Or(x / 2, y / 2)
  }

  function Xor(x: nat, y: nat): nat {
    if x == 0 then y else if y == 0 then x
    else (if x % 2 == y % 2 then 0 else 1) + 2 * Xor(x / 2, y / 2)
  }

  predicate Bit(x: nat, i: nat) {
    if i == 0 then x % 2 == 1 else Bit(x / 2, i - 1)
  }

  function Mask(v: nat, bits: nat): nat {
    if bits >= 64 then v else And(v, Pow2(bits) - 1)
  }

  // Quotient and remainder rounded towards zero.
  function Quo(a: int, b: int): int
    requires b != 0
  {
    if a >= 0 then a / b else -((-a) / b)
  }

  function Rem(a: int, b: int): int
    requires b != 0
  {
    a - Quo(a, b) * b
  }

  function UnsignedDiv(a: nat, b: nat): nat
    requires b > 0
  {
    a / b
  }

  function UnsignedMod(a: nat, b: nat): nat
    requires b > 0
  {
    a % b
  }

  // The word read as a two's-complement number of the type's width.
  function SignedInt(t: Ty, n: nat): int {
    var bits := Bits(t);
    if bits >= 64 then Int64(n)
    else
      var x := And(n, Pow2(bits) - 1);
      if And(x, Pow2(bits - 1)) != 0 then x - Pow2(bits) else x
  }

  /******* Operators on words *******/

  datatype IntOp = Add | Sub | Mul | Div | Mod | BitAnd | BitOr | BitXor | Shl | Shr

  // None: division or remainder by zero.
  function Apply(op: IntOp, t: Ty, l: nat, r: nat): Option<nat> {
    var bits := Bits(t);
    match op
    case Add => Some(Mask(Word(l + r), bits))
    case Sub => Some(Mask(Word(l - r), bits))
    case Mul => Some(Mask(Word(l * r), bits))
    case Div =>
      if r == 0 then None
      else if IsSigned(t) then
        var d := SignedInt(t, r);
        if d == 0 then None else Some(Mask(Word(Quo(SignedInt(t, l), d)), bits))
      else Some(Mask(UnsignedDiv(l, r), bits))
    case Mod =>
      if r == 0 then None
      else if IsSigned(t) then
        var d := SignedInt(t, r);
        if d == 0 then None else Some(Mask(Word(Rem(SignedInt(t, l), d)), bits))
      else Some(Mask(UnsignedMod(l, r), bits))
    case BitAnd => Some(Mask(And(l, r), bits))
    case BitOr => Some(Mask(Or(l, r), bits))
    case BitXor => Some(Mask(Xor(l, r), bits))
    case Shl =>
      if r >= bits then Some(0) else Some(Mask(Word(l * Pow2(r)), bits))
    case Shr =>
      if r >= bits then
        if IsSigned(t) && SignedInt(t, l) < 0 then Some(Mask(TWO64 - 1, bits)) else Some(0)
      else if IsSigned(t) then Some(Mask(Word(SignedInt(t, l) / Pow2(r)), bits))
      else Some(Mask(UnsignedDiv(l, Pow2(r)), bits))
  }

  function Negate(t: Ty, n: nat): nat {
    Mask(Word(0 - n), Bits(t))
  }

  function Complement(t: Ty, n: nat): nat
    requires n < TWO64
  {
    Mask(TWO64 - 1 - n, Bits(t))
  }

  // All ones shifted left by b.
  function HighOnes(b: nat): nat {
    Word((TWO64 - 1) * Pow2(b))
  }

  // A cast from type s to type t.
  function Convert(s: Ty, t: Ty, n: nat): nat {
    var v :=
      if IsSigned(s) && Bits(s) < Bits(t) && And(n, Pow2(Bits(s) - 1)) != 0
      then Or(n, HighOnes(Bits(s)))
      else n;
    Mask(v, Bits(t))
  }

  /******* What they mean *******/

  // Values are kept below 2^width.
  predicate Canonical(t: Ty, n: int) {
    0 <= n < Pow2(Bits(t))
  }

  // The number a canonical word stands for.
  function Number(t: Ty, n: nat): int {
    if IsSigned(t) && n >= Pow2(Bits(t)) / 2 then n - Pow2(Bits(t)) else n
  }

  // The canonical word of a number, wrapped to the type.
  function Wrap(t: Ty, z: int): (n: nat)
    ensures Canonical(t, n)
  {
    z % Pow2(Bits(t))
  }

  // The exact operator on numbers.
  function Exact(op: IntOp, a: int, b: int, count: nat): int
    requires (op.Div? || op.Mod?) ==> b != 0
  {
    match op
    case Add => a + b
    case Sub => a - b
    case Mul => a * b
    case Div => Quo(a, b)
    case Mod => Rem(a, b)
    case Shl => a * Pow2(count)
    case _ => a / Pow2(count)
  }

  /******* Arithmetic facts *******/

  lemma Widths()
    ensures Pow2(8) == 256 && Pow2(16) == 65536 && Pow2(32) == 0x1_0000_0000 && Pow2(64) == TWO64
    ensures Pow2(7) == 128 && Pow2(15) == 32768 && Pow2(31) == 0x8000_0000 && Pow2(63) == TWO64 / 2
  {
    assert Pow2(4) == 16 && Pow2(7) == 128 && Pow2(8) == 256;
    Pow2Sum(8, 7);
    Pow2Sum(8, 8);
    Pow2Sum(16, 15);
    Pow2Sum(16, 16);
    Pow2Sum(32, 31);
    Pow2Sum(32, 32);
  }

  lemma {:induction false} Pow2Sum(a: nat, b: nat)
    ensures Pow2(a + b) == Pow2(a) * Pow2(b)
  {
    if a > 0 {
      Pow2Sum(a - 1, b);
    }
  }

  // A multiple of m strictly between -m and m is zero.
  lemma TimesBound(d: int, m: int)
    requires m > 0
    ensures (d >= 1 ==> d * m >= m) && (d <= -1 ==> d * m <= -m)
  {
  }

  lemma {:induction false} DivModUnique(x: int, q: int, r: int, m: int)
    requires m > 0 && x == q * m + r && 0 <= r < m
    ensures x / m == q && x % m == r
  {
    var d := x / m - q;
    assert d * m == r - x % m;
    TimesBound(d, m);
  }

  // Whole multiples of the modulus do not matter.
  lemma ModShift(x: int, k: int, m: int)
    requires m > 0
    ensures (x + k * m) % m == x % m
  {
    assert x + k * m == (x / m + k) * m + x % m by {
      assert (x / m + k) * m == x / m * m + k * m;
    }
    DivModUnique(x + k * m, x / m + k, x % m, m);
  }

  lemma WordMod(z: int, t: Ty)
    ensures Word(z) % Pow2(Bits(t)) == z % Pow2(Bits(t))
  {
    hide Pow2;
    Widths();
    var m := Pow2(Bits(t));
    Pow2Sum(64 - Bits(t), Bits(t));
    var q := Pow2(64 - Bits(t));
    var a := z / TWO64;
    assert z == Word(z) + a * (q * m);
    assert a * (q * m) == (a * q) * m;
    ModShift(Word(z), a * q, m);
  }

  lemma DoubleMod(v: nat, p: nat)
    requires p > 0
    ensures v % (2 * p) == v % 2 + 2 * (v / 2 % p)
  {
    var q := v / 2 / p;
    assert v / 2 == q * p + v / 2 % p;
    assert q * (2 * p) == 2 * (q * p);
    DivModUnique(v, q, v % 2 + 2 * (v / 2 % p), 2 * p);
  }

  lemma {:induction false} AndOnes(v: nat, k: nat)
    ensures And(v, Pow2(k) - 1) == v % Pow2(k)
  {
    hide *;
    if k == 0 {
      AndZero(v);
      assert v % 1 == 0;
    } else {
      var p := Pow2(k - 1);
      Pow2Step(k);
      AndOnes(v / 2, k - 1);
      AndStep(v, 2 * p - 1);
      DoubleMod(v, p);
      assert (2 * p - 1) % 2 == 1 && (2 * p - 1) / 2 == p - 1;
    }
  }

  lemma Pow2Step(k: nat)
    ensures k > 0 ==> Pow2(k) == 2 * Pow2(k - 1)
    ensures Pow2(0) == 1
  {
  }

  lemma AndZero(v: nat)
    ensures And(v, 0) == 0 && And(v, Pow2(0) - 1) == 0 && Pow2(0) == 1
  {
  }

  lemma AndStep(x: nat, y: nat)
    ensures And(x, y) == (x % 2) * (y % 2) + 2 * And(x / 2, y / 2)
  {
  }

  lemma MaskIsMod(v: nat, t: Ty)
    requires v < TWO64
    ensures Mask(v, Bits(t)) == v % Pow2(Bits(t))
  {
    Widths();
    AndOnes(v, Bits(t));
  }

  // A word masked is the number wrapped.
  lemma MaskWraps(z: int, t: Ty)
    ensures Mask(Word(z), Bits(t)) == Wrap(t, z)
  {
    MaskIsMod(Word(z), t);
    WordMod(z, t);
  }

  // A word below 2^(k+1) has bit k set exactly when it is at least 2^k.
  lemma {:induction false} AndTop(x: nat, k: nat)
    requires x < 2 * Pow2(k)
    ensures And(x, Pow2(k)) != 0 <==> x >= Pow2(k)
  {
    if k > 0 {
      AndTop(x / 2, k - 1);
    } else {
      assert And(1, 1) == 1;
    }
  }

  lemma SignedIntIsNumber(t: Ty, n: nat)
    requires IsSigned(t) && Canonical(t, n)
    ensures SignedInt(t, n) == Number(t, n)
  {
    hide And, Pow2;
    Widths();
    var bits := Bits(t);
    if bits < 64 {
      AndOnes(n, bits);
      AndTop(n, bits - 1);
    }
  }

  // Number and Wrap are inverse on canonical words.
  lemma NumberWrap(t: Ty, n: nat)
    requires Canonical(t, n)
    ensures Wrap(t, Number(t, n)) == n
  {
    hide Pow2, Wrap;
    WrapSmall(t, n);
    WrapCongruent(t, n, -1);
  }

  /******* Every operator is the exact one, wrapped *******/

  lemma WrapCongruent(t: Ty, a: int, k: int)
    ensures Wrap(t, a + k * Pow2(Bits(t))) == Wrap(t, a)
  {
    ModShift(a, k, Pow2(Bits(t)));
  }

  // The number differs from the word by a multiple of 2^width.
  lemma NumberCongruent(t: Ty, n: nat) returns (k: int)
    ensures Number(t, n) == n + k * Pow2(Bits(t)) && (k == 0 || k == -1)
    ensures k == 0 <==> Number(t, n) == n
  {
    k := if Number(t, n) == n then 0 else -1;
  }

  lemma AddWraps(t: Ty, l: nat, r: nat)
    ensures Wrap(t, l + r) == Wrap(t, Number(t, l) + Number(t, r))
    ensures Wrap(t, l - r) == Wrap(t, Number(t, l) - Number(t, r))
  {
    var m := Pow2(Bits(t));
    var a := NumberCongruent(t, l);
    var b := NumberCongruent(t, r);
    assert l + r + (a + b) * m == Number(t, l) + Number(t, r) by {
      assert (a + b) * m == a * m + b * m;
    }
    assert l - r + (a - b) * m == Number(t, l) - Number(t, r) by {
      assert (a - b) * m == a * m - b * m;
    }
    WrapCongruent(t, l + r, a + b);
    WrapCongruent(t, l - r, a - b);
  }

  lemma MulWraps(t: Ty, l: nat, r: nat)
    ensures Wrap(t, l * r) == Wrap(t, Number(t, l) * Number(t, r))
  {
    hide *;
    var m := Pow2(Bits(t));
    var a := NumberCongruent(t, l);
    var b := NumberCongruent(t, r);
    if a == 0 && b == 0 {
    } else if b == 0 {
      assert (l - m) * r == l * r + (0 - r) * m;
      WrapCongruent(t, l * r, 0 - r);
    } else if a == 0 {
      assert l * (r - m) == l * r + (0 - l) * m;
      WrapCongruent(t, l * r, 0 - l);
    } else {
      assert (l - m) * (r - m) == l * r + (m - l - r) * m;
      WrapCongruent(t, l * r, m - l - r);
    }
  }

  lemma ShiftWraps(t: Ty, l: nat, p: nat)
    ensures Wrap(t, l * p) == Wrap(t, Number(t, l) * p)
  {
    hide *;
    var m := Pow2(Bits(t));
    var a := NumberCongruent(t, l);
    if a != 0 {
      assert (l - m) * p == l * p + (0 - p) * m;
      WrapCongruent(t, l * p, 0 - p);
    }
  }

  lemma NumberRange(t: Ty, n: nat)
    requires Canonical(t, n)
    ensures var half := Pow2(Bits(t)) / 2;
      if IsSigned(t) then -half <= Number(t, n) < half else Number(t, n) == n
    ensures Number(t, n) == 0 <==> n == 0
  {
    Widths();
  }

  // Shifting left by the width or more clears every bit.
  lemma ShiftOut(t: Ty, z: int, k: nat)
    requires k >= Bits(t)
    ensures Wrap(t, z * Pow2(k)) == 0
  {
    hide *;
    var m := Pow2(Bits(t));
    Pow2Sum(k - Bits(t), Bits(t));
    var q := z * Pow2(k - Bits(t));
    assert z * (Pow2(k - Bits(t)) * m) == 0 + q * m;
    WrapCongruent(t, 0, q);
    WrapSmall(t, 0);
  }

  lemma WrapSmall(t: Ty, n: nat)
    requires n < Pow2(Bits(t))
    ensures Wrap(t, n) == n
  {
    hide Pow2;
    DivModUnique(n, 0, n, Pow2(Bits(t)));
  }

  // Shifting right by the width or more leaves the sign.
  lemma ShiftAway(t: Ty, n: nat, k: nat)
    requires k >= Bits(t) && Canonical(t, n)
    ensures Number(t, n) / Pow2(k) == if Number(t, n) < 0 then -1 else 0
  {
    hide Pow2, Number;
    NumberRange(t, n);
    var m := Pow2(Bits(t));
    Pow2Sum(k - Bits(t), Bits(t));
    assert Pow2(k) >= m;
    var z := Number(t, n);
    if z < 0 {
      DivModUnique(z, -1, z + Pow2(k), Pow2(k));
    } else {
      DivModUnique(z, 0, z, Pow2(k));
    }
  }

  predicate Arithmetic(op: IntOp) {
    !op.BitAnd? && !op.BitOr? && !op.BitXor?
  }

  // Each arithmetic operator and shift computes the exact result wrapped to
  // the type, for every pair of operands and every shift count; only a zero
  // divisor has no result.
  lemma OperatorsWrap(op: IntOp, t: Ty, l: nat, r: nat)
    requires Arithmetic(op) && Canonical(t, l) && Canonical(t, r)
    ensures Number(t, r) == 0 <==> r == 0
    ensures Apply(op, t, l, r) ==
      if (op.Div? || op.Mod?) && r == 0 then None else Some(Wrap(t, Exact(op, Number(t, l), Number(t, r), r)))
  {
    hide Mask, Word, SignedInt, Wrap, Number, Canonical, Quo, Rem, Pow2;
    NumberRange(t, r);
    match op
    case Add =>
      MaskWraps(l + r, t);
      AddWraps(t, l, r);
    case Sub =>
      MaskWraps(l - r, t);
      AddWraps(t, l, r);
    case Mul =>
      MaskWraps(l * r, t);
      MulWraps(t, l, r);
    case Div =>
      if r != 0 {
        DivWraps(t, l, r);
      }
    case Mod =>
      if r != 0 {
        ModWraps(t, l, r);
      }
    case Shl => ShlWraps(t, l, r);
    case Shr => ShrWraps(t, l, r);
  }

  lemma DivWraps(t: Ty, l: nat, r: nat)
    requires Canonical(t, l) && Canonical(t, r) && r != 0
    ensures Number(t, r) != 0 && Apply(Div, t, l, r) == Some(Wrap(t, Quo(Number(t, l), Number(t, r))))
  {
    hide Mask, Word, SignedInt, Wrap, Number, Canonical, Quo;
    NumberRange(t, l);
    NumberRange(t, r);
    if IsSigned(t) {
      SignedIntIsNumber(t, l);
      SignedIntIsNumber(t, r);
      MaskWraps(Quo(Number(t, l), Number(t, r)), t);
    } else {
      QuoIsDiv(l, r);
      SmallWord(t, l);
      DivBounds(l, r);
      MaskWraps(l / r, t);
    }
  }

  lemma QuoIsDiv(l: nat, r: nat)
    requires r != 0
    ensures Quo(l, r) == l / r && Rem(l, r) == l % r
  {
    assert l == (l / r) * r + l % r;
  }

  lemma DivBounds(l: nat, r: nat)
    requires r != 0 && l < TWO64
    ensures 0 <= l / r <= l && 0 <= l % r <= l && Word(l / r) == l / r && Word(l % r) == l % r
  {
    var q := l / r;
    assert l == q * r + l % r;
    if q > 0 {
      assert q * r >= q by { assert q * (r - 1) >= 0; }
    }
  }

  lemma SmallWord(t: Ty, n: nat)
    requires Canonical(t, n)
    ensures n < TWO64 && Word(n) == n
  {
    Widths();
  }

  lemma ModWraps(t: Ty, l: nat, r: nat)
    requires Canonical(t, l) && Canonical(t, r) && r != 0
    ensures Number(t, r) != 0 && Apply(Mod, t, l, r) == Some(Wrap(t, Rem(Number(t, l), Number(t, r))))
  {
    hide Mask, Word, SignedInt, Wrap, Number, Canonical, Rem;
    NumberRange(t, l);
    NumberRange(t, r);
    if IsSigned(t) {
      SignedIntIsNumber(t, l);
      SignedIntIsNumber(t, r);
      MaskWraps(Rem(Number(t, l), Number(t, r)), t);
    } else {
      QuoIsDiv(l, r);
      SmallWord(t, l);
      DivBounds(l, r);
      MaskWraps(l % r, t);
    }
  }

  lemma ShlWraps(t: Ty, l: nat, r: nat)
    requires Canonical(t, l) && Canonical(t, r)
    ensures Apply(Shl, t, l, r) == Some(Wrap(t, Number(t, l) * Pow2(r)))
  {
    hide Mask, Word, Wrap, Number, Canonical, Pow2;
    if r >= Bits(t) {
      ShiftOut(t, Number(t, l), r);
    } else {
      MaskWraps(l * Pow2(r), t);
      ShiftWraps(t, l, Pow2(r));
    }
  }

  lemma ShrWraps(t: Ty, l: nat, r: nat)
    requires Canonical(t, l) && Canonical(t, r)
    ensures Apply(Shr, t, l, r) == Some(Wrap(t, Number(t, l) / Pow2(r)))
  {
    hide Mask, Word, SignedInt, Wrap, Number, Canonical, Pow2;
    NumberRange(t, l);
    if IsSigned(t) {
      SignedIntIsNumber(t, l);
    }
    if r >= Bits(t) {
      ShiftAway(t, l, r);
      WordMinusOne();
      MaskWraps(-1, t);
      WrapSmall(t, 0);
    } else if IsSigned(t) {
      MaskWraps(Number(t, l) / Pow2(r), t);
    } else {
      SmallWord(t, l);
      DivBounds(l, Pow2(r));
      MaskWraps(l / Pow2(r), t);
    }
  }

  lemma WordMinusOne()
    ensures Word(-1) == TWO64 - 1
  {
  }

  // Negation and complement.
  lemma UnaryWraps(t: Ty, n: nat)
    requires Canonical(t, n)
    ensures n < TWO64 && Negate(t, n) == Wrap(t, -Number(t, n))
    ensures Complement(t, n) == Wrap(t, -1 - Number(t, n)) && Complement(t, n) == Pow2(Bits(t)) - 1 - n
  {
    hide Mask, Word, Pow2, Wrap, Number;
    SmallWord(t, n);
    MaskWraps(0 - n, t);
    AddWraps(t, 0, n);
    assert Number(t, 0) == 0 by { NumberRange(t, 0); }
    ComplementWord(n);
    MaskWraps(-1 - n, t);
    var k := NumberCongruent(t, n);
    WrapCongruent(t, -1 - n, 0 - k);
    assert -1 - n + (0 - k) * Pow2(Bits(t)) == -1 - Number(t, n);
    WrapCongruent(t, -1 - n, 1);
    WrapSmall(t, Pow2(Bits(t)) - 1 - n);
  }

  lemma ComplementWord(n: nat)
    requires n < TWO64
    ensures Word(-1 - n) == TWO64 - 1 - n
  {
  }

  /******* Bitwise operators *******/

  lemma {:induction false} BitwiseBits(x: nat, y: nat, i: nat)
    ensures Bit(And(x, y), i) <==> Bit(x, i) && Bit(y, i)
    ensures Bit(Or(x, y), i) <==> Bit(x, i) || Bit(y, i)
    ensures Bit(Xor(x, y), i) <==> Bit(x, i) != Bit(y, i)
    decreases i
  {
    hide And, Or, Xor;
    Halves(x, y);
    if i > 0 {
      BitwiseBits(x / 2, y / 2, i - 1);
    }
  }

  lemma {:induction false} Halves(x: nat, y: nat)
    ensures And(x, y) / 2 == And(x / 2, y / 2) && Or(x, y) / 2 == Or(x / 2, y / 2) && Xor(x, y) / 2 == Xor(x / 2, y / 2)
    ensures And(x, y) % 2 == (if x % 2 == 1 && y % 2 == 1 then 1 else 0)
    ensures Or(x, y) % 2 == (if x % 2 == 1 || y % 2 == 1 then 1 else 0)
    ensures Xor(x, y) % 2 == (if x % 2 == y % 2 then 0 else 1)
  {
    hide And, Or, Xor;
    AndHalf(x, y);
    OrHalf(x, y);
    XorHalf(x, y);
  }

  lemma {:induction false} AndHalf(x: nat, y: nat)
    ensures And(x, y) == (if x % 2 == 1 && y % 2 == 1 then 1 else 0) + 2 * And(x / 2, y / 2)
  {
    assert (x % 2) * (y % 2) == if x % 2 == 1 && y % 2 == 1 then 1 else 0;
  }

  lemma {:induction false} OrHalf(x: nat, y: nat)
    ensures Or(x, y) == (if x % 2 == 1 || y % 2 == 1 then 1 else 0) + 2 * Or(x / 2, y / 2)
  {
  }

  lemma {:induction false} XorHalf(x: nat, y: nat)
    ensures Xor(x, y) == (if x % 2 == y % 2 then 0 else 1) + 2 * Xor(x / 2, y / 2)
  {
  }

  lemma {:induction false} BitwiseBound(x: nat, y: nat, k: nat)
    requires x < Pow2(k) && y < Pow2(k)
    ensures And(x, y) < Pow2(k) && Or(x, y) < Pow2(k) && Xor(x, y) < Pow2(k)
    decreases k
  {
    if k > 0 {
      BitwiseBound(x / 2, y / 2, k - 1);
      Halves(x, y);
    }
  }

  // The bitwise operators work bit by bit and lose nothing to the mask.
  lemma BitwiseOperators(t: Ty, l: nat, r: nat)
    requires Canonical(t, l) && Canonical(t, r)
    ensures Apply(BitAnd, t, l, r) == Some(And(l, r)) && Canonical(t, And(l, r))
    ensures Apply(BitOr, t, l, r) == Some(Or(l, r)) && Canonical(t, Or(l, r))
    ensures Apply(BitXor, t, l, r) == Some(Xor(l, r)) && Canonical(t, Xor(l, r))
    ensures forall i :: Bit(And(l, r), i) <==> Bit(l, i) && Bit(r, i)
    ensures forall i :: Bit(Or(l, r), i) <==> Bit(l, i) || Bit(r, i)
    ensures forall i :: Bit(Xor(l, r), i) <==> Bit(l, i) != Bit(r, i)
  {
    hide And, Or, Xor, Mask, Pow2, Bit;
    BitwiseBound(l, r, Bits(t));
    forall i ensures Bit(And(l, r), i) <==> Bit(l, i) && Bit(r, i)
    {
      BitwiseBits(l, r, i);
    }
    forall i ensures Bit(Or(l, r), i) <==> Bit(l, i) || Bit(r, i)
    {
      BitwiseBits(l, r, i);
    }
    forall i ensures Bit(Xor(l, r), i) <==> Bit(l, i) != Bit(r, i)
    {
      BitwiseBits(l, r, i);
    }
    MaskCanonical(t, And(l, r));
    MaskCanonical(t, Or(l, r));
    MaskCanonical(t, Xor(l, r));
  }

  lemma MaskCanonical(t: Ty, n: nat)
    requires Canonical(t, n)
    ensures Mask(n, Bits(t)) == n
  {
    hide Pow2, Mask, Wrap;
    SmallWord(t, n);
    MaskWraps(n, t);
    WrapSmall(t, n);
  }

  /******* Casts *******/

  lemma {:induction false} OrHigh(n: nat, h: nat, k: nat)
    requires n < Pow2(k)
    ensures Or(n, h * Pow2(k)) == n + h * Pow2(k)
    decreases k
  {
    hide *;
    Pow2Step(k);
    if k == 0 {
      OrDouble(0, h);
      assert h * 1 == h;
    } else {
      var p := Pow2(k - 1);
      assert h * (2 * p) == 2 * (h * p);
      OrHigh(n / 2, h, k - 1);
      OrDouble(n, h * p);
    }
  }

  lemma {:induction false} OrDouble(n: nat, y: nat)
    ensures Or(n, 2 * y) == n % 2 + 2 * Or(n / 2, y)
    ensures Or(0, y) == y
  {
    assert 2 * y / 2 == y && 2 * y % 2 == 0;
  }

  // Setting the bits above a narrow signed value extends its sign.
  lemma SignExtend(s: Ty, n: nat)
    requires IsSigned(s) && Bits(s) < 64 && Canonical(s, n) && n >= Pow2(Bits(s)) / 2
    ensures Or(n, HighOnes(Bits(s))) == Word(Number(s, n))
  {
    hide Or, Pow2;
    Widths();
    var p := Pow2(Bits(s));
    var h := TWO64 / p - 1;
    assert HighOnes(Bits(s)) == h * p by {
      assert (TWO64 - 1) * p == (p - 1) * TWO64 + (TWO64 - p);
      DivModUnique((TWO64 - 1) * p, p - 1, TWO64 - p, TWO64);
    }
    OrHigh(n, h, Bits(s));
  }

  // A cast is the source's number wrapped to the target.
  lemma CastIsModular(s: Ty, t: Ty, n: nat)
    requires Canonical(s, n)
    ensures Convert(s, t, n) == Wrap(t, Number(s, n))
  {
    hide Or, And, Pow2, Mask, HighOnes, Word, Canonical, Wrap;
    SmallWord(s, n);
    Widths();
    if IsSigned(s) && Bits(s) < Bits(t) {
      CanonicalTop(s, n);
      if n >= Pow2(Bits(s)) / 2 {
        SignExtend(s, n);
        MaskWraps(Number(s, n), t);
      } else {
        MaskWraps(n, t);
      }
    } else {
      MaskWraps(n, t);
      Narrowing(s, t, n);
    }
  }

  lemma CanonicalTop(s: Ty, n: nat)
    requires IsSigned(s) && Canonical(s, n)
    ensures And(n, Pow2(Bits(s) - 1)) != 0 <==> n >= Pow2(Bits(s)) / 2
  {
    hide And;
    AndTop(n, Bits(s) - 1);
  }

  // Wrapping to a width no wider than the source forgets its sign.
  lemma Narrowing(s: Ty, t: Ty, n: nat)
    requires Canonical(s, n) && (!IsSigned(s) || Bits(t) <= Bits(s))
    ensures Wrap(t, Number(s, n)) == Wrap(t, n)
  {
    hide Pow2;
    Widths();
    if Number(s, n) != n {
      var q := Quotient(t, s);
      WrapCongruent(t, n, 0 - q);
      assert (0 - q) * Pow2(Bits(t)) == 0 - Pow2(Bits(s));
    }
  }

  predicate Fits(t: Ty, z: int) {
    var m := Pow2(Bits(t));
    if IsSigned(t) then -(m / 2) <= z < m / 2 else 0 <= z < m
  }

  // A number that fits the target is kept; widening and casting back is the
  // identity.
  lemma CastKeeps(s: Ty, t: Ty, n: nat)
    requires Canonical(s, n)
    ensures Fits(t, Number(s, n)) <==> Number(t, Convert(s, t, n)) == Number(s, n)
    ensures Bits(s) <= Bits(t) ==> Convert(t, s, Convert(s, t, n)) == n
  {
    hide Pow2, Convert;
    CastIsModular(s, t, n);
    FitsIff(t, Number(s, n));
    if Bits(s) <= Bits(t) {
      var w := Convert(s, t, n);
      CastIsModular(t, s, w);
      BackAgain(s, t, n);
    }
  }

  lemma FitsIff(t: Ty, z: int)
    ensures Fits(t, z) <==> Number(t, Wrap(t, z)) == z
  {
    hide Pow2;
    Widths();
    var m := Pow2(Bits(t));
    if Fits(t, z) {
      if z >= 0 {
        DivModUnique(z, 0, z, m);
      } else {
        DivModUnique(z, -1, z + m, m);
      }
    }
  }

  lemma BackAgain(s: Ty, t: Ty, n: nat)
    requires Canonical(s, n) && Bits(s) <= Bits(t)
    ensures Wrap(s, Number(t, Wrap(t, Number(s, n)))) == n
  {
    hide Number, Canonical, Pow2;
    var m := Pow2(Bits(s));
    var z := Number(s, n);
    var w := Wrap(t, z);
    var q := Quotient(s, t);
    var a := z / Pow2(Bits(t));
    var b := NumberCongruent(t, w);
    Regroup(z, a, b, q, m);
    assert Number(t, w) == z + ((b - a) * q) * m;
    WrapCongruent(s, z, (b - a) * q);
    NumberWrap(s, n);
  }

  // A wider width is a multiple of a narrower one.
  lemma Quotient(s: Ty, t: Ty) returns (q: nat)
    requires Bits(s) <= Bits(t)
    ensures Pow2(Bits(t)) == q * Pow2(Bits(s))
  {
    hide Pow2;
    Pow2Sum(Bits(t) - Bits(s), Bits(s));
    q := Pow2(Bits(t) - Bits(s));
  }

  lemma Regroup(z: int, a: int, b: int, q: int, m: int)
    ensures z - a * (q * m) + b * (q * m) == z + ((b - a) * q) * m
  {
    assert ((b - a) * q) * m == (b - a) * (q * m);
    assert (b - a) * (q * m) == b * (q * m) - a * (q * m);
  }

  // Every result is canonical.
  lemma ResultsCanonical(op: IntOp, t: Ty, l: nat, r: nat)
    requires Canonical(t, l) && Canonical(t, r)
    ensures Apply(op, t, l, r).Some? ==> Canonical(t, Apply(op, t, l, r).value)
  {
    if Arithmetic(op) {
      OperatorsWrap(op, t, l, r);
    } else {
      BitwiseOperators(t, l, r);
    }
  }
}
