// Sizes and alignments of types on the 64-bit target. Struct and union shapes
// follow section 6.7.2.1 of C11.
module Layouts {
  import opened Integers

  // Scalars by size; a unit has size 0 and a fat pointer two words.
  datatype Scalar = One | Two | Four | Eight | Zero | Fat

  // `declared`: the program holds the declaration. Types contain each other by
  // value only in finite depth.
  datatype Type =
    | Plain(scalar: Scalar)
    | Array(elem: Type, length: nat)
    | UnsizedArray
    | Tuple(fields: seq<Type>)
    | Struct(declared: bool, fields: seq<Type>)
    | Enum(declared: bool, variants: seq<Variant>)
    | Union(declared: bool, members: seq<Type>)
    | NoLayout

  // Tuple fields first, then named ones.
  datatype Variant = UnitVariant | Payload(fields: seq<Type>)

  /******* Rounding up *******/

  predicate Power(a: nat) {
    a == 1 || a == 2 || a == 4 || a == 8
  }

  // The least multiple of a that is at least n.
  function AlignUp(n: nat, a: nat): (r: nat)
    requires a > 0
    ensures n <= r
  {
    assert n <= (n + a - 1) / a * a by { RoundUp(n, a); }
    (n + a - 1) / a * a
  }

  lemma RoundUp(n: nat, a: nat)
    requires a > 0
    ensures var r := (n + a - 1) / a * a; n <= r < n + a && r % a == 0
  {
    var x := n + a - 1;
    assert x == x / a * a + x % a;
    DivModUnique(x / a * a, x / a, 0, a);
  }

  lemma AlignUpLeast(n: nat, a: nat, m: nat)
    requires a > 0
    ensures AlignUp(n, a) % a == 0 && AlignUp(n, a) < n + a
    ensures m >= n && m % a == 0 ==> AlignUp(n, a) <= m
  {
    RoundUp(n, a);
    if m >= n && m % a == 0 && m < AlignUp(n, a) {
      var r := AlignUp(n, a);
      assert m == m / a * a;
      assert r == (n + a - 1) / a * a;
      MultiplesApart(m / a, (n + a - 1) / a, a);
    }
  }

  lemma MultiplesApart(i: int, j: int, a: int)
    requires a > 0 && i * a < j * a
    ensures i * a + a <= j * a
  {
    if j <= i {
      MulLe(j, i, a);
    }
    MulLe(i + 1, j, a);
    assert (i + 1) * a == i * a + a;
  }

  lemma MulLe(x: int, y: int, a: int)
    requires x <= y && a > 0
    ensures x * a <= y * a
  {
  }

  // The machine form: add, then clear the low bits, in 64-bit words.
  function AlignWord(n: nat, a: nat): nat
    requires 0 < a <= TWO64
  {
    And(Word(n + a - 1), TWO64 - 1 - (a - 1))
  }

  // Clearing the low k bits: y is h times p, and q is x divided by p.
  lemma {:induction false} AndHigh(x: nat, h: nat, k: nat, p: nat, y: nat, q: nat)
    requires p == Pow2(k) && y == h * p && x == q * p + x % p
    ensures And(x, y) == And(q, h) * p
    decreases k
  {
    hide *;
    Pow2Step(k);
    if k == 0 {
      assert q == x && y == h;
    } else {
      var p2 := Pow2(k - 1);
      var y2: nat := y / 2;
      assert y == 2 * (h * p2) by {
        assert h * (2 * p2) == 2 * (h * p2);
      }
      AndStep(x, y);
      HalfDiv(x, p2, q);
      AndHigh(x / 2, h, k - 1, p2, y2, q);
      var z := And(q, h);
      assert 2 * (z * p2) == z * (2 * p2);
    }
  }

  // Halving dividend and divisor keeps the quotient.
  lemma HalfDiv(x: nat, p: nat, q: nat)
    requires p > 0 && x == q * (2 * p) + x % (2 * p)
    ensures x / 2 == q * p + x / 2 % p
  {
    DoubleMod(x, p);
    assert q * (2 * p) == 2 * (q * p);
  }

  // As long as the rounded size fits 64 bits, the machine form is exact.
  lemma AlignWordIsExact(n: nat, a: nat)
    requires Power(a) && AlignUp(n, a) < TWO64
    ensures AlignWord(n, a) == AlignUp(n, a)
  {
    var k := if a == 1 then 0 else if a == 2 then 1 else if a == 4 then 2 else 3;
    assert Pow2(0) == 1 && Pow2(1) == 2 && Pow2(2) == 4 && Pow2(3) == 8;
    var h := Pow2(64 - k) - 1;
    Pow2Sum(64 - k, k);
    Widths();
    NoOverflow(n, a);
    ClearLow(n + a - 1, a, k, h);
  }

  lemma ClearLow(x: nat, a: nat, k: nat, h: nat)
    requires k <= 64 && a == Pow2(k) && h == Pow2(64 - k) - 1 && TWO64 == (h + 1) * a && x < TWO64
    ensures And(Word(x), TWO64 - a) == x / a * a
  {
    hide And, Pow2;
    assert TWO64 - a == h * a by {
      assert (h + 1) * a == h * a + a;
    }
    var q: nat := x / a;
    AndHigh(x, h, k, a, TWO64 - a, q);
    AndOnes(q, 64 - k);
    QuotientSmall(x, a, h + 1);
  }

  lemma NoOverflow(n: nat, a: nat)
    requires Power(a) && AlignUp(n, a) < TWO64
    ensures n + a - 1 < TWO64
  {
    AlignUpLeast(n, a, 0);
  }

  lemma QuotientSmall(x: nat, a: nat, q: nat)
    requires a > 0 && x < q * a
    ensures x / a % q == x / a
  {
    assert x == x / a * a + x % a;
    var y := x / a;
    assert y < q by {
      if y >= q {
        MulLe(q, y, a);
      }
    }
    DivModUnique(y, 0, y, q);
  }

  /******* Sizes *******/

  function ScalarSize(s: Scalar): nat {
    match s case One => 1 case Two => 2 case Four => 4 case Eight => 8 case Zero => 0 case Fat => 16
  }

  function ScalarAlign(s: Scalar): nat {
    match s case One => 1 case Two => 2 case Four => 4 case Eight => 8 case Zero => 1 case Fat => 8
  }

  function Larger(a: nat, b: nat): nat {
    if b > a then b else a
  }

  function Align(t: Type): (r: Option<nat>)
    ensures r.Some? ==> Power(r.value)
    decreases t, 1, 0
  {
    match t
    case Plain(s) => Some(ScalarAlign(s))
    case Array(elem, _) => Align(elem)
    case UnsizedArray => None
    case Tuple(fields) => AlignOf(fields, |fields|)
    case Struct(declared, fields) => if declared then AlignOf(fields, |fields|) else Some(1)
    case Enum(declared, vs) => if declared then PayloadAlign(vs, |vs|) else Some(1)
    case Union(declared, ms) => if declared then AlignOf(ms, |ms|) else Some(1)
    case NoLayout => None
  }

  // The largest alignment of the first k types, at least 1.
  function AlignOf(ts: seq<Type>, k: nat): (r: Option<nat>)
    requires k <= |ts|
    ensures r.Some? ==> Power(r.value)
    decreases ts, 0, k
  {
    if k == 0 then Some(1)
    else
      var front := AlignOf(ts, k - 1);
      var a := Align(ts[k - 1]);
      if front.None? || a.None? then None else Some(Larger(front.value, a.value))
  }

  function Size(t: Type): Option<nat>
    decreases t, 1, 0
  {
    match t
    case Plain(s) => Some(ScalarSize(s))
    case Array(elem, n) => if Size(elem).None? then None else Some(Size(elem).value * n)
    case UnsizedArray => None
    case Tuple(fields) => Packed(fields)
    case Struct(declared, fields) => if declared then Packed(fields) else None
    case Enum(declared, vs) =>
      if !declared then Some(1)
      else
        var p, a := PayloadSize(vs, |vs|), PayloadAlign(vs, |vs|);
        if p.None? || a.None? then None else Some(AlignUp(AlignUp(1, a.value) + p.value, a.value))
    case Union(declared, ms) =>
      if !declared then Some(1)
      else
        var s, a := LargestSize(ms, |ms|), AlignOf(ms, |ms|);
        if s.None? || a.None? then None else Some(AlignUp(s.value, a.value))
    case NoLayout => None
  }

  // Where the k-th field begins.
  function Offset(ts: seq<Type>, k: nat): Option<nat>
    requires k < |ts|
    decreases ts, 0, 2 * k + 1
  {
    var e := End(ts, k);
    var a := Align(ts[k]);
    if e.None? || a.None? then None else Some(AlignUp(e.value, a.value))
  }

  // Where the first k fields end.
  function End(ts: seq<Type>, k: nat): Option<nat>
    requires k <= |ts|
    decreases ts, 0, 2 * k
  {
    if k == 0 then Some(0)
    else
      var o := Offset(ts, k - 1);
      var s := Size(ts[k - 1]);
      if o.None? || s.None? then None else Some(o.value + s.value)
  }

  function Packed(ts: seq<Type>): Option<nat>
    decreases ts, 1, 0
  {
    var e, a := End(ts, |ts|), AlignOf(ts, |ts|);
    if e.None? || a.None? then None else Some(AlignUp(e.value, a.value))
  }

  function LargestSize(ts: seq<Type>, k: nat): Option<nat>
    requires k <= |ts|
    decreases ts, 0, k
  {
    if k == 0 then Some(0)
    else
      var front, s := LargestSize(ts, k - 1), Size(ts[k - 1]);
      if front.None? || s.None? then None else Some(Larger(front.value, s.value))
  }

  function VariantSize(v: Variant): Option<nat>
    decreases v, 0
  {
    if v.UnitVariant? then Some(0) else Packed(v.fields)
  }

  // A payload without a size has no alignment either.
  function VariantAlign(v: Variant): (r: Option<nat>)
    ensures r.Some? ==> Power(r.value)
    decreases v, 1
  {
    if v.UnitVariant? then Some(1) else if VariantSize(v).None? then None else AlignOf(v.fields, |v.fields|)
  }

  function PayloadSize(vs: seq<Variant>, k: nat): Option<nat>
    requires k <= |vs|
    decreases vs, 0, k
  {
    if k == 0 then Some(0)
    else
      var front, s := PayloadSize(vs, k - 1), VariantSize(vs[k - 1]);
      if front.None? || s.None? then None else Some(Larger(front.value, s.value))
  }

  function PayloadAlign(vs: seq<Variant>, k: nat): (r: Option<nat>)
    requires k <= |vs|
    ensures r.Some? ==> Power(r.value)
    decreases vs, 0, k
  {
    if k == 0 then Some(1)
    else
      var front, a := PayloadAlign(vs, k - 1), VariantAlign(vs[k - 1]);
      if front.None? || a.None? then None else Some(Larger(front.value, a.value))
  }

  /******* What the layout guarantees *******/

  lemma PowersDivide(a: nat, b: nat, n: nat)
    requires Power(a) && Power(b) && a <= b && n % b == 0
    ensures n % a == 0
  {
    var k := if b == 8 then (if a == 8 then 1 else if a == 4 then 2 else if a == 2 then 4 else 8)
             else if b == 4 then (if a == 4 then 1 else if a == 2 then 2 else 4)
             else if b == 2 then (if a == 2 then 1 else 2) else 1;
    assert b == k * a;
    var q := n / b;
    assert n == q * b;
    assert n == (q * k) * a;
    DivModUnique(n, q * k, 0, a);
  }

  // The alignment, a power of two, divides the size.
  lemma {:induction false} AlignDividesSize(t: Type)
    requires Size(t).Some? && Align(t).Some?
    ensures Power(Align(t).value) && Size(t).value % Align(t).value == 0
    decreases t
  {
    match t
    case Array(elem, n) =>
      AlignDividesSize(elem);
      MultipleOf(Size(elem).value, n, Align(elem).value);
    case Tuple(fields) => AlignUpLeast(End(fields, |fields|).value, AlignOf(fields, |fields|).value, 0);
    case Struct(_, fields) => AlignUpLeast(End(fields, |fields|).value, AlignOf(fields, |fields|).value, 0);
    case Enum(declared, vs) =>
      if declared {
        var a := PayloadAlign(vs, |vs|).value;
        AlignUpLeast(AlignUp(1, a) + PayloadSize(vs, |vs|).value, a, 0);
      }
    case Union(declared, ms) =>
      if declared {
        AlignUpLeast(LargestSize(ms, |ms|).value, AlignOf(ms, |ms|).value, 0);
      }
    case _ =>
  }

  lemma MultipleOf(s: nat, n: nat, a: nat)
    requires a > 0 && s % a == 0
    ensures s * n % a == 0
  {
    var q := s / a;
    assert s == q * a;
    assert s * n == (q * n) * a;
    DivModUnique(s * n, q * n, 0, a);
  }

  lemma {:induction false} EndGrows(ts: seq<Type>, j: nat, k: nat)
    requires j <= k <= |ts| && End(ts, k).Some?
    ensures End(ts, j).Some? && End(ts, j).value <= End(ts, k).value
    decreases k
  {
    if j < k {
      EndGrows(ts, j, k - 1);
    }
  }

  // Each field of a struct, tuple or variant stands at the least offset after
  // the previous field that its alignment divides, and inside the whole.
  lemma FieldsPlaced(ts: seq<Type>, k: nat)
    requires Packed(ts).Some? && k < |ts|
    ensures Offset(ts, k).Some? && Size(ts[k]).Some? && Align(ts[k]).Some? && End(ts, k).Some?
    ensures var o := Offset(ts, k).value; var a := Align(ts[k]).value;
      && End(ts, k).value <= o && o % a == 0
      && (forall m :: m >= End(ts, k).value && m % a == 0 ==> o <= m)
      && o + Size(ts[k]).value <= Packed(ts).value
  {
    hide *;
    PackedUnfold(ts);
    EndGrows(ts, k + 1, |ts|);
    EndGrows(ts, k, |ts|);
    EndUnfold(ts, k);
    var e, a := End(ts, k).value, Align(ts[k]).value;
    forall m: nat | m >= e && m % a == 0
      ensures AlignUp(e, a) <= m
    {
      AlignUpLeast(e, a, m);
    }
    AlignUpLeast(e, a, 0);
  }

  lemma PackedUnfold(ts: seq<Type>)
    requires Packed(ts).Some?
    ensures End(ts, |ts|).Some? && End(ts, |ts|).value <= Packed(ts).value
  {
    hide AlignUp;
  }

  lemma EndUnfold(ts: seq<Type>, k: nat)
    requires k < |ts| && End(ts, k + 1).Some? && End(ts, k).Some?
    ensures Offset(ts, k).Some? && Size(ts[k]).Some? && Align(ts[k]).Some? && Align(ts[k]).value > 0
    ensures Offset(ts, k).value == AlignUp(End(ts, k).value, Align(ts[k]).value)
    ensures End(ts, k + 1).value == Offset(ts, k).value + Size(ts[k]).value
  {
    hide AlignUp, Size;
  }

  // Fields do not overlap.
  lemma FieldsDisjoint(ts: seq<Type>, j: nat, k: nat)
    requires Packed(ts).Some? && j < k < |ts|
    ensures Offset(ts, j).Some? && Size(ts[j]).Some? && Offset(ts, k).Some?
    ensures Offset(ts, j).value + Size(ts[j]).value <= Offset(ts, k).value
  {
    hide AlignUp;
    FieldsPlaced(ts, j);
    FieldsPlaced(ts, k);
    EndGrows(ts, j + 1, k);
  }

  lemma {:induction false} PayloadCovers(vs: seq<Variant>, k: nat, i: nat)
    requires i < k <= |vs| && PayloadSize(vs, k).Some? && PayloadAlign(vs, k).Some?
    ensures VariantSize(vs[i]).Some? && VariantAlign(vs[i]).Some?
    ensures VariantSize(vs[i]).value <= PayloadSize(vs, k).value && VariantAlign(vs[i]).value <= PayloadAlign(vs, k).value
    decreases k
  {
    if i < k - 1 {
      PayloadCovers(vs, k - 1, i);
    }
  }

  // An enum has an alignment exactly when it has a size.
  lemma EnumAlignIff(vs: seq<Variant>)
    ensures Align(Enum(true, vs)).Some? <==> Size(Enum(true, vs)).Some?
  {
    PayloadBoth(vs, |vs|);
  }

  lemma {:induction false} PayloadBoth(vs: seq<Variant>, k: nat)
    requires k <= |vs|
    ensures PayloadAlign(vs, k).Some? <==> PayloadSize(vs, k).Some?
    decreases k
  {
    if k > 0 {
      PayloadBoth(vs, k - 1);
      var v := vs[k - 1];
      assert v.Payload? && Packed(v.fields).Some? ==> AlignOf(v.fields, |v.fields|).Some?;
      assert VariantAlign(v).Some? <==> VariantSize(v).Some?;
    }
  }

  // After the tag, at an offset aligned for it, every payload fits.
  lemma PayloadsFit(vs: seq<Variant>, i: nat)
    requires Size(Enum(true, vs)).Some? && i < |vs|
    ensures VariantSize(vs[i]).Some? && VariantAlign(vs[i]).Some? && Align(Enum(true, vs)).Some?
    ensures var at := AlignUp(1, Align(Enum(true, vs)).value);
      && at >= 1 && at % VariantAlign(vs[i]).value == 0
      && at + VariantSize(vs[i]).value <= Size(Enum(true, vs)).value
  {
    PayloadCovers(vs, |vs|, i);
    var a := PayloadAlign(vs, |vs|).value;
    AlignUpLeast(1, a, 0);
    PowersDivide(VariantAlign(vs[i]).value, a, AlignUp(1, a));
  }

  lemma {:induction false} LargestCovers(ts: seq<Type>, k: nat, i: nat)
    requires i < k <= |ts| && LargestSize(ts, k).Some?
    ensures Size(ts[i]).Some? && Size(ts[i]).value <= LargestSize(ts, k).value
    decreases k
  {
    if i < k - 1 {
      LargestCovers(ts, k - 1, i);
    }
  }

  // Every member of a union fits at its start.
  lemma MembersFit(ms: seq<Type>, i: nat)
    requires Size(Union(true, ms)).Some? && i < |ms|
    ensures Size(ms[i]).Some? && Size(ms[i]).value <= Size(Union(true, ms)).value
  {
    LargestCovers(ms, |ms|, i);
  }

  /******* The computation in 64-bit words *******/

  // No exact size of the type or of a part of it exceeds 64 bits.
  predicate Fits(t: Type)
    decreases t
  {
    && (Size(t).Some? ==> Size(t).value < TWO64)
    && match t
       case Array(elem, _) => Fits(elem)
       case Tuple(fields) => AllFit(fields)
       case Struct(_, fields) => AllFit(fields)
       case Enum(_, vs) => forall i :: 0 <= i < |vs| && vs[i].Payload? ==> AllFit(vs[i].fields)
       case Union(_, ms) => AllFit(ms)
       case _ => true
  }

  predicate AllFit(ts: seq<Type>)
    decreases ts
  {
    forall i :: 0 <= i < |ts| ==> Fits(ts[i])
  }

  method LayoutAlign(t: Type) returns (r: Option<nat>)
    ensures r == Align(t)
    decreases t, 1
  {
    match t
    case Plain(s) => r := Some(ScalarAlign(s));
    case Array(elem, _) => r := LayoutAlign(elem);
    case UnsizedArray => r := None;
    case Tuple(fields) => r := AggregateAlign(fields);
    case Struct(declared, fields) =>
      if declared {
        r := AggregateAlign(fields);
      } else {
        r := Some(1);
      }
    case Enum(declared, vs) =>
      if !declared {
        return Some(1);
      }
      var maxAlign := 1;
      var i := 0;
      while i < |vs|
        invariant 0 <= i <= |vs| && PayloadAlign(vs, i) == Some(maxAlign)
      {
        var _, a := VariantLayout(vs[i]);
        if a.None? {
          NoPayloadAlign(vs, i + 1, |vs|);
          return None;
        }
        if a.value > maxAlign {
          maxAlign := a.value;
        }
        i := i + 1;
      }
      r := Some(maxAlign);
    case Union(declared, ms) =>
      if declared {
        r := AggregateAlign(ms);
      } else {
        r := Some(1);
      }
    case NoLayout => r := None;
  }

  lemma {:induction false} NoPayloadAlign(vs: seq<Variant>, j: nat, k: nat)
    requires j <= k <= |vs| && PayloadAlign(vs, j).None?
    ensures PayloadAlign(vs, k).None?
    decreases k
  {
    if j < k {
      NoPayloadAlign(vs, j, k - 1);
    }
  }

  lemma {:induction false} NoAlignOf(ts: seq<Type>, j: nat, k: nat)
    requires j <= k <= |ts| && AlignOf(ts, j).None?
    ensures AlignOf(ts, k).None?
    decreases k
  {
    if j < k {
      NoAlignOf(ts, j, k - 1);
    }
  }

  method AggregateAlign(ts: seq<Type>) returns (r: Option<nat>)
    ensures r == AlignOf(ts, |ts|)
    decreases ts, 0
  {
    var maxAlign := 1;
    var i := 0;
    while i < |ts|
      invariant 0 <= i <= |ts| && AlignOf(ts, i) == Some(maxAlign)
    {
      var a := LayoutAlign(ts[i]);
      if a.None? {
        NoAlignOf(ts, i + 1, |ts|);
        return None;
      }
      if a.value > maxAlign {
        maxAlign := a.value;
      }
      i := i + 1;
    }
    return Some(maxAlign);
  }

  // The size computed in words: an error exactly where there is no layout,
  // and the exact size whenever that fits 64 bits.
  method LayoutSize(t: Type) returns (r: Option<nat>)
    ensures r.Some? <==> Size(t).Some?
    ensures Fits(t) ==> r == Size(t)
    decreases t, 1
  {
    match t
    case Plain(s) => r := Some(ScalarSize(s));
    case Array(elem, n) =>
      var e := LayoutSize(elem);
      if e.None? {
        return None;
      }
      r := Some(Word(e.value * n));
    case UnsizedArray => r := None;
    case Tuple(fields) => r := AggregateSize(fields);
    case Struct(declared, fields) =>
      if declared {
        r := AggregateSize(fields);
      } else {
        r := None;
      }
    case Enum(declared, vs) =>
      if declared {
        r := EnumSize(vs);
      } else {
        r := Some(1);
      }
    case Union(declared, ms) =>
      if declared {
        r := UnionSize(ms);
      } else {
        r := Some(1);
      }
    case NoLayout => r := None;
  }

  lemma {:induction false} NoEnd(ts: seq<Type>, j: nat, k: nat)
    requires j <= k <= |ts| && End(ts, j).None?
    ensures End(ts, k).None?
    decreases k
  {
    if j < k {
      NoEnd(ts, j, k - 1);
    }
  }

  // The fields fit and so does the whole.
  predicate PackedFits(ts: seq<Type>) {
    AllFit(ts) && Packed(ts).Some? && Packed(ts).value < TWO64
  }

  lemma PackedBounds(ts: seq<Type>, k: nat)
    requires PackedFits(ts) && k < |ts|
    ensures Offset(ts, k).Some? && Offset(ts, k).value < TWO64 && End(ts, k + 1).Some? && End(ts, k + 1).value < TWO64
  {
    hide AlignUp;
    FieldsPlaced(ts, k);
    EndGrows(ts, k + 1, |ts|);
  }

  method AggregateSize(ts: seq<Type>) returns (r: Option<nat>)
    ensures r.Some? <==> Packed(ts).Some?
    ensures PackedFits(ts) ==> r == Packed(ts)
    decreases ts, 0
  {
    hide AlignUp, AlignWord, Fits;
    var size, maxAlign := 0, 1;
    var i := 0;
    while i < |ts|
      invariant 0 <= i <= |ts| && AlignOf(ts, i) == Some(maxAlign) && End(ts, i).Some?
      invariant PackedFits(ts) ==> size == End(ts, i).value
    {
      var s := LayoutSize(ts[i]);
      if s.None? {
        NoEnd(ts, i + 1, |ts|);
        return None;
      }
      var a := LayoutAlign(ts[i]);
      if a.None? {
        NoEnd(ts, i + 1, |ts|);
        return None;
      }
      if PackedFits(ts) {
        PackedBounds(ts, i);
        AlignWordIsExact(size, a.value);
        WordKeeps(End(ts, i + 1).value);
      }
      size := AlignWord(size, a.value);
      size := Word(size + s.value);
      if a.value > maxAlign {
        maxAlign := a.value;
      }
      i := i + 1;
    }
    if PackedFits(ts) {
      AlignWordIsExact(size, maxAlign);
    }
    return Some(AlignWord(size, maxAlign));
  }

  lemma WordKeeps(n: nat)
    requires n < TWO64
    ensures Word(n) == n
  {
  }

  lemma {:induction false} NoLargest(ts: seq<Type>, j: nat, k: nat)
    requires j <= k <= |ts| && LargestSize(ts, j).None?
    ensures LargestSize(ts, k).None?
    decreases k
  {
    if j < k {
      NoLargest(ts, j, k - 1);
    }
  }

  method UnionSize(ms: seq<Type>) returns (r: Option<nat>)
    ensures r.Some? <==> Size(Union(true, ms)).Some?
    ensures Fits(Union(true, ms)) ==> r == Size(Union(true, ms))
    decreases ms, 0
  {
    hide AlignUp, AlignWord;
    var maxSize, maxAlign := 0, 1;
    var i := 0;
    while i < |ms|
      invariant 0 <= i <= |ms| && AlignOf(ms, i) == Some(maxAlign) && LargestSize(ms, i).Some?
      invariant AllFit(ms) ==> maxSize == LargestSize(ms, i).value
    {
      var s := LayoutSize(ms[i]);
      if s.None? {
        NoLargest(ms, i + 1, |ms|);
        return None;
      }
      var a := LayoutAlign(ms[i]);
      if a.None? {
        NoAlignOf(ms, i + 1, |ms|);
        return None;
      }
      if s.value > maxSize {
        maxSize := s.value;
      }
      if a.value > maxAlign {
        maxAlign := a.value;
      }
      i := i + 1;
    }
    if Fits(Union(true, ms)) {
      AlignWordIsExact(maxSize, maxAlign);
    }
    return Some(AlignWord(maxSize, maxAlign));
  }

  lemma {:induction false} NoPayloadSize(vs: seq<Variant>, j: nat, k: nat)
    requires j <= k <= |vs| && PayloadSize(vs, j).None?
    ensures PayloadSize(vs, k).None?
    decreases k
  {
    if j < k {
      NoPayloadSize(vs, j, k - 1);
    }
  }

  // Size and alignment of one payload, or neither.
  method VariantLayout(v: Variant) returns (size: Option<nat>, align: Option<nat>)
    ensures align == VariantAlign(v) && (size.Some? <==> align.Some?)
    ensures size.Some? <==> VariantSize(v).Some?
    ensures v.Payload? && PackedFits(v.fields) ==> size == VariantSize(v)
    ensures v.UnitVariant? ==> size == VariantSize(v)
    decreases v, 0
  {
    if v.UnitVariant? {
      return Some(0), Some(1);
    }
    size := AggregateSize(v.fields);
    align := None;
    if size.Some? {
      align := AggregateAlign(v.fields);
    }
  }

  // Every payload of an enum that fits, fits.
  lemma EnumParts(vs: seq<Variant>, i: nat)
    requires Fits(Enum(true, vs)) && Size(Enum(true, vs)).Some? && i < |vs|
    ensures vs[i].Payload? ==> PackedFits(vs[i].fields)
  {
    hide AlignUp;
    PayloadsFit(vs, i);
  }

  method EnumSize(vs: seq<Variant>) returns (r: Option<nat>)
    ensures r.Some? <==> Size(Enum(true, vs)).Some?
    ensures Fits(Enum(true, vs)) ==> r == Size(Enum(true, vs))
    decreases vs, 0
  {
    hide AlignUp, AlignWord, Fits, Packed, PackedFits;
    ghost var whole := Enum(true, vs);
    var maxPayload, maxAlign := 0, 1;
    var i := 0;
    while i < |vs|
      invariant 0 <= i <= |vs| && PayloadAlign(vs, i) == Some(maxAlign) && PayloadSize(vs, i).Some?
      invariant Fits(whole) && Size(whole).Some? ==> maxPayload == PayloadSize(vs, i).value
    {
      var s, a := VariantLayout(vs[i]);
      if s.None? {
        NoPayloadSize(vs, i + 1, |vs|);
        return None;
      }
      if Fits(whole) && Size(whole).Some? {
        EnumParts(vs, i);
      }
      if s.value > maxPayload {
        maxPayload := s.value;
      }
      if a.value > maxAlign {
        maxAlign := a.value;
      }
      i := i + 1;
    }
    if Fits(whole) {
      EnumExact(vs, maxPayload, maxAlign);
    }
    var total := Word(AlignWord(1, maxAlign) + maxPayload);
    if total < 1 {
      total := 1;
    }
    return Some(AlignWord(total, maxAlign));
  }

  lemma EnumExact(vs: seq<Variant>, p: nat, a: nat)
    requires Fits(Enum(true, vs)) && PayloadSize(vs, |vs|) == Some(p) && PayloadAlign(vs, |vs|) == Some(a)
    ensures var total := Word(AlignWord(1, a) + p); total >= 1 && Some(AlignWord(total, a)) == Size(Enum(true, vs))
  {
    var total := AlignUp(1, a) + p;
    assert AlignUp(total, a) < TWO64;
    AlignUpLeast(1, a, 0);
    AlignWordIsExact(1, a);
    WordKeeps(total);
    AlignWordIsExact(total, a);
  }
}
