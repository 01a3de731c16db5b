// The layouts are the least there are: no placement in order that keeps every
// alignment takes less room.
module LeastLayouts {
  import opened Integers
  import opened Layouts

  /******* Which types have a layout *******/

  // No undeclared struct, unsized array or type without layout in it. An enum
  // or union that is not declared takes one byte.
  predicate LaidOut(t: Type)
    decreases t
  {
    match t
    case Plain(_) => true
    case Array(elem, _) => LaidOut(elem)
    case UnsizedArray => false
    case Tuple(fields) => AllLaidOut(fields)
    case Struct(declared, fields) => declared && AllLaidOut(fields)
    case Enum(declared, vs) => declared ==> forall i :: 0 <= i < |vs| && vs[i].Payload? ==> AllLaidOut(vs[i].fields)
    case Union(declared, ms) => declared ==> AllLaidOut(ms)
    case NoLayout => false
  }

  predicate AllLaidOut(ts: seq<Type>)
    decreases ts
  {
    forall i :: 0 <= i < |ts| ==> LaidOut(ts[i])
  }

  lemma {:induction false} LaidOutIff(t: Type)
    ensures Size(t).Some? <==> LaidOut(t)
    ensures LaidOut(t) ==> Align(t).Some?
    decreases t, 1
  {
    match t
    case Plain(_) =>
    case Array(elem, _) => LaidOutIff(elem);
    case UnsizedArray =>
    case Tuple(fields) => AllLaidOutIff(fields, |fields|);
    case Struct(declared, fields) =>
      if declared {
        AllLaidOutIff(fields, |fields|);
      }
    case Enum(declared, vs) =>
      if declared {
        VariantsLaidOutIff(vs, |vs|);
      }
    case Union(declared, ms) =>
      if declared {
        AllLaidOutIff(ms, |ms|);
      }
    case NoLayout =>
  }

  lemma {:induction false} AllLaidOutIff(ts: seq<Type>, k: nat)
    requires k <= |ts|
    ensures End(ts, k).Some? <==> forall i :: 0 <= i < k ==> LaidOut(ts[i])
    ensures LargestSize(ts, k).Some? <==> forall i :: 0 <= i < k ==> LaidOut(ts[i])
    ensures End(ts, k).Some? ==> AlignOf(ts, k).Some?
    decreases ts, 0, k
  {
    if k > 0 {
      AllLaidOutIff(ts, k - 1);
      LaidOutIff(ts[k - 1]);
      hide *;
      EndsUnfold(ts, k);
    }
  }

  lemma EndsUnfold(ts: seq<Type>, k: nat)
    requires 0 < k <= |ts|
    ensures End(ts, k).Some? <==> End(ts, k - 1).Some? && Align(ts[k - 1]).Some? && Size(ts[k - 1]).Some?
    ensures LargestSize(ts, k).Some? <==> LargestSize(ts, k - 1).Some? && Size(ts[k - 1]).Some?
    ensures AlignOf(ts, k).Some? <==> AlignOf(ts, k - 1).Some? && Align(ts[k - 1]).Some?
  {
    hide AlignUp, Size, Align;
  }

  lemma {:induction false} VariantsLaidOutIff(vs: seq<Variant>, k: nat)
    requires k <= |vs|
    ensures PayloadSize(vs, k).Some? <==> forall i :: 0 <= i < k && vs[i].Payload? ==> AllLaidOut(vs[i].fields)
    ensures PayloadSize(vs, k).Some? ==> PayloadAlign(vs, k).Some?
    decreases vs, 0, k
  {
    if k > 0 {
      VariantsLaidOutIff(vs, k - 1);
      var v := vs[k - 1];
      if v.Payload? {
        AllLaidOutIff(v.fields, |v.fields|);
        assert AllLaidOut(v.fields) <==> Packed(v.fields).Some?;
      }
      assert VariantSize(v).Some? <==> (v.Payload? ==> AllLaidOut(v.fields));
      assert VariantSize(v).Some? ==> VariantAlign(v).Some?;
      hide *;
      PayloadUnfold(vs, k);
    }
  }

  lemma PayloadUnfold(vs: seq<Variant>, k: nat)
    requires 0 < k <= |vs|
    ensures PayloadSize(vs, k).Some? <==> PayloadSize(vs, k - 1).Some? && VariantSize(vs[k - 1]).Some?
    ensures PayloadAlign(vs, k).Some? <==> PayloadAlign(vs, k - 1).Some? && VariantAlign(vs[k - 1]).Some?
  {
    hide VariantSize, VariantAlign;
  }

  /******* Scalars and arrays *******/

  lemma ScalarTable(t: Type)
    requires t.Plain?
    ensures t.scalar.Fat? ==> Size(t) == Some(16) && Align(t) == Some(8)
    ensures t.scalar.Eight? ==> Size(t) == Some(8) && Align(t) == Some(8)
    ensures t.scalar.Four? ==> Size(t) == Some(4) && Align(t) == Some(4)
    ensures t.scalar.Two? ==> Size(t) == Some(2) && Align(t) == Some(2)
    ensures t.scalar.One? ==> Size(t) == Some(1) && Align(t) == Some(1)
    ensures t.scalar.Zero? ==> Size(t) == Some(0) && Align(t) == Some(1)
  {
  }

  // Elements stand one after another, without gaps.
  lemma ArrayGrows(elem: Type, n: nat)
    requires LaidOut(elem)
    ensures Size(elem).Some? && Size(Array(elem, 0)) == Some(0) && Size(Array(elem, n)).Some?
    ensures Size(Array(elem, n + 1)) == Some(Size(Array(elem, n)).value + Size(elem).value)
    ensures Align(Array(elem, n)) == Align(elem)
  {
    LaidOutIff(elem);
    var s := Size(elem).value;
    assert s * (n + 1) == s * n + s;
  }

  /******* Alignments *******/

  // a is the largest of these alignments, or 1 where there is none.
  predicate LargestOf(a: nat, aligns: seq<nat>) {
    (a == 1 || a in aligns) && a >= 1 && forall i :: 0 <= i < |aligns| ==> aligns[i] <= a
  }

  function Aligns(ts: seq<Type>): seq<nat> {
    seq(|ts|, i requires 0 <= i < |ts| => if Align(ts[i]).Some? then Align(ts[i]).value else 0)
  }

  lemma {:induction false} AlignLargest(ts: seq<Type>, k: nat)
    requires k <= |ts| && AlignOf(ts, k).Some?
    ensures LargestOf(AlignOf(ts, k).value, Aligns(ts)[..k])
    decreases k
  {
    if k > 0 {
      AlignLargest(ts, k - 1);
      assert Aligns(ts)[..k] == Aligns(ts)[..k - 1] + [Align(ts[k - 1]).value];
    }
  }

  // A struct, tuple or union is aligned as its most aligned part.
  lemma AggregateAlignIs(t: Type)
    requires LaidOut(t) && (t.Tuple? || t.Struct? || (t.Union? && t.declared))
    ensures Align(t).Some? && LargestOf(Align(t).value, Aligns(if t.Union? then t.members else t.fields))
  {
    var ts := if t.Union? then t.members else t.fields;
    LaidOutIff(t);
    AlignLargest(ts, |ts|);
    assert Aligns(ts)[..|ts|] == Aligns(ts);
  }

  /******* Structs and tuples *******/

  // The fields stand in order at these offsets, aligned and apart, within m.
  predicate Placement(ts: seq<Type>, at: seq<nat>, m: nat) {
    && |at| == |ts|
    && (forall k :: 0 <= k < |ts| ==> Size(ts[k]).Some? && Align(ts[k]).Some? && at[k] % Align(ts[k]).value == 0)
    && (forall k :: 0 <= k < |ts| - 1 ==> at[k] + Size(ts[k]).value <= at[k + 1])
    && (ts != [] ==> at[|ts| - 1] + Size(ts[|ts| - 1]).value <= m)
  }

  lemma {:induction false} EndLeast(ts: seq<Type>, at: seq<nat>, m: nat, k: nat)
    requires Placement(ts, at, m) && k <= |ts| && End(ts, k).Some?
    ensures k < |ts| ==> End(ts, k).value <= at[k]
    ensures k == |ts| ==> End(ts, k).value <= m
    decreases k
  {
    if k > 0 {
      EndGrows(ts, k - 1, k);
      EndLeast(ts, at, m, k - 1);
      hide *;
      PlacedAt(ts, at, m, k - 1);
      EndUnfold(ts, k - 1);
      AlignUpLeast(End(ts, k - 1).value, Align(ts[k - 1]).value, at[k - 1]);
    }
  }

  lemma PlacedAt(ts: seq<Type>, at: seq<nat>, m: nat, k: nat)
    requires Placement(ts, at, m) && k < |ts|
    ensures |at| == |ts| && Size(ts[k]).Some? && Align(ts[k]).Some? && at[k] % Align(ts[k]).value == 0
    ensures at[k] + Size(ts[k]).value <= if k + 1 < |ts| then at[k + 1] else m
  {
  }

  // The size of a struct or tuple is the least there is: its own placement fits
  // in it (FieldsPlaced), and every placement in a multiple of the alignment
  // needs as much.
  lemma StructLeast(t: Type, at: seq<nat>, m: nat)
    requires LaidOut(t) && (t.Tuple? || t.Struct?)
    requires Align(t).Some? && m % Align(t).value == 0 && Placement(t.fields, at, m)
    ensures Size(t).Some? && Size(t).value <= m
  {
    LaidOutIff(t);
    var ts := t.fields;
    EndLeast(ts, at, m, |ts|);
    AlignUpLeast(End(ts, |ts|).value, Align(t).value, m);
  }

  /******* Unions *******/

  lemma {:induction false} LargestLeast(ts: seq<Type>, k: nat, m: nat)
    requires k <= |ts| && LargestSize(ts, k).Some?
    requires forall i :: 0 <= i < k ==> Size(ts[i]).Some? && Size(ts[i]).value <= m
    ensures LargestSize(ts, k).value <= m
    decreases k
  {
    if k > 0 {
      LargestLeast(ts, k - 1, m);
    }
  }

  // The same for a union, whose members all stand at its start.
  lemma UnionLeast(ms: seq<Type>, m: nat)
    requires AllLaidOut(ms) && Align(Union(true, ms)).Some? && m % Align(Union(true, ms)).value == 0
    requires forall i :: 0 <= i < |ms| ==> Size(ms[i]).Some? && Size(ms[i]).value <= m
    ensures Size(Union(true, ms)).Some? && Size(Union(true, ms)).value <= m
  {
    LaidOutIff(Union(true, ms));
    LargestLeast(ms, |ms|, m);
    AlignUpLeast(LargestSize(ms, |ms|).value, Align(Union(true, ms)).value, m);
  }

  /******* Enums *******/

  lemma {:induction false} PayloadLeast(vs: seq<Variant>, k: nat, m: nat)
    requires k <= |vs| && PayloadSize(vs, k).Some?
    requires forall i :: 0 <= i < k && vs[i].Payload? ==> Size(Tuple(vs[i].fields)).Some? && Size(Tuple(vs[i].fields)).value <= m
    ensures PayloadSize(vs, k).value <= m
    decreases k
  {
    if k > 0 {
      PayloadLeast(vs, k - 1, m);
    }
  }

  // The same for an enum: a tag of one byte, and at an offset that its
  // alignment divides the payloads, each a tuple.
  lemma EnumLeast(vs: seq<Variant>, at: nat, room: nat, m: nat)
    requires LaidOut(Enum(true, vs)) && Align(Enum(true, vs)).Some?
    requires at >= 1 && at % Align(Enum(true, vs)).value == 0 && at + room <= m && m % Align(Enum(true, vs)).value == 0
    requires forall i :: 0 <= i < |vs| && vs[i].Payload? ==>
      Size(Tuple(vs[i].fields)).Some? && Size(Tuple(vs[i].fields)).value <= room
    ensures Size(Enum(true, vs)).Some? && Size(Enum(true, vs)).value <= m
  {
    LaidOutIff(Enum(true, vs));
    PayloadLeast(vs, |vs|, room);
    var a := Align(Enum(true, vs)).value;
    AlignUpLeast(1, a, at);
    AlignUpLeast(AlignUp(1, a) + PayloadSize(vs, |vs|).value, a, m);
  }

  // An enum is aligned as its most aligned payload.
  function PayloadAligns(vs: seq<Variant>): seq<nat> {
    seq(|vs|, i requires 0 <= i < |vs| =>
      if vs[i].Payload? && Align(Tuple(vs[i].fields)).Some? then Align(Tuple(vs[i].fields)).value else 1)
  }

  lemma {:induction false} PayloadAlignLargest(vs: seq<Variant>, k: nat)
    requires k <= |vs| && PayloadAlign(vs, k).Some?
    ensures LargestOf(PayloadAlign(vs, k).value, PayloadAligns(vs)[..k])
    decreases k
  {
    if k > 0 {
      PayloadAlignLargest(vs, k - 1);
      assert PayloadAligns(vs)[..k] == PayloadAligns(vs)[..k - 1] + [VariantAlign(vs[k - 1]).value];
    }
  }

  lemma EnumAlignIs(vs: seq<Variant>)
    requires LaidOut(Enum(true, vs))
    ensures Align(Enum(true, vs)).Some? && LargestOf(Align(Enum(true, vs)).value, PayloadAligns(vs))
  {
    LaidOutIff(Enum(true, vs));
    PayloadAlignLargest(vs, |vs|);
    assert PayloadAligns(vs)[..|vs|] == PayloadAligns(vs);
  }

  // What is not declared, or has no room of its own.
  lemma Undeclared(fields: seq<Type>, vs: seq<Variant>)
    ensures Size(Enum(false, vs)) == Some(1) && Size(Union(false, fields)) == Some(1)
    ensures Size(Struct(false, fields)).None? && Align(Struct(false, fields)) == Some(1)
    ensures Align(Enum(false, vs)) == Some(1) && Align(Union(false, fields)) == Some(1)
    ensures Size(Tuple([])) == Some(0) && Size(Enum(true, [])) == Some(1)
  {
    var none: seq<Type> := [];
    assert AlignUp(0, 1) == 0 && AlignUp(1, 1) == 1;
    assert End(none, 0) == Some(0) && AlignOf(none, 0) == Some(1);
  }
}
