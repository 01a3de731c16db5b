// Decoding UTF-8 (section 3 of RFC 3629) one rune at a time, with the invalid
// byte answer of Go's utf8.DecodeRune.
module Utf8 {
  type Byte = x: int | 0 <= x < 256

  datatype Rune = Rune(code: nat, size: nat)

  const INVALID := Rune(0xFFFD, 1)

  predicate Continues(text: seq<Byte>, i: nat) {
    i < |text| && 0x80 <= text[i] <= 0xBF
  }

  // What the second byte may be after this first byte.
  predicate Second(first: Byte, second: Byte) {
    if first == 0xE0 then 0xA0 <= second <= 0xBF
    else if first == 0xED then 0x80 <= second <= 0x9F
    else if first == 0xF0 then 0x90 <= second <= 0xBF
    else if first == 0xF4 then 0x80 <= second <= 0x8F
    else 0x80 <= second <= 0xBF
  }

  function Decode(text: seq<Byte>, i: nat): (r: Rune)
    requires i < |text|
    ensures 1 <= r.size <= 4 && i + r.size <= |text|
    ensures r.code <= 0x10FFFF && !(0xD800 <= r.code < 0xE000)
    ensures text[i] < 0x80 ==> r == Rune(text[i], 1)
    ensures r.size > 1 ==> forall k :: i <= k < i + r.size ==> text[k] >= 0x80
  {
    var b: int := text[i];
    if b < 0x80 then Rune(b, 1)
    else if b < 0xC2 || b > 0xF4 || i + 1 >= |text| || !Second(b, text[i + 1]) then INVALID
    else if b < 0xE0 then Rune((b - 0xC0) * 64 + Low(text[i + 1]), 2)
    else if !Continues(text, i + 2) then INVALID
    else if b < 0xF0 then Rune((b - 0xE0) * 4096 + Low(text[i + 1]) * 64 + Low(text[i + 2]), 3)
    else if !Continues(text, i + 3) then INVALID
    else Rune((b - 0xF0) * 262144 + Low(text[i + 1]) * 4096 + Low(text[i + 2]) * 64 + Low(text[i + 3]), 4)
  }

  // The payload of a continuation byte.
  function Low(b: int): int {
    b - 0x80
  }

  // UTF-16 code units of a rune (section 2 of RFC 2781); -1 if it has none.
  function Units(code: nat): int {
    if code < 0xD800 || 0xE000 <= code < 0x10000 then 1
    else if 0x10000 <= code <= 0x10FFFF then 2
    else -1
  }

  // A rune of several bytes is read from its own bytes only.
  lemma DecodeLocal(a: seq<Byte>, i: nat, b: seq<Byte>, j: nat)
    requires i < |a| && j < |b| && Decode(a, i).size > 1
    requires var w := Decode(a, i).size; j + w <= |b| && a[i..i + w] == b[j..j + w]
    ensures Decode(b, j) == Decode(a, i)
  {
    var w := Decode(a, i).size;
    assert a[i..i + w][0] == a[i] && b[j..j + w][0] == b[j] && a[i..i + w][1] == a[i + 1] && b[j..j + w][1] == b[j + 1];
    if w > 2 {
      assert a[i..i + w][2] == a[i + 2] && b[j..j + w][2] == b[j + 2];
      if w > 3 {
        assert a[i..i + w][3] == a[i + 3] && b[j..j + w][3] == b[j + 3];
      }
    }
  }
}
