// Integer literal spellings: how the evaluator reads them, how substitution
// prints them, and that reading a printed number gives it back.
module Literals {
  import opened Integers

  /******* Reading *******/

  function WithoutUnderscores(s: string): string {
    if s == "" then ""
    else if s[0] == '_' then WithoutUnderscores(s[1..])
    else [s[0]] + WithoutUnderscores(s[1..])
  }

  predicate HasSuffix(s: string, suffix: string) {
    |suffix| <= |s| && s[|s| - |suffix|..] == suffix
  }

  const Suffixes: seq<string> :=
    ["isize", "usize", "i8", "i16", "i32", "i64", "u8", "u16", "u32", "u64", "f32", "f64"]

  // The first type suffix of the list that fits is removed.
  function WithoutSuffix(s: string, sufs: seq<string>): string {
    if sufs == [] then s
    else if HasSuffix(s, sufs[0]) then s[..|s| - |sufs[0]|]
    else WithoutSuffix(s, sufs[1..])
  }

  function DigitOf(c: char): (d: nat)
    ensures '0' <= c <= '9' ==> d < 10
  {
    if '0' <= c <= '9' then (c - '0') as nat
    else if 'a' <= c <= 'z' then (c - 'a') as nat + 10
    else if 'A' <= c <= 'Z' then (c - 'A') as nat + 10
    else 36
  }

  function Digits(s: string, base: nat): Option<nat> {
    if s == "" then Some(0)
    else
      var front := Digits(s[..|s| - 1], base);
      var d := DigitOf(s[|s| - 1]);
      if front.None? || d >= base then None else Some(front.value * base + d)
  }

  // An unsigned 64-bit number with a base prefix; a leading zero alone means
  // octal.
  function ParseUnsigned(s: string): (r: Option<nat>)
    ensures r.Some? ==> r.value < TWO64
  {
    if s == "" then None
    else
      var r :=
        if s[0] != '0' then Digits(s, 10)
        else if |s| >= 3 && (s[1] == 'b' || s[1] == 'B') then Digits(s[2..], 2)
        else if |s| >= 3 && (s[1] == 'o' || s[1] == 'O') then Digits(s[2..], 8)
        else if |s| >= 3 && (s[1] == 'x' || s[1] == 'X') then Digits(s[2..], 16)
        else Digits(s[1..], 8);
      if r.Some? && r.value < TWO64 then r else None
  }

  // A negative spelling is read as a signed 64-bit number.
  function ParseInteger(text: string): (r: Option<nat>)
    ensures r.Some? ==> r.value < TWO64
  {
    var s := WithoutSuffix(WithoutUnderscores(text), Suffixes);
    if s != "" && s[0] == '-' then
      var r := ParseUnsigned(s[1..]);
      if r.Some? && r.value <= TWO64 / 2 then Some(Word(0 - r.value)) else None
    else ParseUnsigned(s)
  }

  // A character literal between quotes: one byte, or a known escape.
  function ParseChar(text: string): Option<nat> {
    if |text| < 3 || text[0] != '\'' || text[|text| - 1] != '\'' then None
    else
      var body := text[1..|text| - 1];
      if |body| == 1 then Some(body[0] as nat)
      else if body[0] == '\\' then
        (match body[1]
         case 'n' => Some(10)
         case 't' => Some(9)
         case 'r' => Some(13)
         case '\\' => Some(92)
         case '\'' => Some(39)
         case '"' => Some(34)
         case '0' => Some(0)
         case _ => None)
      else None
  }

  /******* Printing *******/

  function DigitChar(d: nat): (c: char)
    requires d < 10
    ensures '0' <= c <= '9' && DigitOf(c) == d
    ensures d != 0 ==> c != '0'
  {
    "0123456789"[d]
  }

  predicate AllDigits(s: string) {
    forall i :: 0 <= i < |s| ==> '0' <= s[i] <= '9'
  }

  function Decimal(n: nat): (s: string)
    ensures s != "" && AllDigits(s)
    ensures n > 0 ==> s[0] != '0'
  {
    if n < 10 then [DigitChar(n)] else Decimal(n / 10) + [DigitChar(n % 10)]
  }

  /******* The round trip *******/

  lemma {:induction false} DigitsOfDecimal(n: nat)
    ensures Digits(Decimal(n), 10) == Some(n)
  {
    if n < 10 {
      assert [DigitChar(n)][..0] == "";
    } else {
      DigitsOfDecimal(n / 10);
      var s := Decimal(n);
      assert s[..|s| - 1] == Decimal(n / 10);
    }
  }

  lemma {:induction false} NoUnderscores(s: string)
    requires AllDigits(s)
    ensures WithoutUnderscores(s) == s
  {
    if s != "" {
      assert forall i :: 0 <= i < |s[1..]| ==> s[1..][i] == s[i + 1];
      NoUnderscores(s[1..]);
    }
  }

  // No suffix can end a string of digits: each begins with a letter.
  lemma {:induction false} NoSuffix(s: string, sufs: seq<string>)
    requires AllDigits(s)
    requires forall i :: 0 <= i < |sufs| ==> sufs[i] != "" && !('0' <= sufs[i][0] <= '9')
    ensures WithoutSuffix(s, sufs) == s
  {
    if sufs != [] {
      var f := sufs[0];
      if |f| <= |s| {
        assert s[|s| - |f|..][0] == s[|s| - |f|];
      }
      NoSuffix(s, sufs[1..]);
    }
  }

  lemma PrintThenRead(n: nat)
    requires n < TWO64
    ensures ParseInteger(Decimal(n)) == Some(n)
  {
    var s := Decimal(n);
    NoUnderscores(s);
    NoSuffix(s, Suffixes);
    DigitsOfDecimal(n);
    if n == 0 {
      assert s == "0" && s[1..] == "";
    }
  }

  /******* Other spellings *******/

  // Too large a number is refused.
  lemma TooLarge(n: nat)
    requires n >= TWO64
    ensures ParseInteger(Decimal(n)) == None
  {
    var s := Decimal(n);
    NoUnderscores(s);
    NoSuffix(s, Suffixes);
    DigitsOfDecimal(n);
  }

  // Negative numbers are read as signed words.
  lemma NegativeRead(n: nat)
    ensures ParseInteger("-" + Decimal(n)) == if n <= TWO64 / 2 then Some(Word(0 - n)) else None
  {
    hide *;
    var d := Decimal(n);
    NoUnderscores(d);
    DigitsOfDecimal(n);
    SignKept(d);
    SuffixLetters();
    OnlyDigits(d);
    NoSuffixOf("-" + d, Suffixes);
    NoSuffixOf(d, Suffixes);
    SignedStep("-" + d, d);
    DigitsFirst(d);
    PlainStep(d);
    if n < TWO64 {
      PrintThenRead(n);
    } else {
      TooLarge(n);
    }
    HalfWord();
  }

  lemma HalfWord()
    ensures TWO64 / 2 < TWO64
  {
  }

  lemma OnlyDigits(d: string)
    requires AllDigits(d)
    ensures forall c :: c in d ==> '0' <= c <= '9'
    ensures forall c :: c in "-" + d ==> '0' <= c <= '9' || c == '-'
  {
  }

  lemma SuffixLetters()
    ensures forall i :: 0 <= i < |Suffixes| ==> Suffixes[i] != "" && (Suffixes[i][0] == 'i' || Suffixes[i][0] == 'u' || Suffixes[i][0] == 'f')
  {
  }

  lemma SignKept(d: string)
    requires WithoutUnderscores(d) == d
    ensures WithoutUnderscores("-" + d) == "-" + d
  {
    assert ("-" + d)[1..] == d;
  }

  lemma DigitsFirst(d: string)
    requires d != "" && AllDigits(d)
    ensures d[0] != '-'
  {
  }

  lemma SignedStep(s: string, d: string)
    requires WithoutSuffix(WithoutUnderscores(s), Suffixes) == "-" + d
    ensures var r := ParseUnsigned(d);
      ParseInteger(s) == if r.Some? && r.value <= TWO64 / 2 then Some(Word(0 - r.value)) else None
  {
    hide ParseUnsigned, WithoutSuffix, WithoutUnderscores;
    assert ("-" + d)[1..] == d;
  }

  lemma PlainStep(d: string)
    requires WithoutSuffix(WithoutUnderscores(d), Suffixes) == d && d != "" && d[0] != '-'
    ensures ParseInteger(d) == ParseUnsigned(d)
  {
    hide ParseUnsigned, WithoutSuffix, WithoutUnderscores;
  }

  lemma NotSuffix(s: string, f: string)
    requires f != "" && f[0] !in s
    ensures !HasSuffix(s, f)
  {
    if |f| <= |s| {
      assert s[|s| - |f|..][0] == s[|s| - |f|];
    }
  }

  // A suffix whose first letter does not occur cannot fit.
  lemma {:induction false} NoSuffixOf(s: string, sufs: seq<string>)
    requires forall i :: 0 <= i < |sufs| ==> sufs[i] != "" && sufs[i][0] !in s
    ensures WithoutSuffix(s, sufs) == s
  {
    if sufs != [] {
      NotSuffix(s, sufs[0]);
      hide HasSuffix;
      NoSuffixOf(s, sufs[1..]);
    }
  }

  // An underscore anywhere makes no difference.
  lemma UnderscoreIgnored(a: string, b: string)
    ensures ParseInteger(a + "_" + b) == ParseInteger(a + b)
  {
    DropOne(a, b);
  }

  lemma {:induction false} DropOne(a: string, b: string)
    ensures WithoutUnderscores(a + "_" + b) == WithoutUnderscores(a + b)
  {
    if a == "" {
      assert a + "_" + b == "_" + b && ("_" + b)[1..] == b && a + b == b;
    } else {
      DropOne(a[1..], b);
      var x, y := a + "_" + b, a + b;
      assert x[0] == a[0] == y[0] && x[1..] == a[1..] + "_" + b && y[1..] == a[1..] + b;
    }
  }

  // Digits of other bases.
  function HexChar(d: nat): (c: char)
    requires d < 16
    ensures DigitOf(c) == d && ('0' <= c <= '9' || 'a' <= c <= 'f')
  {
    "0123456789abcdef"[d]
  }

  function Spelled(n: nat, base: nat): (s: string)
    requires 2 <= base <= 16
    ensures s != ""
  {
    if n < base then [HexChar(n)] else Spelled(n / base, base) + [HexChar(n % base)]
  }

  predicate DigitsBelow(s: string, base: nat) {
    forall i :: 0 <= i < |s| ==> ('0' <= s[i] <= '9' || 'a' <= s[i] <= 'f') && DigitOf(s[i]) < base
  }

  lemma {:induction false} DigitsOfSpelled(n: nat, base: nat)
    requires 2 <= base <= 16
    ensures Digits(Spelled(n, base), base) == Some(n) && DigitsBelow(Spelled(n, base), base)
  {
    hide *;
    SpelledStep(n, base);
    if n >= base {
      DigitsOfSpelled(n / base, base);
      OneMoreDigit(Spelled(n / base, base), n / base, n % base, base);
      Rebuild(n, base);
    } else {
      OneMoreDigit("", 0, n, base);
      NoDigitsYet(base);
      assert "" + [HexChar(n)] == [HexChar(n)];
    }
  }

  lemma SpelledStep(n: nat, base: nat)
    requires 2 <= base <= 16
    ensures n < base ==> Spelled(n, base) == [HexChar(n)]
    ensures n >= base ==> 0 <= n / base < n && n % base < base && Spelled(n, base) == Spelled(n / base, base) + [HexChar(n % base)]
  {
    hide HexChar;
    Rebuild(n, base);
  }

  lemma Rebuild(n: nat, base: nat)
    requires base >= 2
    ensures n / base * base + n % base == n && n % base < base && 0 <= n / base <= n
    ensures n >= base ==> n / base < n
  {
    var q, r := n / base, n % base;
    assert n == base * q + r;
    Twice(q, base);
  }

  lemma Twice(q: int, base: nat)
    requires base >= 2 && q >= 0
    ensures base * q >= 2 * q
  {
  }

  lemma NoDigitsYet(base: nat)
    ensures Digits("", base) == Some(0) && DigitsBelow("", base)
  {
  }

  lemma OneMoreDigit(front: string, v: nat, d: nat, base: nat)
    requires 2 <= base <= 16 && d < base && (front == "" ==> v == 0)
    requires front == "" || (Digits(front, base) == Some(v) && DigitsBelow(front, base))
    ensures Digits(front + [HexChar(d)], base) == Some(v * base + d) && DigitsBelow(front + [HexChar(d)], base)
  {
    hide HexChar;
    var s := front + [HexChar(d)];
    assert s[..|s| - 1] == front && s[|s| - 1] == HexChar(d);
  }

  predicate Marks(c: char, base: nat) {
    || (base == 2 && (c == 'b' || c == 'B'))
    || (base == 8 && (c == 'o' || c == 'O'))
    || (base == 16 && (c == 'x' || c == 'X'))
  }

  // Binary and octal spellings are read back.
  lemma BinaryOctalRead(n: nat, base: nat, c: char)
    requires Marks(c, base) && base < 16 && n < TWO64
    ensures ParseInteger(['0', c] + Spelled(n, base)) == Some(n)
  {
    hide WithoutSuffix, WithoutUnderscores, Spelled, Digits;
    var d := Spelled(n, base);
    var s := ['0', c] + d;
    DigitsOfSpelled(n, base);
    PrefixKept(d, c);
    LowLetters(d, base, c);
    NoSuffixOf(s, Suffixes);
    assert s[2..] == d;
  }

  lemma LowLetters(d: string, base: nat, c: char)
    requires DigitsBelow(d, base) && base <= 8 && c in "bBoO"
    ensures var s := ['0', c] + d; forall i :: 0 <= i < |s| ==> s[i] != 'i' && s[i] != 'u' && s[i] != 'f'
  {
    var s := ['0', c] + d;
    forall i | 0 <= i < |s|
      ensures s[i] != 'i' && s[i] != 'u' && s[i] != 'f'
    {
      if i >= 2 {
        assert s[i] == d[i - 2];
      }
    }
  }

  lemma {:induction false} NoUnderscore(s: string)
    requires '_' !in s
    ensures WithoutUnderscores(s) == s
  {
    if s != "" {
      NoUnderscore(s[1..]);
    }
  }

  lemma PrefixKept(d: string, c: char)
    requires DigitsBelow(d, 16) && (Marks(c, 2) || Marks(c, 8) || Marks(c, 16))
    ensures WithoutUnderscores(['0', c] + d) == ['0', c] + d
  {
    NoUnderscore(['0', c] + d);
  }

  // n ends, in hexadecimal, in what looks like a float suffix.
  predicate LooksFloat(n: nat) {
    n % 4096 == 0xf32 || n % 4096 == 0xf64
  }

  // A hexadecimal spelling is read back exactly unless it ends so: 0xf32 is
  // refused and 0x1f64 is read as one.
  lemma HexadecimalReadIff(n: nat, c: char)
    requires Marks(c, 16) && n < TWO64
    ensures ParseInteger(['0', c] + Spelled(n, 16)) == Some(n) <==> !LooksFloat(n)
  {
    hide *;
    var s := ['0', c] + Spelled(n, 16);
    DigitsOfSpelled(n, 16);
    PrefixKept(Spelled(n, 16), c);
    HexSuffix(n, c);
    ParseUnsignedSpelling(s);
    ReadPrefixed(n, c);
    if LooksFloat(n) {
      LooksPositive(n);
      if n < 4096 {
        assert ['0', c] + "" == ['0', c];
        NoDigits(c);
      } else {
        ReadPrefixed(n / 4096, c);
      }
    }
  }

  lemma ParseUnsignedSpelling(s: string)
    requires WithoutUnderscores(s) == s
    ensures var t := WithoutSuffix(s, Suffixes);
      t != "" && t[0] != '-' ==> ParseInteger(s) == ParseUnsigned(t)
  {
    hide WithoutSuffix, WithoutUnderscores, ParseUnsigned;
  }

  lemma LooksPositive(n: nat)
    requires LooksFloat(n)
    ensures n > 0 && n / 4096 < n
  {
  }

  lemma NoDigits(c: char)
    requires Marks(c, 16)
    ensures ParseUnsigned(['0', c]) == None
  {
    assert ['0', c][1..] == [c] && [c][..0] == "";
    assert Digits([c], 8) == None;
  }

  lemma ReadPrefixed(n: nat, c: char)
    requires Marks(c, 16) && n < TWO64
    ensures ParseUnsigned(['0', c] + Spelled(n, 16)) == Some(n)
  {
    var s := ['0', c] + Spelled(n, 16);
    DigitsOfSpelled(n, 16);
    assert s[2..] == Spelled(n, 16);
  }

  // The last three digits.
  lemma HexTail(n: nat)
    ensures n >= 4096 ==>
      Spelled(n, 16) == Spelled(n / 4096, 16) + [HexChar(n / 256 % 16), HexChar(n / 16 % 16), HexChar(n % 16)]
    ensures 256 <= n < 4096 ==> Spelled(n, 16) == [HexChar(n / 256 % 16), HexChar(n / 16 % 16), HexChar(n % 16)]
    ensures n < 256 ==> |Spelled(n, 16)| <= 2
  {
    hide HexChar;
    var m := n / 16;
    if n >= 256 {
      assert m / 16 == n / 256;
      assert Spelled(n, 16) == Spelled(m, 16) + [HexChar(n % 16)];
      assert Spelled(m, 16) == Spelled(m / 16, 16) + [HexChar(m % 16)];
      var k := n / 256;
      if n >= 4096 {
        assert k / 16 == n / 4096;
        assert Spelled(k, 16) == Spelled(k / 16, 16) + [HexChar(k % 16)];
      } else {
        assert k % 16 == k && Spelled(k, 16) == [HexChar(k)];
      }
    } else if n >= 16 {
      assert Spelled(n, 16) == Spelled(m, 16) + [HexChar(n % 16)];
      assert Spelled(m, 16) == [HexChar(m)];
    }
  }

  lemma Nibbles(n: nat)
    ensures n % 4096 == n / 256 % 16 * 256 + n / 16 % 16 * 16 + n % 16
  {
    var k := n / 16;
    var m := k / 16;
    assert m == n / 256;
    var r := m % 16 * 256 + k % 16 * 16 + n % 16;
    assert n == m / 16 * 4096 + r;
    DivModUnique(n, m / 16, r, 4096);
  }

  lemma FloatChars()
    ensures "f32" == [HexChar(15), HexChar(3), HexChar(2)] && "f64" == [HexChar(15), HexChar(6), HexChar(4)]
  {
  }

  lemma SameTail(a: nat, b: nat, e: nat, x: nat, y: nat, z: nat)
    requires a < 16 && b < 16 && e < 16 && x < 16 && y < 16 && z < 16
    ensures [HexChar(a), HexChar(b), HexChar(e)] == [HexChar(x), HexChar(y), HexChar(z)] <==> a == x && b == y && e == z
  {
    hide HexChar;
    var s, t := [HexChar(a), HexChar(b), HexChar(e)], [HexChar(x), HexChar(y), HexChar(z)];
    if s == t {
      assert s[0] == t[0] && s[1] == t[1] && s[2] == t[2];
    }
  }

  lemma HexEnds(n: nat, c: char)
    requires Marks(c, 16)
    ensures var s := ['0', c] + Spelled(n, 16);
      && (HasSuffix(s, "f32") <==> n % 4096 == 0xf32)
      && (HasSuffix(s, "f64") <==> n % 4096 == 0xf64)
    ensures LooksFloat(n) ==>
      var s := ['0', c] + Spelled(n, 16);
      s[..|s| - 3] == ['0', c] + if n < 4096 then "" else Spelled(n / 4096, 16)
  {
    hide *;
    var s := ['0', c] + Spelled(n, 16);
    HexTail(n);
    FloatNibbles(n);
    FloatChars();
    if n >= 256 {
      var a, b, e := n / 256 % 16, n / 16 % 16, n % 16;
      SameTail(a, b, e, 15, 3, 2);
      SameTail(a, b, e, 15, 6, 4);
      var front := ['0', c] + if n < 4096 then "" else Spelled(n / 4096, 16);
      var tail := [HexChar(a), HexChar(b), HexChar(e)];
      assert s == front + tail;
      EndsIn(front, tail, "f32");
      EndsIn(front, tail, "f64");
    } else {
      ShortEnds(c, Spelled(n, 16));
    }
  }

  lemma EndsIn(front: string, tail: string, f: string)
    requires |tail| == |f|
    ensures HasSuffix(front + tail, f) <==> tail == f
    ensures (front + tail)[..|front + tail| - |tail|] == front
  {
    assert (front + tail)[|front|..] == tail;
  }

  // Two digits and the mark are too few.
  lemma ShortEnds(c: char, d: string)
    requires Marks(c, 16) && |d| <= 2
    ensures !HasSuffix(['0', c] + d, "f32") && !HasSuffix(['0', c] + d, "f64")
  {
    var s := ['0', c] + d;
    if |s| >= 3 {
      assert s[|s| - 3..][0] == s[|s| - 3];
    }
  }

  lemma FloatNibbles(n: nat)
    ensures var a, b, e := n / 256 % 16, n / 16 % 16, n % 16;
      && (n % 4096 == 0xf32 <==> a == 15 && b == 3 && e == 2)
      && (n % 4096 == 0xf64 <==> a == 15 && b == 6 && e == 4)
    ensures LooksFloat(n) ==> n >= 256
  {
    Nibbles(n);
    Weighted(n / 256 % 16, n / 16 % 16, n % 16);
  }

  lemma Weighted(a: nat, b: nat, e: nat)
    requires a < 16 && b < 16 && e < 16
    ensures a * 256 + b * 16 + e == 0xf32 <==> a == 15 && b == 3 && e == 2
    ensures a * 256 + b * 16 + e == 0xf64 <==> a == 15 && b == 6 && e == 4
  {
  }

  lemma HexSuffix(n: nat, c: char)
    requires Marks(c, 16)
    ensures var s := ['0', c] + Spelled(n, 16);
      WithoutSuffix(s, Suffixes) ==
        if LooksFloat(n) then ['0', c] + (if n < 4096 then "" else Spelled(n / 4096, 16)) else s
  {
    var s := ['0', c] + Spelled(n, 16);
    DigitsOfSpelled(n, 16);
    HexEnds(n, c);
    hide Spelled, WithoutSuffix, HasSuffix;
    assert forall i :: 0 <= i < |s| ==> s[i] != 'i' && s[i] != 'u';
    IntegerSuffixes(s);
  }

  lemma SuffixList()
    ensures |Suffixes| == 12 && Suffixes[10..] == ["f32", "f64"]
    ensures forall i :: 0 <= i < 10 ==> Suffixes[i] != "" && (Suffixes[i][0] == 'i' || Suffixes[i][0] == 'u')
  {
  }

  // Without i and u only the float suffixes can fit.
  lemma IntegerSuffixes(s: string)
    requires forall i :: 0 <= i < |s| ==> s[i] != 'i' && s[i] != 'u'
    ensures WithoutSuffix(s, Suffixes) == if HasSuffix(s, "f32") || HasSuffix(s, "f64") then s[..|s| - 3] else s
  {
    hide *;
    SuffixList();
    SkipSuffixes(s, Suffixes, 10);
    TwoSuffixes(s, "f32", "f64");
  }

  lemma TwoSuffixes(s: string, f: string, g: string)
    requires |f| == |g|
    ensures WithoutSuffix(s, [f, g]) == if HasSuffix(s, f) || HasSuffix(s, g) then s[..|s| - |f|] else s
  {
    var two := [f, g];
    assert two[1..] == [g] && [g][1..] == [];
    assert WithoutSuffix(s, [g][1..]) == s;
    assert WithoutSuffix(s, [g]) == if HasSuffix(s, g) then s[..|s| - |g|] else s;
    assert WithoutSuffix(s, two) == if HasSuffix(s, f) then s[..|s| - |f|] else WithoutSuffix(s, [g]);
  }

  lemma {:induction false} SkipSuffixes(s: string, sufs: seq<string>, k: nat)
    requires k <= |sufs| && forall i :: 0 <= i < |s| ==> s[i] != 'i' && s[i] != 'u'
    requires forall i :: 0 <= i < k ==> sufs[i] != "" && (sufs[i][0] == 'i' || sufs[i][0] == 'u')
    ensures WithoutSuffix(s, sufs) == WithoutSuffix(s, sufs[k..])
    decreases k
  {
    if k == 0 {
      assert sufs[0..] == sufs;
    } else {
      NotSuffix(s, sufs[0]);
      SkipSuffixes(s, sufs[1..], k - 1);
      assert sufs[1..][k - 1..] == sufs[k..];
    }
  }

  // A type suffix of a decimal spelling makes no difference.
  lemma SuffixIgnored(n: nat, k: nat)
    requires k < |Suffixes|
    ensures ParseInteger(Decimal(n) + Suffixes[k]) == ParseInteger(Decimal(n))
  {
    var d := Decimal(n);
    var s := d + Suffixes[k];
    NoUnderscores(d);
    NoSuffix(d, Suffixes);
    assert '_' !in s;
    NoUnderscore(s);
    OwnSuffix(d, k, 0);
    assert Suffixes[0..] == Suffixes;
  }

  lemma {:induction false} OwnSuffix(d: string, k: nat, i: nat)
    requires AllDigits(d) && i <= k < |Suffixes|
    ensures WithoutSuffix(d + Suffixes[k], Suffixes[i..]) == d
    decreases k - i
  {
    var s := d + Suffixes[k];
    if i == k {
      assert s[|s| - |Suffixes[k]|..] == Suffixes[k] && s[..|s| - |Suffixes[k]|] == d;
    } else {
      OtherSuffix(d, i, k);
      assert Suffixes[i..][1..] == Suffixes[i + 1..];
      OwnSuffix(d, k, i + 1);
    }
  }

  // Of the suffixes none ends another, and none continues digits.
  lemma OtherSuffix(d: string, i: nat, k: nat)
    requires AllDigits(d) && i < k < |Suffixes|
    ensures !HasSuffix(d + Suffixes[k], Suffixes[i])
  {
    hide *;
    SuffixShape(i);
    SuffixShape(k);
    ShapesDiffer(i, k);
    NotEnding(d, Suffixes[k], Suffixes[i]);
  }

  datatype Shape = Shape(size: nat, first: char, before: char, last: char)

  // Size, first letter and last two characters of each suffix.
  function ShapeOf(i: nat): Shape {
    match i
    case 0 => Shape(5, 'i', 'z', 'e')
    case 1 => Shape(5, 'u', 'z', 'e')
    case 2 => Shape(2, 'i', 'i', '8')
    case 3 => Shape(3, 'i', '1', '6')
    case 4 => Shape(3, 'i', '3', '2')
    case 5 => Shape(3, 'i', '6', '4')
    case 6 => Shape(2, 'u', 'u', '8')
    case 7 => Shape(3, 'u', '1', '6')
    case 8 => Shape(3, 'u', '3', '2')
    case 9 => Shape(3, 'u', '6', '4')
    case 10 => Shape(3, 'f', '3', '2')
    case _ => Shape(3, 'f', '6', '4')
  }

  predicate HasShape(s: string, h: Shape) {
    h.size >= 2 && |s| == h.size && s[0] == h.first && s[|s| - 2] == h.before && s[|s| - 1] == h.last
  }

  lemma SuffixShape(i: nat)
    requires i < |Suffixes|
    ensures i < 12 && HasShape(Suffixes[i], ShapeOf(i)) && ShapeOf(i).first in {'i', 'u', 'f'}
  {
  }

  lemma ShapesDiffer(i: nat, k: nat)
    requires i < k < 12
    ensures var b, a := ShapeOf(i), ShapeOf(k);
      b.size > a.size || b.before != a.before || b.last != a.last || (b.size == a.size && b.first != a.first)
  {
  }

  lemma NotEnding(d: string, a: string, b: string)
    requires AllDigits(d) && |a| >= 2 && |b| >= 2 && !('0' <= b[0] <= '9')
    requires |b| > |a| || b[|b| - 2] != a[|a| - 2] || b[|b| - 1] != a[|a| - 1] || (|b| == |a| && b[0] != a[0])
    ensures !HasSuffix(d + a, b)
  {
    var s := d + a;
    if |b| <= |s| {
      var tail := s[|s| - |b|..];
      assert tail[|b| - 1] == a[|a| - 1] && tail[|b| - 2] == a[|a| - 2];
      if |b| > |a| {
        assert tail[0] == d[|d| + |a| - |b|];
      } else {
        assert tail[0] == a[|a| - |b|];
      }
    }
  }

  // A character literal is its one byte, or the byte its escape stands for.
  lemma CharactersRead(c: char)
    ensures ParseChar(['\'', c, '\'']) == Some(c as nat)
    ensures ParseChar(['\'', '\\', c, '\'']) ==
      if c == 'n' then Some(10) else if c == 't' then Some(9) else if c == 'r' then Some(13) else if c == '0' then Some(0)
      else if c == '\\' || c == '\'' || c == '"' then Some(c as nat) else None
  {
    assert ['\'', c, '\''][1..2] == [c];
    assert ['\'', '\\', c, '\''][1..3] == ['\\', c];
  }
}
