// Scanning the texts of the tokens, joined by single spaces, gives the same
// tokens: a token is recognised from its own bytes, whatever stood around it.
module Rescanning {
  import opened Utf8
  import opened Lexing

  // The n bytes at i in src stand at p in out.
  predicate Copied(src: seq<Byte>, i: nat, e: nat, out: seq<Byte>, p: nat) {
    i <= e <= |src| && p + (e - i) <= |out| && src[i..e] == out[p..p + (e - i)]
  }

  // A token may end at q: the text ends there or a space follows.
  predicate Ends(out: seq<Byte>, q: nat) {
    q <= |out| && (q < |out| ==> out[q] == SPACE)
  }

  lemma CopiedAt(src: seq<Byte>, i: nat, e: nat, out: seq<Byte>, p: nat, k: nat)
    requires Copied(src, i, e, out, p) && k < e - i
    ensures i + k < |src| && p + k < |out| && src[i + k] == out[p + k]
  {
    assert src[i..e][k] == out[p..p + (e - i)][k];
  }

  lemma CopiedFrom(src: seq<Byte>, i: nat, e: nat, out: seq<Byte>, p: nat, j: nat)
    requires Copied(src, i, e, out, p) && i <= j <= e
    ensures Copied(src, j, e, out, p + (j - i)) && Copied(src, i, j, out, p) && p + (e - i) <= |out| && e <= |src|
  {
    assert src[j..e] == src[i..e][j - i..];
    assert out[p + (j - i)..p + (e - i)] == out[p..p + (e - i)][j - i..];
    assert src[i..j] == src[i..e][..j - i];
    assert out[p..p + (j - i)] == out[p..p + (e - i)][..j - i];
  }

  // A step that stays inside the copy is the same step.
  lemma NextCopied(src: seq<Byte>, i: nat, e: nat, out: seq<Byte>, p: nat)
    requires Copied(src, i, e, out, p) && i < e && Next(src, i) <= e && (src[i] == CR ==> i + 1 < e)
    ensures Next(out, p) == p + (Next(src, i) - i)
  {
    CopiedAt(src, i, e, out, p, 0);
    if src[i] == CR {
      CopiedAt(src, i, e, out, p, 1);
    }
  }

  // So is a rune, unless it is invalid.
  lemma RuneCopied(src: seq<Byte>, i: nat, e: nat, out: seq<Byte>, p: nat)
    requires Copied(src, i, e, out, p) && i < e && i + Decode(src, i).size <= e
    requires Decode(src, i).size > 1 || src[i] < 0x80
    ensures Decode(out, p) == Decode(src, i)
  {
    CopiedAt(src, i, e, out, p, 0);
    var w := Decode(src, i).size;
    if w > 1 {
      CopiedFrom(src, i, e, out, p, i + w);
      DecodeLocal(src, i, out, p);
    }
  }

  // A rune that continues an identifier is valid.
  lemma IdentRune(lx: Lexicon, src: seq<Byte>, i: nat)
    requires Sane(lx) && i < |src| && IdentContinue(lx, Decode(src, i).code)
    ensures (Decode(src, i).size > 1 || src[i] < 0x80) && src[i] != CR && NextRune(src, i) == i + Decode(src, i).size
  {
  }

  lemma SpaceIsNoIdent(lx: Lexicon, out: seq<Byte>, q: nat)
    requires Sane(lx) && Ends(out, q) && q < |out|
    ensures !IdentContinue(lx, Decode(out, q).code) && !IdentStart(lx, Decode(out, q).code)
  {
  }

  lemma {:induction false} WordEndCopied(lx: Lexicon, src: seq<Byte>, i: nat, out: seq<Byte>, p: nat)
    requires Sane(lx) && i <= |src|
    requires var e := WordEnd(lx, src, i); Copied(src, i, e, out, p) && Ends(out, p + (e - i))
    ensures WordEnd(lx, out, p) == p + (WordEnd(lx, src, i) - i)
    decreases |src| - i
  {
    hide Decode, Sane;
    var e := WordEnd(lx, src, i);
    if i == |src| || !IdentContinue(lx, Decode(src, i).code) {
      if p < |out| {
        SpaceIsNoIdent(lx, out, p);
      }
    } else {
      IdentRune(lx, src, i);
      RuneCopied(src, i, e, out, p);
      CopiedFrom(src, i, e, out, p, NextRune(src, i));
      IdentRune(lx, out, p);
      WordEndCopied(lx, src, NextRune(src, i), out, p + Decode(src, i).size);
    }
  }

  lemma {:induction false} QuotedCopied(src: seq<Byte>, i: nat, out: seq<Byte>, p: nat)
    requires i <= |src| && Quoted(src, i).Some?
    requires var e := Quoted(src, i).value; Copied(src, i, e, out, p)
    ensures Quoted(out, p) == Some(p + (Quoted(src, i).value - i))
    decreases |src| - i
  {
    hide Copied, Next;
    var e := Quoted(src, i).value;
    CopiedAt(src, i, e, out, p, 0);
    if src[i] == BACKSLASH {
      CopiedFrom(src, i, e, out, p, i + 1);
      NextCopied(src, i + 1, e, out, p + 1);
      CopiedFrom(src, i, e, out, p, Next(src, i + 1));
      QuotedCopied(src, Next(src, i + 1), out, Next(out, p + 1));
    } else if src[i] != QUOTE {
      NextCopied(src, i, e, out, p);
      CopiedFrom(src, i, e, out, p, Next(src, i));
      QuotedCopied(src, Next(src, i), out, Next(out, p));
    }
  }

  lemma {:induction false} HashesCopied(src: seq<Byte>, i: nat, e: nat, out: seq<Byte>, p: nat)
    requires i <= |src| && Copied(src, i, e, out, p) && i + Hashes(src, i) < e
    ensures Hashes(out, p) == Hashes(src, i)
    decreases |src| - i
  {
    CopiedAt(src, i, e, out, p, 0);
    if src[i] == HASH {
      CopiedFrom(src, i, e, out, p, i + 1);
      HashesCopied(src, i + 1, e, out, p + 1);
    }
  }

  lemma HashesAtCopied(src: seq<Byte>, i: nat, e: nat, out: seq<Byte>, p: nat, n: nat)
    requires Copied(src, i, e, out, p) && i + n <= e
    ensures HashesAt(src, i, n) <==> HashesAt(out, p, n)
  {
    if HashesAt(src, i, n) {
      forall k | p <= k < p + n
        ensures out[k] == HASH
      {
        CopiedAt(src, i, e, out, p, k - p);
      }
    }
    if HashesAt(out, p, n) {
      forall k | i <= k < i + n
        ensures src[k] == HASH
      {
        CopiedAt(src, i, e, out, p, k - i);
      }
    }
  }

  lemma {:induction false} RawEndCopied(src: seq<Byte>, i: nat, n: nat, out: seq<Byte>, p: nat)
    requires i <= |src| && RawEnd(src, i, n).Some?
    requires var e := RawEnd(src, i, n).value; Copied(src, i, e, out, p)
    ensures RawEnd(out, p, n) == Some(p + (RawEnd(src, i, n).value - i))
    decreases |src| - i
  {
    hide HashesAt;
    var e := RawEnd(src, i, n).value;
    CopiedAt(src, i, e, out, p, 0);
    CopiedFrom(src, i, e, out, p, i + 1);
    HashesAtCopied(src, i + 1, e, out, p + 1, n);
    if !(src[i] == QUOTE && HashesAt(src, i + 1, n)) {
      NextCopied(src, i, e, out, p);
      CopiedFrom(src, i, e, out, p, Next(src, i));
      RawEndCopied(src, Next(src, i), n, out, Next(out, p));
    }
  }

  lemma {:induction false} ToBraceCopied(src: seq<Byte>, i: nat, e: nat, out: seq<Byte>, p: nat)
    requires i <= |src| && Copied(src, i, e, out, p) && ToBrace(src, i) < e
    ensures ToBrace(out, p) == p + (ToBrace(src, i) - i)
    decreases |src| - i
  {
    CopiedAt(src, i, e, out, p, 0);
    if src[i] != RBRACE {
      NextCopied(src, i, e, out, p);
      CopiedFrom(src, i, e, out, p, Next(src, i));
      ToBraceCopied(src, Next(src, i), e, out, Next(out, p));
    }
  }

  // An invalid byte is followed by something that keeps it invalid.
  lemma InvalidCopied(src: seq<Byte>, i: nat, e: nat, out: seq<Byte>, p: nat)
    requires Copied(src, i, e, out, p) && i + 1 < e && Decode(src, i).size == 1 && src[i + 1] < 0x80
    ensures Decode(out, p).size == 1
  {
    CopiedAt(src, i, e, out, p, 0);
    CopiedAt(src, i, e, out, p, 1);
  }

  lemma CharBodyCopied(src: seq<Byte>, i: nat, e: nat, out: seq<Byte>, p: nat)
    requires i <= |src| && CharBody(src, i).Some? && CharBody(src, i).value < e
    requires Copied(src, i, e, out, p) && src[CharBody(src, i).value] == APOSTROPHE
    ensures CharBody(out, p) == Some(p + (CharBody(src, i).value - i))
  {
    hide Decode;
    CopiedAt(src, i, e, out, p, 0);
    if src[i] != BACKSLASH {
      if src[i] == CR {
        NextCopied(src, i, e, out, p);
      } else if Decode(src, i).size > 1 || src[i] < 0x80 {
        RuneCopied(src, i, e, out, p);
      } else {
        InvalidCopied(src, i, e, out, p);
      }
    } else {
      CopiedFrom(src, i, e, out, p, i + 1);
      CopiedAt(src, i, e, out, p, 1);
      EscapeCopied(src, i, e, out, p);
    }
  }

  lemma EscapeCopied(src: seq<Byte>, i: nat, e: nat, out: seq<Byte>, p: nat)
    requires i + 1 < |src| && CharBody(src, i).Some? && CharBody(src, i).value < e && src[i] == BACKSLASH
    requires Copied(src, i, e, out, p) && Copied(src, i + 1, e, out, p + 1)
    requires src[CharBody(src, i).value] == APOSTROPHE && p + 1 < |out| && out[p] == BACKSLASH && out[p + 1] == src[i + 1]
    ensures CharBody(out, p) == Some(p + (CharBody(src, i).value - i))
  {
    hide *;
    EscapeUnfold(src, i);
    var j := Next(src, i + 1);
    CopiedStep(src, i + 1, e);
    NextCopied(src, i + 1, e, out, p + 1);
    var q := Next(out, p + 1);
    CopiedFrom(src, i, e, out, p, j);
    CopiedAt(src, j, e, out, q, 0);
    EscapeUnfold(out, p);
    if src[i + 1] == LETTER_U && src[j] == LBRACE {
      CopiedFrom(src, j, e, out, q, j + 1);
      ToBraceCopied(src, j + 1, e, out, q + 1);
    }
  }

  lemma EscapeUnfold(src: seq<Byte>, i: nat)
    requires i + 1 < |src| && src[i] == BACKSLASH
    ensures var j := Next(src, i + 1);
      CharBody(src, i) ==
        if src[i + 1] == LETTER_U && j < |src| && src[j] == LBRACE
        then (var k := ToBrace(src, j + 1); if k < |src| then Some(k + 1) else Some(k))
        else Some(j)
    ensures Next(src, i + 1) <= CharBody(src, i).value
    ensures (var j := Next(src, i + 1); src[i + 1] == LETTER_U && j < |src| && src[j] == LBRACE ==> ToBrace(src, j + 1) <= CharBody(src, i).value)
  {
    hide ToBrace;
  }

  // A step that ends before e leaves room for a line feed.
  lemma CopiedStep(src: seq<Byte>, i: nat, e: nat)
    requires i < |src| && Next(src, i) < e
    ensures src[i] == CR ==> i + 1 < e
  {
  }

  lemma CharEndCopied(src: seq<Byte>, i: nat, out: seq<Byte>, p: nat)
    requires i <= |src| && CharEnd(src, i).Some?
    requires Copied(src, i, CharEnd(src, i).value, out, p)
    ensures CharEnd(out, p) == Some(p + (CharEnd(src, i).value - i))
  {
    hide CharBody;
    var e := CharEnd(src, i).value;
    CharBodyCopied(src, i, e, out, p);
    CopiedAt(src, i, e, out, p, e - 1 - i);
  }

  /******* Numbers *******/

  // The next byte of the copy, or what ends it.
  lemma PeekCopied(src: seq<Byte>, i: nat, e: nat, out: seq<Byte>, p: nat, j: nat)
    requires Copied(src, i, e, out, p) && Ends(out, p + (e - i)) && i <= j <= e
    ensures j < e ==> Peek(out, p + (j - i)) == Peek(src, j) == src[j]
    ensures j == e ==> Peek(out, p + (j - i)) == SPACE || Peek(out, p + (j - i)) == 0
  {
    if j < e {
      CopiedAt(src, i, e, out, p, j - i);
    }
  }

  lemma {:induction false} DigitsEndCopied(src: seq<Byte>, i: nat, e: nat, base: nat, out: seq<Byte>, p: nat)
    requires i <= |src| && base <= 16 && DigitsEnd(src, i, base) <= e
    requires Copied(src, i, e, out, p) && Ends(out, p + (e - i))
    ensures DigitsEnd(out, p, base) == p + (DigitsEnd(src, i, base) - i)
    decreases |src| - i
  {
    PeekCopied(src, i, e, out, p, i);
    if i < e && (src[i] == UNDERSCORE || Digit(base, src[i])) {
      CopiedFrom(src, i, e, out, p, i + 1);
      DigitsEndCopied(src, i + 1, e, base, out, p + 1);
    }
  }

  lemma SuffixEndCopied(lx: Lexicon, src: seq<Byte>, i: nat, out: seq<Byte>, p: nat)
    requires Sane(lx) && i <= |src|
    requires var e := SuffixEnd(lx, src, i); Copied(src, i, e, out, p) && Ends(out, p + (e - i))
    ensures SuffixEnd(lx, out, p) == p + (SuffixEnd(lx, src, i) - i)
  {
    hide Decode, Sane;
    var e := SuffixEnd(lx, src, i);
    if i < |src| && IdentStart(lx, Decode(src, i).code) {
      IdentRune(lx, src, i);
      assert e >= NextRune(src, i);
      RuneCopied(src, i, e, out, p);
      WordEndCopied(lx, src, i, out, p);
    } else if p < |out| {
      SpaceIsNoIdent(lx, out, p);
    }
  }

  lemma FractionEndCopied(src: seq<Byte>, i: nat, e: nat, out: seq<Byte>, p: nat)
    requires i <= |src| && FractionEnd(src, i) <= e && Copied(src, i, e, out, p) && Ends(out, p + (e - i))
    requires i < e && src[i] == DOT ==> FractionEnd(src, i) > i
    ensures FractionEnd(out, p) == p + (FractionEnd(src, i) - i)
  {
    PeekCopied(src, i, e, out, p, i);
    if i < e && src[i] == DOT {
      assert DigitsEnd(src, i + 1, 10) > i + 1;
      PeekCopied(src, i, e, out, p, i + 1);
      CopiedFrom(src, i, e, out, p, i + 1);
      DigitsEndCopied(src, i + 1, e, 10, out, p + 1);
    }
  }

  lemma ExponentEndCopied(src: seq<Byte>, i: nat, e: nat, out: seq<Byte>, p: nat)
    requires i <= |src| && ExponentEnd(src, i) <= e && Copied(src, i, e, out, p) && Ends(out, p + (e - i))
    ensures ExponentEnd(out, p) == p + (ExponentEnd(src, i) - i)
  {
    PeekCopied(src, i, e, out, p, i);
    if i < e && (src[i] == 101 || src[i] == 69) {
      PeekCopied(src, i, e, out, p, i + 1);
      var j := if Peek(src, i + 1) == PLUS || Peek(src, i + 1) == MINUS then i + 2 else i + 1;
      CopiedFrom(src, i, e, out, p, j);
      DigitsEndCopied(src, j, e, 10, out, p + (j - i));
    }
  }

  lemma NumberCopied(lx: Lexicon, src: seq<Byte>, i: nat, out: seq<Byte>, p: nat)
    requires Sane(lx) && i < |src| && Digit(10, src[i]) && p < |out| && out[p] == src[i]
    requires var e := Number(lx, src, i).end; Copied(src, i, e, out, p) && Ends(out, p + (e - i))
    ensures Number(lx, out, p) == Tok(Number(lx, src, i).kind, p + (Number(lx, src, i).end - i))
  {
    hide Decode, Sane, DigitsEnd, SuffixEnd, FractionEnd, ExponentEnd, Digit, Copied, Ends;
    var e := Number(lx, src, i).end;
    PeekCopied(src, i, e, out, p, i);
    PeekCopied(src, i, e, out, p, i + 1);
    if Prefixed(src, i) {
      var a := DigitsEnd(src, i + 2, Base(src[i + 1]));
      CopiedFrom(src, i, e, out, p, i + 2);
      DigitsEndCopied(src, i + 2, e, Base(src[i + 1]), out, p + 2);
      CopiedFrom(src, i, e, out, p, a);
      SuffixEndCopied(lx, src, a, out, p + (a - i));
    } else {
      DecimalCopied(lx, src, i, e, out, p);
    }
  }

  lemma DecimalCopied(lx: Lexicon, src: seq<Byte>, i: nat, e: nat, out: seq<Byte>, p: nat)
    requires Sane(lx) && i < |src| && Copied(src, i, e, out, p) && Ends(out, p + (e - i))
    requires e == SuffixEnd(lx, src, ExponentEnd(src, FractionEnd(src, DigitsEnd(src, i, 10))))
    ensures var a := DigitsEnd(src, i, 10); var b := FractionEnd(src, a); var c := ExponentEnd(src, b);
      var a2 := DigitsEnd(out, p, 10);
      && a2 == p + (a - i)
      && var b2 := FractionEnd(out, a2);
      && b2 == p + (b - i)
      && var c2 := ExponentEnd(out, b2);
      && c2 == p + (c - i) && SuffixEnd(lx, out, c2) == p + (e - i)
  {
    hide Decode, Sane, DigitsEnd, SuffixEnd, FractionEnd, ExponentEnd, Digit, Copied, Ends;
    var a := DigitsEnd(src, i, 10);
    var b := FractionEnd(src, a);
    var c := ExponentEnd(src, b);
    CopiedFrom(src, i, e, out, p, a);
    CopiedFrom(src, i, e, out, p, b);
    CopiedFrom(src, i, e, out, p, c);
    DigitsEndCopied(src, i, e, 10, out, p);
    DotIsTaken(lx, src, a);
    FractionEndCopied(src, a, e, out, p + (a - i));
    ExponentEndCopied(src, b, e, out, p + (b - i));
    SuffixEndCopied(lx, src, c, out, p + (c - i));
  }

  // A dot that is not the start of a fraction ends the number.
  lemma DotIsTaken(lx: Lexicon, src: seq<Byte>, a: nat)
    requires Sane(lx) && a <= |src|
    ensures a < |src| && src[a] == DOT && FractionEnd(src, a) == a ==> SuffixEnd(lx, src, ExponentEnd(src, a)) == a
  {
  }

  /******* Tokens *******/

  lemma PunctCopied(src: seq<Byte>, i: nat, out: seq<Byte>, p: nat)
    requires i < |src| && PunctLength(src, i) > 0
    requires var e := i + PunctLength(src, i); Copied(src, i, e, out, p) && Ends(out, p + (e - i))
    ensures p < |out| && PunctLength(out, p) == PunctLength(src, i)
  {
    var e := i + PunctLength(src, i);
    PeekCopied(src, i, e, out, p, i);
    PeekCopied(src, i, e, out, p, i + 1);
    if e >= i + 2 {
      PeekCopied(src, i, e, out, p, i + 2);
    }
  }

  lemma WordCopied(lx: Lexicon, src: seq<Byte>, i: nat, out: seq<Byte>, p: nat)
    requires Sane(lx) && i < |src| && IdentStart(lx, Decode(src, i).code)
    requires var e := Word(lx, src, i).end; Copied(src, i, e, out, p) && Ends(out, p + (e - i))
    ensures p < |out| && Decode(out, p) == Decode(src, i)
    ensures Word(lx, out, p) == Tok(Word(lx, src, i).kind, p + (Word(lx, src, i).end - i))
  {
    hide Decode, Sane;
    var e := Word(lx, src, i).end;
    IdentRune(lx, src, i);
    RuneCopied(src, i, e, out, p);
    var j := NextRune(src, i);
    CopiedFrom(src, i, e, out, p, j);
    IdentRune(lx, out, p);
    WordEndCopied(lx, src, j, out, p + (j - i));
  }

  lemma RawCopied(src: seq<Byte>, i: nat, out: seq<Byte>, p: nat)
    requires i < |src| && RawOpener(src, i)
    requires var n := Hashes(src, i + 1); RawEnd(src, i + 2 + n, n).Some?
    requires var n := Hashes(src, i + 1); Copied(src, i, RawEnd(src, i + 2 + n, n).value, out, p)
    ensures p < |out| && RawOpener(out, p) && Hashes(out, p + 1) == Hashes(src, i + 1)
    ensures var n := Hashes(src, i + 1); RawEnd(out, p + 2 + n, n) == Some(p + (RawEnd(src, i + 2 + n, n).value - i))
  {
    hide RawEnd, Hashes, Copied;
    var n := Hashes(src, i + 1);
    var e := RawEnd(src, i + 2 + n, n).value;
    CopiedFrom(src, i, e, out, p, i + 1);
    HashesCopied(src, i + 1, e, out, p + 1);
    CopiedAt(src, i, e, out, p, 1 + n);
    CopiedFrom(src, i, e, out, p, i + 2 + n);
    RawEndCopied(src, i + 2 + n, n, out, p + 2 + n);
  }

  // A word beginning with r or c that is no string prefix stays a word.
  lemma NotAPrefix(lx: Lexicon, src: seq<Byte>, i: nat, e: nat, out: seq<Byte>, p: nat)
    requires Sane(lx) && i < |src| && IdentStart(lx, Decode(src, i).code) && e == Word(lx, src, i).end
    requires Copied(src, i, e, out, p) && Ends(out, p + (e - i)) && p < |out|
    ensures src[i] == LETTER_C && Peek(src, i + 1) != QUOTE ==> Peek(out, p + 1) != QUOTE
    ensures src[i] == LETTER_R && !RawOpener(src, i) ==> !RawOpener(out, p)
  {
    PeekCopied(src, i, e, out, p, i + 1);
    if src[i] == LETTER_R && e > i + 1 {
      assert IdentContinue(lx, Decode(src, i + 1).code);
      assert src[i + 1] != HASH && src[i + 1] != QUOTE;
    }
  }

  // A token that begins like an identifier.
  lemma LetterCopied(lx: Lexicon, src: seq<Byte>, i: nat, out: seq<Byte>, p: nat)
    requires Sane(lx) && i < |src| && LexOne(lx, src, i).Tok? && (src[i] >= 0x80 || IdentStart(lx, src[i]))
    requires var e := LexOne(lx, src, i).end; Copied(src, i, e, out, p) && Ends(out, p + (e - i))
    ensures p < |out| && LexOne(lx, out, p) == Tok(LexOne(lx, src, i).kind, p + (LexOne(lx, src, i).end - i))
  {
    hide Decode, Sane, RawEnd, Quoted, CharEnd, Number, PunctLength, Word, RawOpener, Hashes, Copied, Ends, Digit;
    var b := src[i];
    var e := LexOne(lx, src, i).end;
    CopiedAt(src, i, e, out, p, 0);
    if b == LETTER_R && RawOpener(src, i) {
      RawCopied(src, i, out, p);
    } else if b == LETTER_C && Peek(src, i + 1) == QUOTE {
      CopiedFrom(src, i, e, out, p, i + 2);
      CopiedAt(src, i, e, out, p, 1);
      QuotedCopied(src, i + 2, out, p + 2);
    } else {
      WordCopied(lx, src, i, out, p);
      NotAPrefix(lx, src, i, e, out, p);
    }
  }

  // A token is recognised from its own bytes.
  lemma LexOneCopied(lx: Lexicon, src: seq<Byte>, i: nat, out: seq<Byte>, p: nat)
    requires Sane(lx) && i < |src| && LexOne(lx, src, i).Tok?
    requires var e := LexOne(lx, src, i).end; Copied(src, i, e, out, p) && Ends(out, p + (e - i))
    ensures p < |out| && LexOne(lx, out, p) == Tok(LexOne(lx, src, i).kind, p + (LexOne(lx, src, i).end - i))
  {
    hide Decode, Sane, RawEnd, Quoted, CharEnd, Number, PunctLength, Word, RawOpener, Hashes, Copied, Ends;
    var b := src[i];
    var e := LexOne(lx, src, i).end;
    CopiedAt(src, i, e, out, p, 0);
    if b >= 0x80 || IdentStart(lx, b) {
      LetterCopied(lx, src, i, out, p);
    } else if Digit(10, b) {
      NumberCopied(lx, src, i, out, p);
    } else if b == QUOTE {
      CopiedFrom(src, i, e, out, p, i + 1);
      QuotedCopied(src, i + 1, out, p + 1);
    } else if b == APOSTROPHE {
      CopiedFrom(src, i, e, out, p, i + 1);
      CharEndCopied(src, i + 1, out, p + 1);
    } else {
      PunctCopied(src, i, out, p);
      SameSpelling(src, i, e, out, p);
    }
  }

  lemma SameSpelling(src: seq<Byte>, i: nat, e: nat, out: seq<Byte>, p: nat)
    requires Copied(src, i, e, out, p)
    ensures p + (e - i) <= |out| && src[i..e] == out[p..p + (e - i)]
  {
  }

  /******* The whole text *******/

  function Joined(ts: seq<Token>): seq<Byte> {
    if ts == [] then [] else if |ts| == 1 then ts[0].text else ts[0].text + [SPACE] + Joined(ts[1..])
  }

  // t was found at i in src.
  ghost predicate Found(lx: Lexicon, src: seq<Byte>, i: nat, t: Token) {
    && i < |src| && !Blank(src[i]) && !CommentStart(src, i) && LexOne(lx, src, i).Tok?
    && t == Token(LexOne(lx, src, i).kind, src[i..LexOne(lx, src, i).end])
  }

  ghost predicate Lexeme(lx: Lexicon, t: Token) {
    exists src: seq<Byte>, i: nat :: Found(lx, src, i, t)
  }

  lemma {:induction false} ScanFinds(lx: Lexicon, src: seq<Byte>, i: nat)
    requires i <= |src| && ScanFrom(lx, src, i).Some?
    ensures forall k :: 0 <= k < |ScanFrom(lx, src, i).value| ==> Lexeme(lx, ScanFrom(lx, src, i).value[k])
    decreases |src| - i
  {
    hide LexOne, Lexeme;
    var j := Trivia(src, i).value;
    if j < |src| {
      var e := LexOne(lx, src, j).end;
      ScanFinds(lx, src, e);
      FoundLexeme(lx, src, j, Token(LexOne(lx, src, j).kind, src[j..e]));
    }
  }

  lemma FoundLexeme(lx: Lexicon, src: seq<Byte>, i: nat, t: Token)
    requires Found(lx, src, i, t)
    ensures Lexeme(lx, t)
  {
  }

  // Wherever it stands before a space or the end, a lexeme is found again.
  lemma LexemeAgain(lx: Lexicon, t: Token, out: seq<Byte>, p: nat)
    requires Sane(lx) && Lexeme(lx, t) && p + |t.text| <= |out| && out[p..p + |t.text|] == t.text && Ends(out, p + |t.text|)
    ensures t.text != [] && p < |out| && Trivia(out, p) == Some(p) && LexOne(lx, out, p) == Tok(t.kind, p + |t.text|)
  {
    hide LexOne, Sane;
    var src: seq<Byte>, i: nat :| Found(lx, src, i, t);
    var e := LexOne(lx, src, i).end;
    LexOneCopied(lx, src, i, out, p);
    PeekCopied(src, i, e, out, p, i);
    PeekCopied(src, i, e, out, p, i + 1);
  }

  lemma ScanToken(lx: Lexicon, out: seq<Byte>, p: nat, t: Token, q: nat)
    requires p < q <= |out| && Trivia(out, p) == Some(p) && LexOne(lx, out, p) == Tok(t.kind, q) && out[p..q] == t.text
    ensures var rest := ScanFrom(lx, out, q);
      ScanFrom(lx, out, p) == if rest.None? then None else Some([t] + rest.value)
  {
    hide LexOne;
  }

  // One space is skipped; at the end there is nothing.
  lemma ScanGap(lx: Lexicon, out: seq<Byte>, q: nat)
    requires Ends(out, q)
    ensures q < |out| ==> ScanFrom(lx, out, q) == ScanFrom(lx, out, q + 1)
    ensures q == |out| ==> ScanFrom(lx, out, q) == Some([])
  {
    hide LexOne;
  }

  lemma JoinedUnfold(ts: seq<Token>)
    ensures Joined([]) == []
    ensures |ts| == 1 ==> Joined(ts) == ts[0].text
    ensures |ts| > 1 ==> Joined(ts) == ts[0].text + [SPACE] + Joined(ts[1..])
  {
  }

  lemma EndsHere(out: seq<Byte>, q: nat)
    requires q == |out| || (q < |out| && out[q] == SPACE)
    ensures Ends(out, q)
  {
  }

  lemma {:induction false} RescanFrom(lx: Lexicon, ts: seq<Token>, before: seq<Byte>)
    requires Sane(lx) && forall k :: 0 <= k < |ts| ==> Lexeme(lx, ts[k])
    ensures ScanFrom(lx, before + Joined(ts), |before|) == Some(ts)
    decreases |ts|
  {
    hide *;
    var out := before + Joined(ts);
    var p := |before|;
    JoinedUnfold(ts);
    if ts == [] {
      EndsHere(out, p);
      ScanGap(lx, out, p);
    } else {
      var t := ts[0];
      var q := p + |t.text|;
      assert out[p..q] == t.text;
      EndsHere(out, q);
      LexemeAgain(lx, t, out, p);
      ScanToken(lx, out, p, t, q);
      ScanGap(lx, out, q);
      if |ts| == 1 {
        assert [t] + [] == ts;
      } else {
        var more := before + t.text + [SPACE];
        assert out == more + Joined(ts[1..]);
        RescanFrom(lx, ts[1..], more);
        assert [t] + ts[1..] == ts;
      }
    }
  }

  // A source that scans without diagnostics, reduced to its token texts with
  // single spaces between them, scans to the same kinds and texts.
  lemma RescanStable(lx: Lexicon, src: seq<Byte>)
    requires Sane(lx) && Scan(lx, src).Some?
    ensures Scan(lx, Joined(Scan(lx, src).value)) == Scan(lx, src)
  {
    hide LexOne, Sane;
    var ts := Scan(lx, src).value;
    ScanFinds(lx, src, 0);
    RescanFrom(lx, ts, []);
    var out := Joined(ts);
    assert [] + out == out;
    if HasBom(out) {
      NoBomToken(lx, out);
    }
  }

  // No token begins with a byte-order mark.
  lemma NoBomToken(lx: Lexicon, out: seq<Byte>)
    requires Sane(lx) && HasBom(out)
    ensures ScanFrom(lx, out, 0) == None
  {
    assert Trivia(out, 0) == Some(0);
    assert Decode(out, 0).code == 0xFEFF;
    assert LexOne(lx, out, 0) == Bad;
  }
}
