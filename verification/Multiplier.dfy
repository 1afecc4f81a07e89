/**
 The 32 x 32 -> 64 bit multiplication of machine/mipssim.cc: shift and add, with the
 product in two unsigned words. The specification is that of MULT and MULTU in the MIPS32
 Architecture, Volume II, chapter 3.
 */
module Multiplier {
  import opened WordBits

  const WORD := 0x1_0000_0000

  // The value of a double word.
  function Double(hi: word, lo: word): nat
  {
    hi * WORD + lo
  }

  function Wrap(x: int): word
  {
    x % WORD
  }

  // Adds the low words; when their sum wraps it is less than either, and carries one into
  // the sum of the high words.
  method AddDouble(hi: word, lo: word, bHi: word, bLo: word) returns (hi1: word, lo1: word)
    requires Double(hi, lo) + Double(bHi, bLo) < WORD * WORD
    ensures Double(hi1, lo1) == Double(hi, lo) + Double(bHi, bLo)
  {
    lo1 := Wrap(lo + bLo);
    hi1 := hi;
    if lo1 < bLo {
      hi1 := Wrap(hi1 + 1);
    }
    hi1 := Wrap(hi1 + bHi);
  }

  // Shifts both words left by one; the top bit of the low word goes to the high one.
  method ShiftDouble(bHi: word, bLo: word) returns (hi1: word, lo1: word)
    requires 2 * Double(bHi, bLo) < WORD * WORD
    ensures Double(hi1, lo1) == 2 * Double(bHi, bLo)
  {
    hi1 := Wrap(2 * bHi);
    if bLo >= 0x8000_0000 {
      hi1 := hi1 + 1;
    }
    lo1 := Wrap(2 * bLo);
  }

  // Complements both words and adds one, which carries when the low word wraps to zero.
  method NegateDouble(hi: word, lo: word) returns (hi1: word, lo1: word)
    ensures Double(hi1, lo1) == if Double(hi, lo) == 0 then 0 else WORD * WORD - Double(hi, lo)
  {
    hi1, lo1 := WORD - 1 - hi, WORD - 1 - lo;
    lo1 := Wrap(lo1 + 1);
    if lo1 == 0 {
      hi1 := Wrap(hi1 + 1);
    }
  }

  // After i rounds: the first i bits of the multiplier are done.
  // w is 2^i, q what is left of the multiplier, rest what is done of it.
  ghost predicate Round(i: nat, w: nat, q: nat, rest: nat, ua: word, ub: word, product: nat, shifted: nat)
  {
    && i <= 32 && w == Pow2(i) && ua == q * w + rest && rest < w
    && product == rest * ub && shifted == ub * w
  }

  lemma Increases(x: nat, y: nat, z: nat)
    requires x <= y
    ensures x * z <= y * z
  {
    var d := y - x;
    assert y * z == x * z + d * z;
  }

  lemma Product64(x: nat, y: nat)
    requires x < WORD && y <= WORD
    ensures x * y < WORD * WORD
  {
    Increases(x, WORD - 1, y);
  }

  // A bit at the end of what is left goes to the front of what is done.
  lemma MoveBit(h: nat, bit: nat, w: nat, rest: nat, ub: nat)
    ensures (2 * h + bit) * w + rest == h * (2 * w) + (rest + bit * w)
    ensures (rest + bit * w) * ub == rest * ub + bit * (ub * w)
    ensures ub * (2 * w) == 2 * (ub * w)
  {
    assert (2 * h + bit) * w == 2 * h * w + bit * w;
    assert (bit * w) * ub == bit * (w * ub);
  }

  // One bit of the multiplier.
  lemma NextRound(i: nat, w: nat, q: nat, rest: nat, ua: word, ub: word, product: nat, shifted: nat)
    requires i < 32 && Round(i, w, q, rest, ua, ub, product, shifted)
    ensures q % 2 == 0 ==> Round(i + 1, 2 * w, q / 2, rest, ua, ub, product, 2 * shifted)
    ensures q % 2 == 1 ==> Round(i + 1, 2 * w, q / 2, rest + w, ua, ub, product + shifted, 2 * shifted)
    ensures q % 2 == 1 ==> product + shifted < WORD * WORD
    ensures 2 * shifted < WORD * WORD
  {
    MoveBit(q / 2, q % 2, w, rest, ub);
    if q % 2 == 1 {
      Increases(0, q / 2, 2 * w);
      OddRound(q / 2, w, rest, ua, ub);
    }
    ShiftFits(i + 1, 2 * w, ub);
  }

  lemma ShiftFits(i: nat, w: nat, ub: word)
    requires i <= 32 && w == Pow2(i)
    ensures ub * w < WORD * WORD
  {
    PowerBelow(i);
    Product64(ub, w);
  }

  lemma OddRound(h: nat, w: nat, rest: nat, ua: word, ub: word)
    requires ua == h * (2 * w) + (rest + 1 * w) && h * (2 * w) >= 0
    ensures rest * ub + ub * w == (rest + w) * ub < WORD * WORD
  {
    MoveBit(h, 1, w, rest, ub);
    Product64(rest + w, ub);
  }

  lemma {:induction false} PowerBelow(k: nat)
    requires k <= 32
    ensures Pow2(k) <= WORD && Pow2(k) * Pow2(32 - k) == WORD
  {
    if k == 0 {
      WordSize();
    } else {
      PowerBelow(k - 1);
      TwoAcross(Pow2(k - 1), Pow2(32 - k));
      assert Pow2(k) * 1 <= Pow2(k) * Pow2(32 - k);
    }
  }

  lemma TwoAcross(x: nat, y: nat)
    ensures 2 * x * y == x * (2 * y)
  {
  }

  // The signed operand is shifted arithmetically. Of a negative one, all that differs from
  // the unsigned shift is a multiple of the bits still to come.
  ghost predicate Shifted(i: nat, a: int, q: nat, negative: bool)
  {
    i <= 32 && q == if negative then a + Pow2(32 - i) else a
  }

  lemma NextShift(i: nat, a: int, q: nat, negative: bool)
    requires i < 32 && Shifted(i, a, q, negative)
    ensures a % 2 == q % 2 && Shifted(i + 1, a / 2, q / 2, negative)
  {
    assert Pow2(32 - i) == 2 * Pow2(31 - i);
  }

  // The loop: hi and lo end up holding the product of the operands' bits.
  method MultiplyBits(a0: int32, b: int32) returns (hi: word, lo: word)
    ensures Double(hi, lo) == Unsigned(a0) * Unsigned(b)
  {
    var a: int := a0;
    var bLo: word := Unsigned(b);
    var bHi: word := 0;
    hi, lo := 0, 0;
    ghost var w: nat := 1;
    ghost var q: nat := Unsigned(a0);
    ghost var rest: nat := 0;
    WordSize();
    for i := 0 to 32
      invariant Round(i, w, q, rest, Unsigned(a0), Unsigned(b), Double(hi, lo), Double(bHi, bLo))
      invariant Shifted(i, a, q, a0 < 0)
    {
      NextRound(i, w, q, rest, Unsigned(a0), Unsigned(b), Double(hi, lo), Double(bHi, bLo));
      NextShift(i, a, q, a0 < 0);
      if a % 2 == 1 {
        hi, lo := AddDouble(hi, lo, bHi, bLo);
        if a == 1 {
          OnlyBitLeft(i, a, q, a0);
          return;
        }
      }
      bHi, bLo := ShiftDouble(bHi, bLo);
      a := a / 2;
      rest := if q % 2 == 1 then rest + w else rest;
      w, q := 2 * w, q / 2;
    }
    NothingLeft(w, q, rest, Unsigned(a0));
  }

  lemma NothingLeft(w: nat, q: nat, rest: nat, ua: word)
    requires w == Pow2(32) && ua == q * w + rest
    ensures q == 0 && rest == ua
  {
    WordSize();
    Increases(if q == 0 then 0 else 1, q, w);
  }

  // An odd multiplier that is nothing but its last bit has no bit left.
  lemma OnlyBitLeft(i: nat, a: int, q: nat, a0: int32)
    requires i < 32 && Shifted(i, a, q, a0 < 0) && a == 1 && q * Pow2(i) <= Unsigned(a0)
    ensures q == 1
  {
    PowerBelow(i);
    OneMore(Pow2(32 - i), Pow2(i));
    assert a0 < 0 ==> q * Pow2(i) == Pow2(i) + WORD;
  }

  lemma OneMore(x: nat, y: nat)
    ensures (x + 1) * y == y * x + y
  {
  }

  // Multiplies, and leaves the product in two words: exact, and in two's complement when
  // the operands are signed. The most negative operand is its own negation.
  method Mult(a: int32, b: int32, signedArith: bool) returns (hi: int32, lo: int32)
    ensures signedArith ==> hi * WORD + Unsigned(lo) == a * b
    ensures !signedArith ==> Double(Unsigned(hi), Unsigned(lo)) == Unsigned(a) * Unsigned(b)
  {
    if a == 0 || b == 0 {
      return 0, 0;
    }
    var negative := false;
    var x, y := a, b;
    if signedArith {
      if a < 0 {
        negative := !negative;
        x := Negated(a);
      }
      if b < 0 {
        negative := !negative;
        y := Negated(b);
      }
    }
    var h, l := MultiplyBits(x, y);
    if negative {
      h, l := NegateDouble(h, l);
    }
    hi, lo := Signed(h), Signed(l);
    if signedArith {
      SignedProduct(a, b, h, l);
    }
  }

  function Magnitude(a: int): nat
  {
    if a < 0 then -a else a
  }

  // -a, on 32 bits
  function Negated(a: int32): (r: int32)
    ensures a < 0 ==> Unsigned(r) == Magnitude(a)
  {
    Signed(Wrap(-(a as int)))
  }

  // The product of two signed operands, read back from 64 bits.
  lemma SignedProduct(a: int32, b: int32, h: word, l: word)
    requires a != 0 && b != 0
    requires var magnitude := Magnitude(a) * Magnitude(b);
      Double(h, l) == if (a < 0) == (b < 0) then magnitude else WORD * WORD - magnitude
    ensures Signed(h) * WORD + l == a * b
  {
    var x, y := Magnitude(a), Magnitude(b);
    Increases(x, 0x8000_0000, y);
    Increases(y, 0x8000_0000, 0x8000_0000);
    Increases(1, x, y);
    var magnitude: int := x * y;
    assert magnitude > 0 && a * b == if (a < 0) == (b < 0) then magnitude else -magnitude;
  }
}
