/**
 32-bit words and their bits. A word is a number below 2^32, its bits are numbered from
 the least significant one.
 */
module WordBits {

  type word = w: int | 0 <= w < 0x1_0000_0000
  type int32 = x: int | -0x8000_0000 <= x < 0x8000_0000
  // An int32 that is not negative.
  type nat31 = x: int | 0 <= x < 0x8000_0000

  // The same 32 bits, read as an unsigned and as a two's complement number.
  function Unsigned(x: int32): word
  {
    if x < 0 then x + 0x1_0000_0000 else x
  }

  function Signed(w: word): int32
  {
    if w >= 0x8000_0000 then w - 0x1_0000_0000 else w
  }

  // Bit k of w is set.
  predicate TestBit(w: nat, k: nat)
  {
    if k == 0 then w % 2 == 1 else TestBit(w / 2, k - 1)
  }

  // w with bit k set.
  function OrBit(w: nat, k: nat): nat
  {
    if k == 0 then w / 2 * 2 + 1 else 2 * OrBit(w / 2, k - 1) + w % 2
  }

  // w with bit k clear.
  function AndNotBit(w: nat, k: nat): nat
  {
    if k == 0 then w / 2 * 2 else 2 * AndNotBit(w / 2, k - 1) + w % 2
  }

  function Pow2(k: nat): (r: nat)
    ensures r > 0
  {
    if k == 0 then 1 else 2 * Pow2(k - 1)
  }

  // Bit k has the weight 2^k.
  lemma {:induction false} TestBitMeans(w: nat, k: nat)
    ensures TestBit(w, k) <==> w / Pow2(k) % 2 == 1
  {
    if k > 0 {
      TestBitMeans(w / 2, k - 1);
      HalvedFirst(w, Pow2(k - 1));
    }
  }

  lemma HalvedFirst(w: nat, p: nat)
    requires p > 0
    ensures w / 2 / p == w / (2 * p)
  {
    var h := w / 2;
    var q, r := h / p, h % p;
    assert h == q * p + r && w == (2 * p) * q + (2 * r + w % 2);
    QuotientIs(w, 2 * p, q, 2 * r + w % 2);
  }

  lemma QuotientIs(w: nat, d: nat, q: nat, r: nat)
    requires d > 0 && w == d * q + r && r < d
    ensures w / d == q
  {
    var other, rest := w / d, w % d;
    Divided(w, d);
    assert d * (other - q) == r - rest && d * (q - other) == rest - r;
    if other > q {
      AtLeast(d, other - q);
    } else if other < q {
      AtLeast(d, q - other);
    }
  }

  lemma Divided(w: nat, d: nat)
    requires d > 0
    ensures w == d * (w / d) + w % d && w % d < d
  {
  }

  lemma AtLeast(d: nat, k: nat)
    requires k > 0
    ensures d * k >= d
  {
  }

  // Setting or clearing bit k decides bit k and leaves every other bit alone.
  lemma {:induction false} UpdateBit(w: nat, k: nat, j: nat)
    ensures TestBit(OrBit(w, k), j) <==> TestBit(w, j) || j == k
    ensures TestBit(AndNotBit(w, k), j) <==> TestBit(w, j) && j != k
    decreases k
  {
    if k > 0 && j > 0 {
      assert OrBit(w, k) / 2 == OrBit(w / 2, k - 1) && AndNotBit(w, k) / 2 == AndNotBit(w / 2, k - 1);
      UpdateBit(w / 2, k - 1, j - 1);
    }
  }

  // The two updates add or remove exactly the weight of bit k.
  lemma {:induction false} UpdateWeight(w: nat, k: nat)
    ensures OrBit(w, k) == if TestBit(w, k) then w else w + Pow2(k)
    ensures AndNotBit(w, k) == if TestBit(w, k) then w - Pow2(k) else w
  {
    if k > 0 {
      UpdateWeight(w / 2, k - 1);
    }
  }

  lemma {:induction false} UpdateFits(w: nat, k: nat, n: nat)
    requires k < n && w < Pow2(n)
    ensures OrBit(w, k) < Pow2(n) && AndNotBit(w, k) < Pow2(n)
  {
    assert Pow2(n) == 2 * Pow2(n - 1);
    if k > 0 {
      UpdateFits(w / 2, k - 1, n - 1);
    }
  }

  lemma WordSize()
    ensures Pow2(32) == 0x1_0000_0000
  {
    assert Pow2(8) == 0x100 && Pow2(16) == 0x1_0000 && Pow2(24) == 0x100_0000;
  }

  // The same two updates, as operations on 32-bit words.
  function SetWordBit(w: word, k: nat): (r: word)
    requires k < 32
    ensures forall j: nat :: TestBit(r, j) <==> TestBit(w, j) || j == k
  {
    WordSize();
    UpdateFits(w, k, 32);
    assert forall j: nat :: TestBit(OrBit(w, k), j) <==> TestBit(w, j) || j == k by {
      forall j: nat { UpdateBit(w, k, j); }
    }
    OrBit(w, k)
  }

  function ClearWordBit(w: word, k: nat): (r: word)
    requires k < 32
    ensures forall j: nat :: TestBit(r, j) <==> TestBit(w, j) && j != k
  {
    WordSize();
    UpdateFits(w, k, 32);
    assert forall j: nat :: TestBit(AndNotBit(w, k), j) <==> TestBit(w, j) && j != k by {
      forall j: nat { UpdateBit(w, k, j); }
    }
    AndNotBit(w, k)
  }
}

/**
 Allocation of numbers below n, stated on the set m of those already in use.
 */
module Allocation {

  // divRoundUp of threads/utility.h, for a non-negative numerator.
  function DivRoundUp(n: nat, s: nat): (r: nat)
    requires s > 0
  {
    n / s + if n % s > 0 then 1 else 0
  }

  ghost predicate Below(m: set<int>, n: nat)
  {
    forall i <- m :: 0 <= i < n
  }

  ghost function ClearSet(m: set<int>, n: nat): set<int>
  {
    set i | 0 <= i < n && i !in m
  }

  ghost function NumClear(m: set<int>, n: nat): nat
  {
    |ClearSet(m, n)|
  }

  lemma {:induction false} RangeSize(n: nat)
    ensures |ClearSet({}, n)| == n
  {
    if n > 0 {
      RangeSize(n - 1);
      assert ClearSet({}, n) == ClearSet({}, n - 1) + {n - 1};
    }
  }

  // Numbers in use and numbers clear share the range.
  lemma UsedAndClear(m: set<int>, used: set<int>, n: nat)
    requires Below(m, n) && used <= m
    ensures |used| + NumClear(m, n) <= n
  {
    RangeSize(n);
    assert used !! ClearSet(m, n) && used + ClearSet(m, n) <= ClearSet({}, n);
    SubsetSize(used + ClearSet(m, n), ClearSet({}, n));
  }

  lemma SubsetSize(a: set<int>, b: set<int>)
    requires a <= b
    ensures |a| <= |b|
  {
    assert b == a + (b - a);
  }

  // The numbers handed out by a run of allocations; -1 stands for a failed one.
  ghost function Granted(got: seq<int>): set<int>
  {
    set x | x in got && x != -1
  }

  // got could be the results of allocations one after the other, starting from m in use:
  // each is a number clear in m and not granted before, until the clear ones run out.
  ghost predicate Allocates(m: set<int>, n: nat, got: seq<int>)
  {
    got == [] ||
    (var k := |got| - 1;
     Allocates(m, n, got[..k]) &&
     if k < NumClear(m, n) then 0 <= got[k] < n && got[k] !in m && got[k] !in got[..k] else got[k] == -1)
  }

  lemma {:induction false} AllocatedAt(m: set<int>, n: nat, got: seq<int>, k: nat)
    requires Allocates(m, n, got) && k < |got|
    ensures if k < NumClear(m, n) then 0 <= got[k] < n && got[k] !in m else got[k] == -1
  {
    if k < |got| - 1 {
      AllocatedAt(m, n, got[..|got| - 1], k);
    }
  }

  lemma {:induction false} AllocatedOnce(m: set<int>, n: nat, got: seq<int>, j: nat, k: nat)
    requires Allocates(m, n, got) && j < k < |got|
    ensures got[j] == got[k] ==> got[j] == -1
  {
    if k < |got| - 1 {
      AllocatedOnce(m, n, got[..|got| - 1], j, k);
    } else {
      assert got[j] in got[..k];
    }
  }

  lemma GrantedSnoc(got: seq<int>, r: int)
    ensures Granted(got + [r]) == Granted(got) + if r == -1 then {} else {r}
  {
  }

  lemma UseOne(m: set<int>, n: nat, x: int)
    requires 0 <= x < n && x !in m
    ensures NumClear(m + {x}, n) == NumClear(m, n) - 1
  {
    assert ClearSet(m, n) == ClearSet(m + {x}, n) + {x};
  }

  // Each successful allocation uses up one clear number.
  lemma {:induction false} ClearAfter(m: set<int>, n: nat, got: seq<int>)
    requires Allocates(m, n, got)
    ensures NumClear(m + Granted(got), n) == if |got| <= NumClear(m, n) then NumClear(m, n) - |got| else 0
  {
    if got == [] {
      assert m + Granted(got) == m;
    } else {
      var before, x := got[..|got| - 1], got[|got| - 1];
      assert got == before + [x];
      ClearAfter(m, n, before);
      ClearAfterSnoc(m, n, before, x);
    }
  }

  lemma ClearAfterSnoc(m: set<int>, n: nat, before: seq<int>, x: int)
    requires x == -1 || (0 <= x < n && x !in m && x !in before)
    ensures NumClear(m + Granted(before + [x]), n) == NumClear(m + Granted(before), n) - if x == -1 then 0 else 1
  {
    GrantedSnoc(before, x);
    if x != -1 {
      UseOne(m + Granted(before), n, x);
      assert m + Granted(before + [x]) == m + Granted(before) + {x};
    } else {
      assert Granted(before + [x]) == Granted(before);
    }
  }

  // One more allocation: it fails exactly when nothing is clear.
  lemma AllocateOne(m: set<int>, n: nat, got: seq<int>, r: int)
    requires Allocates(m, n, got)
    requires if r == -1 then ClearSet(m + Granted(got), n) == {} else 0 <= r < n && r !in m + Granted(got)
    ensures Allocates(m, n, got + [r])
  {
    ClearAfter(m, n, got);
    assert (got + [r])[..|got|] == got;
    if r != -1 {
      assert r in ClearSet(m + Granted(got), n);
    }
  }
}

/**
 The bitmap of userprog/bitmap.cc: an array of words refining a set of numbers.
 */
module BitMaps {
  import opened WordBits
  import opened Allocation

  const BITS_IN_WORD := 32

  // The numbers whose bit is set in a sequence of words.
  ghost predicate BitOn(words: seq<word>, i: int)
  {
    0 <= i < |words| * BITS_IN_WORD && TestBit(words[i / BITS_IN_WORD], i % BITS_IN_WORD)
  }

  ghost function MarkedIn(words: seq<word>, n: nat): (m: set<int>)
    ensures Below(m, n)
  {
    set i | 0 <= i < n && BitOn(words, i)
  }

  // Number i is bit i % 32 of word i / 32.
  lemma MarkedMeans(words: seq<word>, n: nat, i: int)
    requires 0 <= i < n && n <= BITS_IN_WORD * |words|
    ensures i in MarkedIn(words, n) <==> words[i / 32] / Pow2(i % 32) % 2 == 1
  {
    TestBitMeans(words[i / 32], i % 32);
  }

  class BitMap {
    const numBits: nat
    var bits: array<word>

    // What Find has returned since the last Mark or Clear, and the marks before that.
    ghost var base: set<int>
    ghost var found: seq<int>

    ghost predicate Valid()
      reads this, bits
    {
      && bits.Length == DivRoundUp(numBits, BITS_IN_WORD)
      && Allocates(base, numBits, found)
      && Marked() == base + Granted(found)
    }

    ghost function Marked(): (m: set<int>)
      reads this, bits
      ensures Below(m, numBits)
    {
      MarkedIn(bits[..], numBits)
    }

    constructor (nitems: nat)
      ensures Valid() && fresh(bits) && numBits == nitems
      ensures Marked() == {} && found == []
    {
      numBits := nitems;
      bits := new word[DivRoundUp(nitems, BITS_IN_WORD)];
      found := [];
      new;
      base := Marked();
      for i := 0 to nitems
        invariant Valid() && found == [] && fresh(bits)
        invariant forall j | 0 <= j < i :: j !in Marked()
      {
        Clear(i);
      }
    }

    method Mark(which: int)
      requires Valid() && 0 <= which < numBits
      modifies bits, `base, `found
      ensures Valid() && found == []
      ensures Marked() == old(Marked()) + {which}
    {
      var w := which / BITS_IN_WORD;
      bits[w] := SetWordBit(bits[w], which % BITS_IN_WORD);
      assert forall i :: BitOn(bits[..], i) <==> BitOn(old(bits[..]), i) || i == which;
      base, found := Marked(), [];
    }

    method Clear(which: int)
      requires Valid() && 0 <= which < numBits
      modifies bits, `base, `found
      ensures Valid() && found == []
      ensures Marked() == old(Marked()) - {which}
    {
      var w := which / BITS_IN_WORD;
      bits[w] := ClearWordBit(bits[w], which % BITS_IN_WORD);
      assert forall i :: BitOn(bits[..], i) <==> BitOn(old(bits[..]), i) && i != which;
      base, found := Marked(), [];
    }

    method Test(which: int) returns (on: bool)
      requires Valid() && 0 <= which < numBits
      ensures on <==> which in Marked()
    {
      on := TestBit(bits[which / BITS_IN_WORD], which % BITS_IN_WORD);
    }

    // Marks and returns the first clear number; -1 when every number is marked.
    method Find() returns (r: int)
      requires Valid()
      modifies bits, `base, `found
      ensures Valid() && found == old(found) + [r] && base == old(base)
      ensures -1 <= r < numBits && r !in old(Marked())
      ensures forall j | 0 <= j < (if r == -1 then numBits else r) :: j in old(Marked())
      ensures Marked() == old(Marked()) + if r == -1 then {} else {r}
    {
      ghost var m, got, b := Marked(), found, base;
      r := -1;
      for i := 0 to numBits
        invariant r == -1 && Valid() && found == got && base == b
        invariant Marked() == m
        invariant forall j | 0 <= j < i :: j in m
      {
        var on := Test(i);
        if !on {
          Mark(i);
          r := i;
          break;
        }
      }
      AllocateOne(b, numBits, got, r);
      GrantedSnoc(got, r);
      base, found := b, got + [r];
    }

    // FetchFrom, given the words read from the file.
    method Load(words: seq<word>)
      requires bits.Length == DivRoundUp(numBits, BITS_IN_WORD) == |words|
      modifies bits, `base, `found
      ensures Valid() && found == [] && bits[..] == words
    {
      for i := 0 to bits.Length
        invariant bits[..i] == words[..i]
      {
        bits[i] := words[i];
      }
      base, found := Marked(), [];
    }

    method NumberClear() returns (count: nat)
      requires Valid()
      ensures count == NumClear(Marked(), numBits)
    {
      count := 0;
      for i := 0 to numBits
        invariant count == NumClear(Marked(), i)
      {
        var on := Test(i);
        assert ClearSet(Marked(), i + 1) == ClearSet(Marked(), i) + if on then {} else {i};
        if !on {
          count := count + 1;
        }
      }
    }
  }
}
