/** Bitwise AND and OR on naturals, and the few facts the driver's masks need.
    The source works on unsigned words; here a word is a `nat` with its width stated where it matters. */
module Bits {

  const U32: nat := 0x1_0000_0000
  const U64: nat := 0x1_0000_0000_0000_0000

  function Pow2(k: nat): (r: nat)
    ensures r >= 1
  {
    if k == 0 then 1 else 2 * Pow2(k - 1)
  }

  function And(a: nat, b: nat): nat {
    if a == 0 || b == 0 then 0
    else 2 * And(a / 2, b / 2) + (if a % 2 == 1 && b % 2 == 1 then 1 else 0)
  }

  function Or(a: nat, b: nat): nat
    decreases a + b
  {
    if a == 0 then b
    else if b == 0 then a
    else 2 * Or(a / 2, b / 2) + (if a % 2 == 1 || b % 2 == 1 then 1 else 0)
  }

  /** A non-zero multiple of p is at least p in size. */
  lemma MulAtLeast(d: int, p: nat)
    requires d >= 1
    ensures d * p >= p
  {
    assert d * p == (d - 1) * p + p;
    assert (d - 1) * p >= 0;
  }

  /** Quotient and remainder are determined by the division equation. */
  lemma DivModUnique(a: int, p: nat, q: int, r: nat)
    requires r < p && a == q * p + r
    ensures a / p == q && a % p == r
  {
    EuclidUnique(p, a / p, a % p, q, r);
  }

  lemma EuclidUnique(p: nat, q: int, r: nat, q': int, r': nat)
    requires r < p && r' < p && q * p + r == q' * p + r'
    ensures q == q' && r == r'
  {
    assert (q - q') * p == r' - r && (q' - q) * p == r - r';
    if q > q' {
      MulAtLeast(q - q', p);
    } else if q < q' {
      MulAtLeast(q' - q, p);
    }
  }

  lemma AndBit(a: nat, b: nat)
    ensures And(a, b) == 2 * And(a / 2, b / 2) + (if a % 2 == 1 && b % 2 == 1 then 1 else 0)
  {
  }

  lemma OrBit(a: nat, b: nat)
    ensures Or(a, b) == 2 * Or(a / 2, b / 2) + (if a % 2 == 1 || b % 2 == 1 then 1 else 0)
  {
  }

  lemma WithZero(a: nat)
    ensures And(a, 0) == 0 == And(0, a) && Or(a, 0) == a == Or(0, a)
  {
  }

  /** The word whose low k bits are those of l and whose higher bits are h. */
  function Cat(h: nat, l: nat, k: nat): nat {
    if k == 0 then h else 2 * Cat(h, l / 2, k - 1) + l % 2
  }

  lemma CatBit(h: nat, l: nat, k: nat)
    requires k > 0
    ensures Cat(h, l, k) / 2 == Cat(h, l / 2, k - 1) && Cat(h, l, k) % 2 == l % 2
    ensures Cat(h, l, k) == 2 * Cat(h, l / 2, k - 1) + l % 2
  {
  }

  lemma CatZero(h: nat, l: nat)
    ensures Cat(h, l, 0) == h
  {
  }

  lemma {:induction false} CatValue(h: nat, l: nat, k: nat)
    requires l < Pow2(k)
    ensures Cat(h, l, k) == h * Pow2(k) + l
    decreases k
  {
    if k == 0 {
    } else {
      CatValue(h, l / 2, k - 1);
      var p := Pow2(k - 1);
      assert h * (2 * p) == 2 * (h * p);
    }
  }

  lemma {:induction false} AndCat(ah: nat, al: nat, bh: nat, bl: nat, k: nat)
    ensures And(Cat(ah, al, k), Cat(bh, bl, k)) == Cat(And(ah, bh), And(al, bl), k)
    decreases k
  {
    hide And, Cat;
    if k == 0 {
      CatZero(ah, al);
      CatZero(bh, bl);
      CatZero(And(ah, bh), And(al, bl));
    } else {
      AndCat(ah, al / 2, bh, bl / 2, k - 1);
      CatBit(ah, al, k);
      CatBit(bh, bl, k);
      CatBit(And(ah, bh), And(al, bl), k);
      AndBit(Cat(ah, al, k), Cat(bh, bl, k));
      AndBit(al, bl);
    }
  }

  lemma {:induction false} OrCat(ah: nat, al: nat, bh: nat, bl: nat, k: nat)
    ensures Or(Cat(ah, al, k), Cat(bh, bl, k)) == Cat(Or(ah, bh), Or(al, bl), k)
    decreases k
  {
    hide Or, Cat;
    if k == 0 {
      CatZero(ah, al);
      CatZero(bh, bl);
      CatZero(Or(ah, bh), Or(al, bl));
    } else {
      OrCat(ah, al / 2, bh, bl / 2, k - 1);
      CatBit(ah, al, k);
      CatBit(bh, bl, k);
      CatBit(Or(ah, bh), Or(al, bl), k);
      OrBit(Cat(ah, al, k), Cat(bh, bl, k));
      OrBit(al, bl);
    }
  }

  lemma AndBound(a: nat, b: nat)
    ensures And(a, b) <= a && And(a, b) <= b
  {
  }

  lemma {:induction false} OrBound(a: nat, b: nat, k: nat)
    requires a < Pow2(k) && b < Pow2(k)
    ensures Or(a, b) < Pow2(k)
    decreases k
  {
    if k == 0 {
    } else {
      OrBound(a / 2, b / 2, k - 1);
      OrBit(a, b);
    }
  }

  /** AND works on the high and the low part of a word independently. */
  lemma AndSplit(ah: nat, al: nat, bh: nat, bl: nat, k: nat)
    requires al < Pow2(k) && bl < Pow2(k)
    ensures And(ah * Pow2(k) + al, bh * Pow2(k) + bl) == And(ah, bh) * Pow2(k) + And(al, bl)
  {
    hide And;
    AndBound(al, bl);
    CatValue(ah, al, k);
    CatValue(bh, bl, k);
    CatValue(And(ah, bh), And(al, bl), k);
    AndCat(ah, al, bh, bl, k);
  }

  /** OR works on the high and the low part of a word independently. */
  lemma OrSplit(ah: nat, al: nat, bh: nat, bl: nat, k: nat)
    requires al < Pow2(k) && bl < Pow2(k)
    ensures Or(ah * Pow2(k) + al, bh * Pow2(k) + bl) == Or(ah, bh) * Pow2(k) + Or(al, bl)
  {
    hide Or;
    OrBound(al, bl, k);
    CatValue(ah, al, k);
    CatValue(bh, bl, k);
    CatValue(Or(ah, bh), Or(al, bl), k);
    OrCat(ah, al, bh, bl, k);
  }

  /** Masking with 2^k - 1 keeps the low k bits. */
  lemma {:induction false} AndLow(h: nat, l: nat, k: nat)
    requires l < Pow2(k)
    ensures And(Cat(h, l, k), Pow2(k) - 1) == l
    decreases k
  {
    hide And, Cat;
    if k > 0 {
      var p := Pow2(k - 1);
      assert Pow2(k) == 2 * p;
      AndLow(h, l / 2, k - 1);
      CatBit(h, l, k);
      AndBit(Cat(h, l, k), 2 * p - 1);
      assert (2 * p - 1) / 2 == p - 1 && (2 * p - 1) % 2 == 1;
    } else {
      CatZero(h, l);
      WithZero(h);
    }
  }

  lemma AndLowSum(h: nat, l: nat, k: nat)
    requires l < Pow2(k)
    ensures And(h * Pow2(k) + l, Pow2(k) - 1) == l
  {
    AndLow(h, l, k);
    CatValue(h, l, k);
  }

  lemma DivModSum(x: nat, p: nat) returns (q: nat, r: nat)
    requires p > 0
    ensures q == x / p && r == x % p && x == q * p + r && r < p
  {
    q, r := x / p, x % p;
  }

  /** Masking with 2^k - 1 is the remainder modulo 2^k. */
  lemma AndMask(x: nat, k: nat)
    ensures And(x, Pow2(k) - 1) == x % Pow2(k)
  {
    var q, r := DivModSum(x, Pow2(k));
    AndLowSum(q, r, k);
  }

  // ---- the same facts at the widths the driver uses ----

  lemma Pow2At(k: nat)
    ensures k == 2 ==> Pow2(k) == 4
    ensures k == 4 ==> Pow2(k) == 0x10
    ensures k == 6 ==> Pow2(k) == 0x40
    ensures k == 8 ==> Pow2(k) == 0x100
    ensures k == 12 ==> Pow2(k) == 0x1000
    ensures k == 16 ==> Pow2(k) == 0x1_0000
    ensures k == 24 ==> Pow2(k) == 0x100_0000
    ensures k == 31 ==> Pow2(k) == 0x8000_0000
    ensures k == 32 ==> Pow2(k) == 0x1_0000_0000
  {
    assert Pow2(8) == 0x100;
    assert Pow2(16) == 0x1_0000;
    assert Pow2(24) == 0x100_0000;
    assert Pow2(32) == 0x1_0000_0000;
  }

  lemma AndMaskAt(x: nat, k: nat, p: nat)
    requires (k == 4 && p == 0x10) || (k == 6 && p == 0x40) || (k == 8 && p == 0x100) || (k == 12 && p == 0x1000)
          || (k == 24 && p == 0x100_0000) || (k == 32 && p == 0x1_0000_0000)
    ensures And(x, p - 1) == x % p
  {
    Pow2At(k);
    AndMask(x, k);
  }

  lemma AndSplitAt(ah: nat, al: nat, bh: nat, bl: nat, k: nat, p: nat)
    requires (k == 4 && p == 0x10) || (k == 8 && p == 0x100)
    requires al < p && bl < p
    ensures And(ah * p + al, bh * p + bl) == And(ah, bh) * p + And(al, bl)
  {
    Pow2At(k);
    AndSplit(ah, al, bh, bl, k);
  }

  lemma OrSplitAt(ah: nat, al: nat, bh: nat, bl: nat, k: nat, p: nat)
    requires (k == 2 && p == 4) || (k == 4 && p == 0x10) || (k == 8 && p == 0x100) || (k == 16 && p == 0x1_0000)
    requires al < p && bl < p
    ensures Or(ah * p + al, bh * p + bl) == Or(ah, bh) * p + Or(al, bl)
    ensures Or(al, bl) < p
  {
    Pow2At(k);
    OrSplit(ah, al, bh, bl, k);
    OrBound(al, bl, k);
  }

  // ---- single bits ----

  /** Bit k of x. */
  predicate Bit(x: nat, k: nat)
    decreases k
  {
    if k == 0 then x % 2 == 1 else Bit(x / 2, k - 1)
  }

  lemma {:induction false} NoBits(k: nat)
    ensures !Bit(0, k)
  {
    if k == 0 {
    } else {
      NoBits(k - 1);
    }
  }

  lemma {:induction false} BitAbove(x: nat, k: nat)
    requires x < Pow2(k)
    ensures !Bit(x, k)
    decreases k
  {
    if k == 0 {
    } else {
      BitAbove(x / 2, k - 1);
    }
  }

  /** Bit k is set in both words. */
  predicate Common(x: nat, m: nat, k: nat) { Bit(x, k) && Bit(m, k) }

  /** AND of two words is not zero exactly if they have a bit in common. */
  lemma {:induction false} AndNotZero(x: nat, m: nat)
    ensures And(x, m) != 0 <==> exists k: nat :: Common(x, m, k)
    decreases x
  {
    hide And;
    AndBit(x, m);
    if x == 0 {
      WithZero(m);
      forall k: nat ensures !Common(x, m, k) {
        NoBits(k);
      }
    } else {
      AndNotZero(x / 2, m / 2);
      if k: nat :| Common(x / 2, m / 2, k) {
        assert Common(x, m, k + 1);
      } else if x % 2 == 1 && m % 2 == 1 {
        assert Common(x, m, 0);
      } else {
        forall k: nat ensures !Common(x, m, k) {
          if k > 0 {
            assert Common(x, m, k) == Common(x / 2, m / 2, k - 1);
          }
        }
      }
    }
  }

  /** Bits of the second byte and up. */
  lemma BitOfByte(x: nat, k: nat)
    requires k >= 8
    ensures Bit(x, k) <==> Bit(x / 0x100, k - 8)
  {
    var a := x / 2 / 2 / 2 / 2;
    assert Bit(x, k) == Bit(x / 2, k - 1) == Bit(x / 2 / 2, k - 2) == Bit(x / 2 / 2 / 2, k - 3) == Bit(a, k - 4);
    assert Bit(a, k - 4) == Bit(a / 2, k - 5) == Bit(a / 2 / 2, k - 6) == Bit(a / 2 / 2 / 2, k - 7);
    assert Bit(a / 2 / 2 / 2, k - 7) == Bit(a / 2 / 2 / 2 / 2, k - 8) && a / 2 / 2 / 2 / 2 == x / 0x100;
  }

  /** A mask of one bit. */
  lemma AndOneBit(x: nat, k: nat)
    ensures And(x, Pow2(k)) != 0 <==> Bit(x, k)
  {
    hide And;
    AndNotZero(x, Pow2(k));
    if j: nat :| Common(x, Pow2(k), j) {
      OneBit(k, j);
    } else {
      OneBit(k, k);
      assert !Common(x, Pow2(k), k);
    }
  }

  lemma {:induction false} OneBit(k: nat, j: nat)
    ensures Bit(Pow2(k), j) <==> j == k
    decreases k
  {
    if k == 0 {
      if j > 0 {
        NoBits(j - 1);
      }
    } else if j == 0 {
    } else {
      OneBit(k - 1, j - 1);
    }
  }
}
