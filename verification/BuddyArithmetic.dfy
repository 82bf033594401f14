/** Powers of two, alignment, and the XOR that finds a buddy. Everything is stated by recursion
    on the order, one bit at a time. */
module BuddyArithmetic {
  import Arithmetic

  function Pow2(o: nat): (p: nat)
    ensures p >= 1
  {
    if o == 0 then 1 else 2 * Pow2(o - 1)
  }

  /** The low `o` bits of x are zero. */
  predicate Aligned(x: int, o: nat)
    decreases o
  {
    o == 0 || (x % 2 == 0 && Aligned(x / 2, o - 1))
  }

  /** C's `<<` and `>>` without overflow. */
  function Shl(x: nat, k: nat): nat {
    if k == 0 then x else 2 * Shl(x, k - 1)
  }

  function Shr(x: nat, k: nat): nat {
    if k == 0 then x else Shr(x / 2, k - 1)
  }

  /** C's `^` on unsigned words, bit by bit. */
  function BitXor(a: nat, b: nat): nat
    decreases a + b
  {
    if a == 0 && b == 0 then 0 else (a + b) % 2 + 2 * BitXor(a / 2, b / 2)
  }

  /** The other half of the block of order o + 1 around the block of order o at x. */
  function Buddy(x: int, o: nat): int {
    if Aligned(x, o + 1) then x + Pow2(o) else x - Pow2(o)
  }

  lemma {:induction false} AlignedIsMod(x: nat, o: nat)
    ensures Aligned(x, o) <==> x % Pow2(o) == 0
  {
    if o > 0 {
      AlignedIsMod(x / 2, o - 1);
      ModDouble(x, Pow2(o - 1));
    }
  }

  lemma ModDouble(x: nat, p: nat)
    requires p >= 1
    ensures x % (2 * p) == 2 * ((x / 2) % p) + x % 2
  {
    var q, r := x / 2 / p, x / 2 % p;
    assert x / 2 == q * p + r;
    assert q * (2 * p) == 2 * (q * p);
    Arithmetic.DivUnique(x, 2 * p, q, 2 * r + x % 2);
  }

  lemma {:induction false} Pow2Mono(o: nat, p: nat)
    requires o <= p
    ensures Pow2(o) <= Pow2(p)
    ensures o < p ==> 2 * Pow2(o) <= Pow2(p)
  {
    if o < p { Pow2Mono(o, p - 1); }
  }

  lemma {:induction false} AlignedPow2(o: nat, p: nat)
    requires o <= p
    ensures Aligned(Pow2(p), o) && Aligned(0, o)
  {
    if o > 0 {
      AlignedPow2(o - 1, p - 1);
      var q := Pow2(p - 1);
      assert Pow2(p) == 2 * q && 2 * q / 2 == q && 2 * q % 2 == 0;
    }
  }

  lemma {:induction false} AlignedLess(x: nat, o: nat, p: nat)
    requires o <= p && Aligned(x, p)
    ensures Aligned(x, o)
  {
    if o > 0 { AlignedLess(x / 2, o - 1, p - 1); }
  }

  lemma {:induction false} AlignedAdd(x: nat, y: nat, o: nat)
    requires Aligned(x, o) && Aligned(y, o)
    ensures Aligned(x + y, o) && (x >= y ==> Aligned(x - y, o))
  {
    if o > 0 { AlignedAdd(x / 2, y / 2, o - 1); }
  }

  /** Different multiples of 2^o are at least 2^o apart. */
  lemma {:induction false} AlignedGap(x: nat, y: nat, o: nat)
    requires Aligned(x, o) && Aligned(y, o) && x < y
    ensures x + Pow2(o) <= y
  {
    if o > 0 { AlignedGap(x / 2, y / 2, o - 1); }
  }

  /** Of a block and its buddy, exactly the lower one is aligned to the next order, and it is the
      one whose buddy lies above. */
  lemma {:induction false} Halves(x: nat, o: nat)
    requires Aligned(x, o)
    ensures Aligned(x, o + 1) ==> !Aligned(x + Pow2(o), o + 1)
    ensures !Aligned(x, o + 1) ==> x >= Pow2(o) && Aligned(x - Pow2(o), o + 1)
  {
    if o > 0 {
      Halves(x / 2, o - 1);
      if !Aligned(x, o + 1) {
        var y: nat := x - Pow2(o);
        assert y % 2 == 0 && y / 2 == x / 2 - Pow2(o - 1);
        assert Aligned(y / 2, o);
      }
    } else {
      assert Aligned(x, 1) <==> x % 2 == 0;
      assert x % 2 == 1 ==> Aligned(x - 1, 1);
    }
  }

  lemma {:induction false} XorZero(x: nat)
    ensures BitXor(x, 0) == x
  {
    if x > 0 { XorZero(x / 2); }
  }

  /** `off ^ bsz` flips the one bit that tells a block from its buddy. */
  lemma {:induction false} XorIsBuddy(x: nat, o: nat)
    requires Aligned(x, o)
    ensures BitXor(x, Pow2(o)) == Buddy(x, o)
  {
    if o == 0 {
      XorZero(x / 2);
      assert Aligned(x, 1) <==> x % 2 == 0;
    } else {
      var y, q := x / 2, Pow2(o - 1);
      XorIsBuddy(y, o - 1);
      XorDouble(y, q);
      assert x == 2 * y && Pow2(o) == 2 * q;
      assert Aligned(x, o + 1) <==> Aligned(y, o);
    }
  }

  lemma {:induction false} ShlOne(o: nat)
    ensures Shl(1, o) == Pow2(o)
  {
    if o > 0 { ShlOne(o - 1); }
  }

  lemma {:induction false} ShrShl(x: nat, k: nat)
    ensures Shr(Shl(x, k), k) == x
  {
    if k > 0 {
      assert Shl(x, k) / 2 == Shl(x, k - 1);
      ShrShl(x, k - 1);
    }
  }

  lemma {:induction false} ShlAdd(x: nat, y: nat, k: nat)
    ensures Shl(x + y, k) == Shl(x, k) + Shl(y, k)
  {
    if k > 0 { ShlAdd(x, y, k - 1); }
  }

  /** Shifting both operands shifts the result: the XOR of byte offsets is the XOR of page
      numbers, in bytes. */
  lemma {:induction false} XorShift(a: nat, b: nat, k: nat)
    ensures BitXor(Shl(a, k), Shl(b, k)) == Shl(BitXor(a, b), k)
  {
    if k > 0 {
      XorShift(a, b, k - 1);
      XorDouble(Shl(a, k - 1), Shl(b, k - 1));
    }
  }

  lemma XorDouble(a: nat, b: nat)
    ensures BitXor(2 * a, 2 * b) == 2 * BitXor(a, b)
  {
    assert 2 * a / 2 == a && 2 * b / 2 == b;
  }

  /** What the merge loop relies on for a block inside an arena of 2^K pages: its buddy is inside
      too, is aligned the same way and has the block as its own buddy; together they are one
      block of the next order. */
  lemma BuddyBlock(x: nat, o: nat, K: nat)
    requires Aligned(x, o) && o < K && x + Pow2(o) <= Pow2(K)
    ensures var c := Buddy(x, o);
      && 0 <= c && c + Pow2(o) <= Pow2(K) && Aligned(c, o) && c != x && Buddy(c, o) == x
      && var lo := if c < x then c else x; Aligned(lo, o + 1) && lo + Pow2(o + 1) <= Pow2(K)
  {
    Halves(x, o);
    AlignedPow2(o, o);
    AlignedPow2(o + 1, K);
    AlignedAdd(x, Pow2(o), o);
    var lo := if Aligned(x, o + 1) then x else x - Pow2(o);
    AlignedLess(lo, o, o + 1);
    Halves(lo, o);
    AlignedGap(lo, Pow2(K), o + 1);
  }

  lemma HalfBlock(x: nat, o: nat)
    requires Aligned(x, o + 1)
    ensures Aligned(x, o) && Aligned(x + Pow2(o), o) && Pow2(o + 1) == 2 * Pow2(o)
  {
    AlignedLess(x, o, o + 1);
    AlignedPow2(o, o);
    AlignedAdd(x, Pow2(o), o);
  }
}
