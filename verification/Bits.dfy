/** Unsigned C arithmetic on bits, over unbounded naturals: masks, shifts, single bits. */
module Bits {
  type byte = x: int | 0 <= x < 256

  function Pow2(k: nat): (p: nat)
    ensures p >= 1
  {
    if k == 0 then 1 else 2 * Pow2(k - 1)
  }

  /** The C operator `a & b`. */
  function And(a: nat, b: nat): nat
  {
    if a == 0 || b == 0 then 0
    else 2 * And(a / 2, b / 2) + (if a % 2 == 1 && b % 2 == 1 then 1 else 0)
  }

  /** The C operator `a | b`. */
  function Or(a: nat, b: nat): nat
    decreases a + b
  {
    if a == 0 then b
    else if b == 0 then a
    else 2 * Or(a / 2, b / 2) + (if a % 2 == 1 || b % 2 == 1 then 1 else 0)
  }

  /** The C operator `a >> k`. */
  function Shr(a: nat, k: nat): nat
  {
    if k == 0 then a else Shr(a / 2, k - 1)
  }

  /** Bit `i` of `n`, counted from the least significant bit. */
  predicate Bit(n: nat, i: nat)
  {
    if i == 0 then n % 2 == 1 else Bit(n / 2, i - 1)
  }

  lemma MulStep(d: nat, a: int, b: int)
    ensures a < b ==> d * a + d <= d * b
  {
    if a < b {
      var k: nat := b - a - 1;
      assert d * k >= 0;
      assert d * b == d * (a + 1 + k) == d * a + d + d * k;
    }
  }

  lemma DivModUnique(n: nat, d: nat, q: nat, r: nat)
    requires r < d && n == d * q + r
    ensures n / d == q && n % d == r
  {
    var q', r' := n / d, n % d;
    assert n == d * q' + r' && 0 <= r' < d;
    MulStep(d, q, q');
    MulStep(d, q', q);
  }

  /** Halving a dividend and an even divisor: n mod 2d is made of n's last bit and (n / 2) mod d. */
  lemma ModDouble(n: nat, d: nat)
    requires d > 0
    ensures n % (2 * d) == 2 * (n / 2 % d) + n % 2
    ensures n / (2 * d) == n / 2 / d
  {
    var h := n / 2;
    var q, m := h / d, h % d;
    assert h == d * q + m;
    assert n == (2 * d) * q + (2 * m + n % 2) by {
      assert n == 2 * h + n % 2;
      assert 2 * (d * q) == (2 * d) * q;
    }
    DivModUnique(n, 2 * d, q, 2 * m + n % 2);
  }

  lemma ModSplit(n: nat, p: nat)
    requires p > 0
    ensures n % (2 * p) == n % p || n % (2 * p) == n % p + p
  {
    var q, r := n / p, n % p;
    var t := q / 2;
    assert n == p * q + r;
    if q == 2 * t {
      TwiceTimes(p, t);
      DivModUnique(n, 2 * p, t, r);
    } else {
      assert q == 2 * t + 1;
      TwiceTimes(p, t);
      DivModUnique(n, 2 * p, t, p + r);
    }
  }

  lemma TwiceTimes(p: nat, t: nat)
    ensures p * (2 * t) == (2 * p) * t && p * (2 * t + 1) == (2 * p) * t + p
  {
  }

  lemma {:induction false} ShrIsDiv(a: nat, k: nat)
    ensures Shr(a, k) == a / Pow2(k)
  {
    if k > 0 {
      ShrIsDiv(a / 2, k - 1);
      ModDouble(a, Pow2(k - 1));
    }
  }

  /** HASH_TO_BKT masks with num_bkts - 1; for a power of two that is the remainder. */
  lemma {:induction false} MaskIsMod(h: nat, k: nat)
    ensures And(h, Pow2(k) - 1) == h % Pow2(k)
  {
    if k > 0 {
      MaskIsMod(h / 2, k - 1);
      var p := Pow2(k - 1);
      assert (2 * p - 1) / 2 == p - 1 && (2 * p - 1) % 2 == 1;
      ModDouble(h, p);
    }
  }

  lemma {:induction false} ZeroHasNoBits(i: nat)
    ensures !Bit(0, i)
  {
    if i > 0 {
      ZeroHasNoBits(i - 1);
    }
  }

  lemma {:induction false} BitOfAnd(a: nat, b: nat, i: nat)
    ensures Bit(And(a, b), i) <==> Bit(a, i) && Bit(b, i)
  {
    if a == 0 || b == 0 {
      ZeroHasNoBits(i);
    } else if i > 0 {
      BitOfAnd(a / 2, b / 2, i - 1);
      assert And(a, b) / 2 == And(a / 2, b / 2);
    }
  }

  lemma {:induction false} BitOfOr(a: nat, b: nat, i: nat)
    ensures Bit(Or(a, b), i) <==> Bit(a, i) || Bit(b, i)
  {
    if a == 0 || b == 0 {
      ZeroHasNoBits(i);
    } else if i > 0 {
      BitOfOr(a / 2, b / 2, i - 1);
      assert Or(a, b) / 2 == Or(a / 2, b / 2);
    }
  }

  lemma {:induction false} BitOfPow2(k: nat, i: nat)
    ensures Bit(Pow2(k), i) <==> i == k
  {
    if i > 0 && k > 0 {
      BitOfPow2(k - 1, i - 1);
    } else if i > 0 {
      ZeroHasNoBits(i - 1);
    }
  }

  /** `a & (1 << k)` is non-zero exactly when bit k of a is set. */
  lemma {:induction false} AndPow2(a: nat, k: nat)
    ensures And(a, Pow2(k)) != 0 <==> Bit(a, k)
  {
    if a == 0 {
      ZeroHasNoBits(k);
    } else if k > 0 {
      AndPow2(a / 2, k - 1);
    } else {
      assert And(a / 2, 0) == 0;
    }
  }

  lemma {:induction false} OrBound(a: nat, b: nat, k: nat)
    requires a < Pow2(k) && b < Pow2(k)
    ensures Or(a, b) < Pow2(k)
  {
    if a != 0 && b != 0 {
      OrBound(a / 2, b / 2, k - 1);
    }
  }

  lemma {:induction false} Pow2Monotone(i: nat, k: nat)
    requires i < k
    ensures Pow2(i) < Pow2(k)
  {
    if i + 1 < k {
      Pow2Monotone(i, k - 1);
    }
  }

  // ----- arrays of bytes addressed by bit

  /** `bv[idx / 8] & (1U << (idx % 8))`, read as a truth value. */
  predicate BitTest(bv: seq<byte>, idx: nat)
    requires idx < 8 * |bv|
  {
    And(bv[idx / 8], Pow2(idx % 8)) != 0
  }

  /** `bv[idx / 8] |= (1U << (idx % 8))`: the new value of that byte. */
  function SetBit(b: byte, i: nat): (r: byte)
    requires i < 8
    ensures forall k: nat :: Bit(r, k) <==> Bit(b, k) || k == i
  {
    assert Pow2(8) == 256;
    Pow2Monotone(i, 8);
    OrBound(b, Pow2(i), 8);
    assert forall k: nat :: Bit(Or(b, Pow2(i)), k) <==> Bit(b, k) || k == i by {
      forall k: nat ensures Bit(Or(b, Pow2(i)), k) <==> Bit(b, k) || k == i {
        BitOfOr(b, Pow2(i), k);
        BitOfPow2(i, k);
      }
    }
    Or(b, Pow2(i))
  }

  lemma BitSetThenTest(bv: seq<byte>, idx: nat, j: nat)
    requires idx < 8 * |bv| && j < 8 * |bv|
    ensures BitTest(bv[idx / 8 := SetBit(bv[idx / 8], idx % 8)], j) <==> BitTest(bv, j) || j == idx
  {
    var bv' := bv[idx / 8 := SetBit(bv[idx / 8], idx % 8)];
    AndPow2(bv[j / 8], j % 8);
    AndPow2(bv'[j / 8], j % 8);
  }
}
