/** Powers of two, and the bitwise operators on naturals that the arithmetic forms stand for. */
module Bits {

  function Pow2(n: nat): (p: nat)
    ensures p > 0
  {
    if n == 0 then 1 else 2 * Pow2(n - 1)
  }

  lemma {:induction false} Pow2Add(a: nat, b: nat)
    ensures Pow2(a + b) == Pow2(a) * Pow2(b)
  {
    if a > 0 {
      Pow2Add(a - 1, b);
    }
  }

  lemma {:induction false} Pow2Mono(a: nat, b: nat)
    requires a <= b
    ensures Pow2(a) <= Pow2(b)
  {
    if a < b {
      Pow2Mono(a, b - 1);
    }
  }

  /** Logical shifts. */
  function Shl(x: nat, n: nat): nat {
    x * Pow2(n)
  }

  function Shr(x: nat, n: nat): nat {
    Quot(x, Pow2(n))
  }

  function Quot(x: nat, d: nat): nat
    requires d > 0
  {
    x / d
  }

  function Rem(x: nat, d: nat): (r: nat)
    requires d > 0
    ensures r < d
  {
    x % d
  }

  /** Bitwise and, bitwise or. */
  function And(x: nat, y: nat): nat {
    if x == 0 || y == 0 then 0
    else 2 * And(x / 2, y / 2) + (if x % 2 == 1 && y % 2 == 1 then 1 else 0)
  }

  function Or(x: nat, y: nat): nat {
    if x == 0 then y
    else if y == 0 then x
    else 2 * Or(x / 2, y / 2) + (if x % 2 == 1 || y % 2 == 1 then 1 else 0)
  }

  /** Masking with n ones is the remainder by a power of two. */
  lemma {:induction false} AndMask(x: nat, n: nat)
    ensures And(x, Pow2(n) - 1) == x % Pow2(n)
  {
    hide And;
    if n == 0 || x == 0 {
      AndZero(x, Pow2(n) - 1);
      EasyMod(x, Pow2(n));
    } else {
      var p := Pow2(n - 1);
      AndMask(x / 2, n - 1);
      HalfMod(x, p);
      AndOdd(x, p);
    }
  }

  lemma AndZero(x: nat, y: nat)
    ensures x == 0 || y == 0 ==> And(x, y) == 0
  {
  }

  lemma EasyMod(x: nat, p: nat)
    requires p > 0
    ensures x % 1 == 0 && 0 % p == 0
  {
  }

  lemma AndOdd(x: nat, p: nat)
    requires p > 0
    ensures And(x, 2 * p - 1) == 2 * And(x / 2, p - 1) + x % 2
  {
    assert (2 * p - 1) / 2 == p - 1 && (2 * p - 1) % 2 == 1;
  }

  lemma HalfMod(x: nat, p: nat)
    requires p > 0
    ensures x % (2 * p) == 2 * (x / 2 % p) + x % 2
  {
    var q, r := x / 2 / p, x / 2 % p;
    assert x == 2 * (q * p + r) + x % 2 == q * (2 * p) + (2 * r + x % 2);
    DivModIs(x, 2 * p, q, 2 * r + x % 2);
  }

  /** Quotient and remainder are determined by their equation. */
  lemma DivModIs(x: int, d: int, q: int, r: int)
    requires 0 <= r < d && x == q * d + r
    ensures x / d == q && x % d == r
  {
    var k := x / d - q;
    assert k * d == r - x % d;
    assert -d < k * d < d;
    if k > 0 {
      Times(k, d);
    } else if k < 0 {
      Times(-k, d);
    }
  }

  lemma Times(k: int, d: int)
    requires k >= 1 && d >= 0
    ensures k * d >= d
  {
  }

  /** Or-ing in a value below the shift is adding it. */
  lemma {:induction false} OrDisjoint(x: nat, y: nat, n: nat)
    requires y < Pow2(n)
    ensures Or(x * Pow2(n), y) == x * Pow2(n) + y
  {
    if n > 0 && x > 0 && y > 0 {
      var p := Pow2(n - 1);
      assert x * Pow2(n) == 2 * (x * p);
      OrDisjoint(x, y / 2, n - 1);
    } else if n == 0 {
      assert y == 0;
    }
  }

  // ---- The bits of a number; bit 0 is the least significant one ----

  predicate Bit(n: nat, k: nat) {
    if k == 0 then n % 2 == 1 else Bit(n / 2, k - 1)
  }

  lemma {:induction false} NoBit(k: nat)
    ensures !Bit(0, k)
  {
    if k > 0 {
      NoBit(k - 1);
    }
  }

  lemma {:induction false} OnesBit(n: nat, k: nat)
    ensures Bit(Pow2(n) - 1, k) == (k < n)
  {
    if n == 0 {
      NoBit(k);
    } else if k > 0 {
      assert (Pow2(n) - 1) / 2 == Pow2(n - 1) - 1;
      OnesBit(n - 1, k - 1);
    }
  }

  /** The bits of a number put together from two. */
  lemma {:induction false} JoinedBit(v: nat, w: nat, m: nat, k: nat)
    requires w < Pow2(m)
    ensures Bit(v * Pow2(m) + w, k) == if k < m then Bit(w, k) else Bit(v, k - m)
  {
    if m > 0 {
      var p := Pow2(m - 1);
      var x := v * Pow2(m) + w;
      assert x == 2 * (v * p) + w;
      if k > 0 {
        assert x / 2 == v * p + w / 2;
        JoinedBit(v, w / 2, m - 1, k - 1);
      }
    }
  }

  lemma ShlBit(x: nat, n: nat, k: nat)
    ensures Bit(Shl(x, n), k) == (n <= k && Bit(x, k - n))
  {
    JoinedBit(x, 0, n, k);
    NoBit(k);
  }

  lemma ShrBit(x: nat, n: nat, k: nat)
    ensures Bit(Shr(x, n), k) == Bit(x, k + n)
  {
    var p := Pow2(n);
    Split(x, p);
    JoinedBit(Quot(x, p), Rem(x, p), n, k + n);
  }

  lemma WrappedBit(x: nat, n: nat, k: nat)
    requires k < n
    ensures Bit(Rem(x, Pow2(n)), k) == Bit(x, k)
  {
    var p := Pow2(n);
    Split(x, p);
    JoinedBit(Quot(x, p), Rem(x, p), n, k);
  }

  lemma Split(x: nat, p: nat)
    requires p > 0
    ensures x == Quot(x, p) * p + Rem(x, p)
  {
  }

  /** Or-ing in a number that fits below the shift. */
  lemma ShlOrBit(x: nat, y: nat, n: nat, k: nat)
    requires y < Pow2(n)
    ensures Bit(Or(Shl(x, n), y), k) == if k < n then Bit(y, k) else Bit(x, k - n)
  {
    OrDisjoint(x, y, n);
    JoinedBit(x, y, n, k);
  }

  lemma {:induction false} OrBit(x: nat, y: nat, k: nat)
    ensures Bit(Or(x, y), k) == (Bit(x, k) || Bit(y, k))
  {
    if x == 0 || y == 0 {
      NoBit(k);
    } else if k > 0 {
      OrBit(x / 2, y / 2, k - 1);
    }
  }

  /** A number is determined by its bits. */
  lemma {:induction false} BitsDecide(x: nat, y: nat, n: nat)
    requires x < Pow2(n) && y < Pow2(n) && forall k: nat :: k < n ==> Bit(x, k) == Bit(y, k)
    ensures x == y
  {
    if n > 0 {
      assert Bit(x, 0) == Bit(y, 0);
      forall k: nat | k < n - 1 ensures Bit(x / 2, k) == Bit(y / 2, k) {
        assert Bit(x, k + 1) == Bit(y, k + 1);
      }
      BitsDecide(x / 2, y / 2, n - 1);
    }
  }

  lemma {:induction false} AndBit(x: nat, y: nat, k: nat)
    ensures Bit(And(x, y), k) == (Bit(x, k) && Bit(y, k))
  {
    if x == 0 || y == 0 {
      NoBit(k);
    } else if k > 0 {
      AndBit(x / 2, y / 2, k - 1);
    }
  }

  lemma QuotLess(x: nat, p: nat, q: nat)
    requires p > 0 && x < p * q
    ensures Quot(x, p) < q
  {
    assert x / p >= q ==> (x / p) * p >= q * p;
  }

  lemma JoinLess(x: nat, y: nat, q: nat, p: nat)
    requires x < q && y < p
    ensures x * p + y < q * p
  {
    assert (x + 1) * p <= q * p;
  }
}
