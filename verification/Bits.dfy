/** Bitwise operations of C's unsigned integers, on natural numbers.

A `size_t`, `unsigned` or `uint8_t` value is its natural number; `And` and `Or`
work bit by bit, and the complement is taken inside a given width.  The lemmas
turn the masks the kernel uses into arithmetic: `pos & mask`, `hash &
(nbuckets - 1)`, `(v + a - 1) & ~(a - 1)`, `n |= n >> k`, `first & 0xE0`.
*/
module Bits {
  function Pow2(k: nat): (p: nat)
    ensures p > k
  {
    if k == 0 then 1 else 2 * Pow2(k - 1)
  }

  ghost predicate IsPow2(n: nat) {
    exists k: nat :: n == Pow2(k)
  }

  function And(x: nat, y: nat): nat {
    if x == 0 || y == 0 then 0
    else (if x % 2 == 1 && y % 2 == 1 then 1 else 0) + 2 * And(x / 2, y / 2)
  }

  function Or(x: nat, y: nat): nat
    decreases x + y
  {
    if x == 0 then y
    else if y == 0 then x
    else (if x % 2 == 1 || y % 2 == 1 then 1 else 0) + 2 * Or(x / 2, y / 2)
  }

  function Shr(x: nat, k: nat): (r: nat) {
    if k == 0 then x else Shr(x / 2, k - 1)
  }

  /** `~m` in an unsigned type of `w` bits. */
  function Not(w: nat, m: nat): nat
    requires m < Pow2(w)
  {
    Pow2(w) - 1 - m
  }

  /** The bit of weight 2^i. */
  predicate Bit(x: nat, i: nat) {
    if i == 0 then x % 2 == 1 else Bit(x / 2, i - 1)
  }

  lemma {:induction false} AndAtMost(x: nat, y: nat)
    ensures And(x, y) <= x && And(x, y) <= y
  {
    if x != 0 && y != 0 {
      AndAtMost(x / 2, y / 2);
    }
  }

  /** Masking with a power of two less one is the remainder. */
  lemma {:induction false} AndLowMask(x: nat, k: nat)
    ensures And(x, Pow2(k) - 1) == x % Pow2(k)
  {
    if k == 0 {
      ModUnique(x, 1, x, 0);
    } else if x == 0 {
      ModUnique(0, Pow2(k), 0, 0);
    } else {
      AndLowMask(x / 2, k - 1);
      AndLowMaskStep(x, Pow2(k - 1));
    }
  }

  lemma AndLowMaskStep(x: nat, m: nat)
    requires m >= 1 && And(x / 2, m - 1) == (x / 2) % m
    ensures And(x, 2 * m - 1) == x % (2 * m)
  {
    HalfMod(x, m);
    AndOdd(x, m);
  }

  lemma AndOdd(x: nat, m: nat)
    requires m >= 1
    ensures And(x, 2 * m - 1) == x % 2 + 2 * And(x / 2, m - 1)
  {
    assert (2 * m - 1) / 2 == m - 1 && (2 * m - 1) % 2 == 1;
  }

  lemma HalfMod(x: nat, m: nat)
    requires m >= 1
    ensures x % (2 * m) == x % 2 + 2 * ((x / 2) % m)
  {
    var q := x / 2 / m;
    var r := (x / 2) % m;
    assert x / 2 == q * m + r;
    assert x == 2 * (x / 2) + x % 2;
    assert x == (2 * m) * q + (x % 2 + 2 * r) by {
      assert 2 * (q * m) == (2 * m) * q;
    }
    ModUnique(x, 2 * m, q, x % 2 + 2 * r);
  }

  lemma ModUnique(x: int, m: nat, q: int, r: nat)
    requires m >= 1 && x == m * q + r && r < m
    ensures x % m == r && x / m == q
  {
    var d := x / m - q;
    assert m * d == r - x % m by {
      assert x == m * (x / m) + x % m;
      assert m * d == m * (x / m) - m * q;
    }
    MulSmall(m, d);
  }

  lemma ModStep(x: nat, m: nat)
    requires m >= 1
    ensures (x + m) % m == x % m
  {
    assert x + m == m * (x / m + 1) + x % m by {
      assert m * (x / m + 1) == m * (x / m) + m;
    }
    ModUnique(x + m, m, x / m + 1, x % m);
  }

  lemma MulSmall(m: int, d: int)
    requires m >= 1
    ensures d >= 1 ==> m * d >= m
    ensures d <= -1 ==> m * d <= -m
  {
    if d >= 1 {
      assert m * (d - 1) >= 0;
    }
    if d <= -1 {
      assert m * (-d - 1) >= 0;
      assert m * d + m == -(m * (-d - 1));
    }
  }

  /** The two halves of a word cut by a mask add up to the word. */
  lemma {:induction false} AndNot(w: nat, x: nat, m: nat)
    requires x < Pow2(w) && m < Pow2(w)
    ensures And(x, Not(w, m)) == x - And(x, m)
  {
    AndAtMost(x, m);
    if w > 0 && x > 0 {
      AndNot(w - 1, x / 2, m / 2);
      assert Not(w, m) / 2 == Not(w - 1, m / 2);
      assert Not(w, m) % 2 == 1 - m % 2;
    }
  }

  lemma {:induction false} Pow2Mono(a: nat, b: nat)
    requires a <= b
    ensures Pow2(a) <= Pow2(b)
    ensures a < b ==> 2 * Pow2(a) <= Pow2(b)
    decreases b
  {
    if a < b {
      Pow2Mono(a, b - 1);
    }
  }

  lemma {:induction false} Pow2Multiple(k: nat, n: nat) returns (q: nat)
    requires k <= n
    ensures Pow2(n) == Pow2(k) * q
  {
    if k == n {
      q := 1;
    } else {
      q := Pow2Multiple(k, n - 1);
      q := 2 * q;
    }
  }

  /** A multiple of a smaller power of two that is below 2^64 is below by so much at least. */
  lemma MultipleFits(m: nat, a: nat)
    requires IsPow2(a) && a < Pow2(64) && m < Pow2(64) && m % a == 0
    ensures m + a <= Pow2(64)
  {
    hide Pow2;
    var k: nat :| a == Pow2(k);
    if k >= 64 {
      Pow2Mono(64, k);
    }
    var q := Pow2Multiple(k, 64);
    assert m == a * (m / a);
    assert a * (q - m / a) == Pow2(64) - m;
    MulSmall(a, q - m / a);
  }

  /** The C idiom `a != 0 && (a & (a - 1)) == 0` recognises powers of two. */
  lemma {:induction false} PowerOfTwoTest(a: nat)
    requires a >= 1
    ensures And(a, a - 1) == 0 <==> IsPow2(a)
  {
    if a == 1 {
      assert a == Pow2(0);
    } else if a % 2 == 1 {
      assert And(a, a - 1) == 2 * And(a / 2, a / 2);
      AndSelf(a / 2);
      forall k: nat
        ensures a != Pow2(k)
      {
      }
    } else {
      PowerOfTwoTest(a / 2);
      assert (a - 1) / 2 == a / 2 - 1;
      if a / 2 == 1 {
        assert a == Pow2(1);
      } else {
        assert And(a, a - 1) == 2 * And(a / 2, a / 2 - 1);
        if IsPow2(a / 2) {
          var k: nat :| a / 2 == Pow2(k);
          assert a == Pow2(k + 1);
        }
        if IsPow2(a) {
          var k: nat :| a == Pow2(k);
          assert k > 0 && a / 2 == Pow2(k - 1);
        }
      }
    }
  }

  lemma {:induction false} AndSelf(x: nat)
    ensures And(x, x) == x
  {
    if x > 0 {
      AndSelf(x / 2);
    }
  }

  /** A sum or difference in `size_t`. */
  function Wrap(x: int): (r: nat)
    ensures r < Pow2(64)
  {
    x % Pow2(64)
  }

  lemma WrapOnce(x: int)
    ensures 0 <= x < Pow2(64) ==> Wrap(x) == x
    ensures Pow2(64) <= x < 2 * Pow2(64) ==> Wrap(x) == x - Pow2(64)
    ensures 0 <= x + Pow2(64) < Pow2(64) ==> Wrap(x) == x + Pow2(64)
  {
    hide Pow2;
    var w := Pow2(64);
    if 0 <= x < w {
      ModUnique(x, w, 0, x);
    } else if w <= x < 2 * w {
      ModUnique(x, w, 1, x - w);
    } else if 0 <= x + w < w {
      ModUnique(x, w, -1, x + w);
    }
  }

  /** `align_up` of kernel/arena/src/arena.c */
  function AlignUp(v: nat, a: nat): nat
    requires v < Pow2(64) && 1 <= a < Pow2(64)
  {
    And(Wrap(v + a - 1), Not(64, a - 1))
  }

  /** For every alignment the result does not go below the value, exactly if the sum does
      not wrap; arena.c:136 needs this for a block size that is not a power of two. */
  lemma AlignUpAtLeast(v: nat, a: nat)
    requires v < Pow2(64) && 1 <= a < Pow2(64)
    ensures v <= AlignUp(v, a) <==> v + a - 1 < Pow2(64)
    ensures AlignUp(v, a) <= v + a - 1 && AlignUp(v, a) < Pow2(64)
  {
    hide Pow2, And;
    WrapOnce(v + a - 1);
    var x := Wrap(v + a - 1);
    AndNot(64, x, a - 1);
    AndAtMost(x, a - 1);
  }

  /** For a power of two the remainder goes, and with it everything if the sum wraps. */
  lemma AlignUpIs(v: nat, a: nat)
    requires IsPow2(a) && v < Pow2(64) && a < Pow2(64)
    ensures var x := v + a - 1; AlignUp(v, a) == if x < Pow2(64) then x - x % a else 0
  {
    hide Pow2, And;
    var k: nat :| a == Pow2(k);
    WrapOnce(v + a - 1);
    var x := Wrap(v + a - 1);
    AndNot(64, x, a - 1);
    AndLowMask(x, k);
    if v + a - 1 >= Pow2(64) {
      ModUnique(x, a, 0, x);
    }
  }

  /** For a power of two it is the least multiple that is not below the value. */
  lemma AlignUpLeastMultiple(v: nat, a: nat)
    requires IsPow2(a) && a < Pow2(64) && v + a - 1 < Pow2(64)
    ensures v <= AlignUp(v, a) < v + a
    ensures AlignUp(v, a) % a == 0
    ensures forall m: nat :: v <= m && m % a == 0 ==> AlignUp(v, a) <= m
  {
    hide Pow2, AlignUp;
    AlignUpIs(v, a);
    MultipleBelow(v + a - 1, a);
  }

  /** `x - x % a` is the greatest multiple of `a` up to `x`. */
  lemma MultipleBelow(x: nat, a: nat)
    requires a >= 1
    ensures (x - x % a) % a == 0
    ensures forall m: nat :: x - a < m && m % a == 0 ==> x - x % a <= m
  {
    var r := x - x % a;
    assert r == a * (x / a) + 0;
    ModUnique(r, a, x / a, 0);
    forall m: nat | x - a < m && m % a == 0
      ensures r <= m
    {
      assert m == a * (m / a);
      if m < r {
        assert a * (x / a - m / a) == r - m;
        MulSmall(a, x / a - m / a);
      }
    }
  }

  // ---------------------------------------------------------------- single bits

  lemma {:induction false} BitOr(x: nat, y: nat, i: nat)
    ensures Bit(Or(x, y), i) <==> Bit(x, i) || Bit(y, i)
    decreases i
  {
    ZeroBits(i);
    if x != 0 && y != 0 {
      if i > 0 {
        BitOr(x / 2, y / 2, i - 1);
      }
    }
  }

  lemma {:induction false} ZeroBits(i: nat)
    ensures !Bit(0, i)
  {
    if i > 0 {
      ZeroBits(i - 1);
    }
  }

  lemma {:induction false} BitShr(x: nat, k: nat, i: nat)
    ensures Bit(Shr(x, k), i) <==> Bit(x, i + k)
    decreases k
  {
    if k > 0 {
      BitShr(x / 2, k - 1, i);
    }
  }

  /** A number whose bits are exactly those of weight below 2^t. */
  lemma {:induction false} AllOnes(x: nat, t: nat)
    requires forall i: nat :: Bit(x, i) <==> i < t
    ensures x == Pow2(t) - 1
  {
    assert Bit(x, 0) <==> 0 < t;
    if t == 0 {
      NoBits(x);
    } else {
      forall i: nat
        ensures Bit(x / 2, i) <==> i < t - 1
      {
        assert Bit(x, i + 1) <==> i + 1 < t;
      }
      AllOnes(x / 2, t - 1);
    }
  }

  lemma {:induction false} NoBits(x: nat)
    requires forall i: nat :: !Bit(x, i)
    ensures x == 0
  {
    assert !Bit(x, 0);
    if x != 0 {
      forall i: nat
        ensures !Bit(x / 2, i)
      {
        assert !Bit(x, i + 1);
      }
      NoBits(x / 2);
    }
  }

  /** The position of the highest bit. */
  lemma {:induction false} TopBit(x: nat) returns (t: nat)
    requires x > 0
    ensures Bit(x, t) && forall i: nat :: i > t ==> !Bit(x, i)
    ensures Pow2(t) <= x < Pow2(t + 1)
  {
    if x == 1 {
      t := 0;
      forall i: nat | i > 0
        ensures !Bit(1, i)
      {
        ZeroBits(i - 1);
      }
    } else {
      t := TopBit(x / 2);
      t := t + 1;
      forall i: nat | i > t
        ensures !Bit(x, i)
      {
        assert !Bit(x / 2, i - 1);
      }
    }
  }
}
