/**
 * Python's bitwise operators on non-negative integers, defined bit by bit,
 * with the arithmetic facts the colour filters rely on.  Python integers are
 * unbounded, so `a & b` on two naturals never truncates; the masks the
 * filters use (0xE0, 0xC0, 0x3F, 0xF0, 0xFF) are all of the shape
 * 2^k - 2^n, which `AndRangeMask` turns into plain remainder arithmetic.
 */
module Bits {

  function Pow2(n: nat): (r: nat)
    ensures r >= 1
  {
    if n == 0 then 1 else 2 * Pow2(n - 1)
  }

  /** Python's `a & b` for a, b >= 0. */
  function BitAnd(a: nat, b: nat): nat
    decreases a
  {
    if a == 0 || b == 0 then 0
    else 2 * BitAnd(a / 2, b / 2) + (if a % 2 == 1 && b % 2 == 1 then 1 else 0)
  }

  /** Python's `a ^ b` for a, b >= 0. */
  function BitXor(a: nat, b: nat): nat
    decreases a + b
  {
    if a == 0 then b
    else if b == 0 then a
    else 2 * BitXor(a / 2, b / 2) + (if a % 2 != b % 2 then 1 else 0)
  }

  /** Python's `x & 0xFF` for any int, negative ones included (two's complement). */
  function Low8(x: int): (r: nat)
    ensures r < 256
  {
    x % 256
  }

  /** Masking with a run of ones from bit n up to bit k-1 keeps exactly those bits. */
  lemma {:induction false} AndRangeMask(a: nat, k: nat, n: nat)
    requires n <= k
    ensures Pow2(n) <= Pow2(k)
    ensures BitAnd(a, Pow2(k) - Pow2(n)) == a % Pow2(k) - a % Pow2(n)
    decreases n
  {
    PowMono(n, k);
    if n == 0 {
      AndLowMask(a, k);
      assert Pow2(n) == 1 && a % Pow2(n) == 0;
    } else if k == n {
      assert Pow2(k) - Pow2(n) == 0;
    } else if a == 0 {
      ModUnique(a, Pow2(k), 0, 0);
      ModUnique(a, Pow2(n), 0, 0);
    } else {
      var a', k', n' := a / 2, k - 1, n - 1;
      AndRangeMask(a', k', n');
      AndRangeStep(a, k, n, a', k', n');
    }
  }

  /** One bit of `AndRangeMask`: the lowest bit of `a` is cleared by the mask, the rest shift down. */
  lemma AndRangeStep(a: nat, k: nat, n: nat, a': nat, k': nat, n': nat)
    requires 1 <= n < k && a != 0 && a' == a / 2 && k' == k - 1 && n' == n - 1 && Pow2(n') <= Pow2(k')
    requires BitAnd(a', Pow2(k') - Pow2(n')) == a' % Pow2(k') - a' % Pow2(n')
    ensures BitAnd(a, Pow2(k) - Pow2(n)) == a % Pow2(k) - a % Pow2(n)
  {
    var h := Pow2(k') - Pow2(n');
    assert Pow2(k) - Pow2(n) == 2 * h by {
      assert Pow2(k) == 2 * Pow2(k') && Pow2(n) == 2 * Pow2(n');
    }
    PowStrict(n', k');
    AndEven(a, Pow2(k) - Pow2(n), h);
    assert BitAnd(a', h) == BitAnd(a / 2, h);
    var x, y := a' % Pow2(k'), a' % Pow2(n');
    assert a % Pow2(k) == 2 * x + a % 2 by { DivModPow(a, k); }
    assert a % Pow2(n) == 2 * y + a % 2 by { DivModPow(a, n); }
  }

  lemma AndEven(a: nat, m: nat, h: nat)
    requires a != 0 && h != 0 && m == 2 * h
    ensures BitAnd(a, m) == 2 * BitAnd(a / 2, h)
  {
    assert m % 2 == 0 && m / 2 == h;
  }

  /** Masking with 2^n - 1 is the remainder modulo 2^n. */
  lemma {:induction false} AndLowMask(a: nat, n: nat)
    ensures BitAnd(a, Pow2(n) - 1) == a % Pow2(n)
    decreases n
  {
    if n == 0 || a == 0 {
    } else {
      AndLowMask(a / 2, n - 1);
      assert Pow2(n) - 1 == 2 * (Pow2(n - 1) - 1) + 1;
      assert (Pow2(n) - 1) / 2 == Pow2(n - 1) - 1;
      DivModPow(a, n);
    }
  }

  lemma {:induction false} PowMono(n: nat, k: nat)
    requires n <= k
    ensures Pow2(n) <= Pow2(k)
    decreases k
  {
    if n < k {
      PowMono(n, k - 1);
    }
  }

  lemma {:induction false} PowStrict(n: nat, k: nat)
    requires n < k
    ensures Pow2(n) < Pow2(k)
    decreases k
  {
    if n < k - 1 {
      PowStrict(n, k - 1);
    }
  }

  lemma DivModPow(a: nat, n: nat)
    requires n >= 1
    ensures a % Pow2(n) == 2 * ((a / 2) % Pow2(n - 1)) + a % 2
  {
    var p := Pow2(n - 1);
    var q := (a / 2) / p;
    var r := (a / 2) % p;
    assert a / 2 == q * p + r;
    assert a == (a / 2) * 2 + a % 2;
    assert a == q * (2 * p) + (2 * r + a % 2);
    ModUnique(a, 2 * p, q, 2 * r + a % 2);
  }

  lemma ModUnique(a: nat, m: nat, q: int, r: int)
    requires m > 0 && 0 <= r < m && a == q * m + r
    ensures a % m == r
  {
    DivModUnique(a, m, q, r);
  }

  /** Quotient and remainder are the only pair with `a == q * m + r` and `0 <= r < m`. */
  lemma DivModUnique(a: int, m: int, q: int, r: int)
    requires m > 0 && 0 <= r < m && a == q * m + r
    ensures a / m == q && a % m == r
  {
    var q', r' := a / m, a % m;
    assert (q' - q) * m == r - r';
    if q' > q {
      MulAtLeast(q' - q, m);
    } else if q' < q {
      MulAtLeast(q - q', m);
    }
  }

  lemma MulAtLeast(x: int, m: nat)
    requires x >= 1
    ensures x * m >= m
  {
  }

  /** The xor of two n-bit numbers is an n-bit number. */
  lemma {:induction false} XorBound(a: nat, b: nat, n: nat)
    requires a < Pow2(n) && b < Pow2(n)
    ensures BitXor(a, b) < Pow2(n)
    decreases a + b
  {
    if a != 0 && b != 0 {
      assert n >= 1;
      XorBound(a / 2, b / 2, n - 1);
    }
  }

  /** Xor with the same key twice gives back the original value. */
  lemma {:induction false} XorSelfInverse(a: nat, b: nat)
    ensures BitXor(BitXor(a, b), b) == a
    decreases a + b
  {
    if a == 0 {
      XorZero(b, b);
    } else if b == 0 {
    } else {
      XorSelfInverse(a / 2, b / 2);
      var x := BitXor(a, b);
      if x == 0 {
        XorZero(a, b);
      } else {
        assert x / 2 == BitXor(a / 2, b / 2);
      }
    }
  }

  /** The xor is zero exactly when both operands are equal. */
  lemma {:induction false} XorZero(a: nat, b: nat)
    ensures BitXor(a, b) == 0 <==> a == b
    decreases a + b
  {
    if a != 0 && b != 0 {
      XorZero(a / 2, b / 2);
    }
  }

  /** Xor with a fixed key is injective. */
  lemma XorInjective(a: nat, a': nat, k: nat)
    ensures BitXor(a, k) == BitXor(a', k) ==> a == a'
  {
    XorSelfInverse(a, k);
    XorSelfInverse(a', k);
  }
}
