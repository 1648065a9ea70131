/** Bitwise AND on naturals, as far as the kernel's mask tests need it. */
module Bits {

  function And(a: nat, b: nat): nat
    decreases a
  {
    if a == 0 || b == 0 then 0
    else 2 * And(a / 2, b / 2) + if a % 2 == 1 && b % 2 == 1 then 1 else 0
  }

  function Pow2(k: nat): (p: nat)
    ensures p > 0
  {
    if k == 0 then 1 else 2 * Pow2(k - 1)
  }

  ghost predicate IsPow2(a: nat) { exists k: nat :: a == Pow2(k) }

  lemma {:induction false} AndSelf(a: nat)
    ensures And(a, a) == a
    decreases a
  {
    if a != 0 {
      AndSelf(a / 2);
    }
  }

  /** `a & (a - 1)` is zero exactly for the powers of two. */
  lemma {:induction false} AndPredecessor(a: nat)
    requires a > 0
    ensures And(a, a - 1) == 0 <==> IsPow2(a)
    decreases a
  {
    if a == 1 {
      assert a == Pow2(0);
    } else if a % 2 == 1 {
      assert (a - 1) / 2 == a / 2;
      AndSelf(a / 2);
      forall k: nat
        ensures a != Pow2(k)
      {
        assert k != 0 ==> Pow2(k) == 2 * Pow2(k - 1);
      }
    } else {
      var m := a / 2;
      assert (a - 1) / 2 == m - 1;
      AndPredecessor(m);
      if IsPow2(m) {
        var k: nat :| m == Pow2(k);
        assert a == Pow2(k + 1);
      }
      if IsPow2(a) {
        var k: nat :| a == Pow2(k);
        assert m == Pow2(k - 1);
      }
    }
  }

  /** Masking with one less than a power of two is the remainder. */
  lemma {:induction false} AndMask(x: nat, k: nat)
    ensures And(x, Pow2(k) - 1) == x % Pow2(k)
    decreases k
  {
    if k == 0 {
      ModUnique(x, 1, x, 0);
    } else if x == 0 {
      ModUnique(x, Pow2(k), 0, 0);
    } else {
      var p := Pow2(k - 1);
      assert Pow2(k) == 2 * p;
      AndMask(x / 2, k - 1);
      AndOdd(x, p);
      HalfMod(x, p);
    }
  }

  lemma AndOdd(x: nat, p: nat)
    requires x > 0 && p > 0
    ensures And(x, 2 * p - 1) == 2 * And(x / 2, p - 1) + x % 2
  {
    assert (2 * p - 1) / 2 == p - 1 && (2 * p - 1) % 2 == 1;
  }

  lemma HalfMod(x: nat, p: nat)
    requires p > 0
    ensures x % (2 * p) == 2 * (x / 2 % p) + x % 2
  {
    var h := x / 2;
    var q, r := h / p, h % p;
    assert h == q * p + r;
    var t := 2 * r + x % 2;
    assert x == (2 * p) * q + t by {
      assert (2 * p) * q == 2 * (q * p);
    }
    ModUnique(x, 2 * p, q, t);
  }

  lemma ModUnique(x: nat, m: nat, q: nat, t: nat)
    requires m > 0 && t < m && x == m * q + t
    ensures x % m == t
  {
    var e := x / m - q;
    assert x == m * (x / m) + x % m;
    assert m * e == t - x % m by {
      assert m * (x / m) - m * q == m * e;
    }
  }

  lemma {:induction false} Pow2Add(i: nat, j: nat)
    ensures Pow2(i + j) == Pow2(i) * Pow2(j)
    decreases i
  {
    if i > 0 {
      Pow2Add(i - 1, j);
      assert 2 * (Pow2(i - 1) * Pow2(j)) == (2 * Pow2(i - 1)) * Pow2(j);
    }
  }

  lemma {:induction false} Pow2Mono(i: nat, j: nat)
    requires i <= j
    ensures Pow2(i) <= Pow2(j)
    decreases j
  {
    if i < j {
      Pow2Mono(i, j - 1);
    }
  }
}
