/** Free-running 16-bit indices over a power-of-two ring. */
module RingArithmetic {

  const U16 := 0x1_0000

  /** The sizes virtqueue_init accepts from a conforming device: powers of two up to 32768. */
  predicate RingSize(n: nat)
  {
    1 <= n <= 32768 && U16 % n == 0
  }

  lemma NoMultiple(n: int, d: int)
    requires n > 0 && -n < n * d < n
    ensures d == 0
  {
    assert d >= 1 ==> n * d >= n;
    assert d <= -1 ==> n * d <= -n;
  }

  /** Two positions less than n apart use different slots. */
  lemma SlotsDiffer(a: nat, b: nat, n: nat)
    requires n > 0 && a < b < a + n
    ensures a % n != b % n
  {
    var d := b / n - a / n;
    assert b - a == n * d + (b % n - a % n) by {
      assert a == n * (a / n) + a % n;
      assert b == n * (b / n) + b % n;
    }
    if a % n == b % n { NoMultiple(n, d); }
  }

  /** Reducing a counter modulo 2^16 first does not change its slot. */
  lemma SlotOfCounter(k: nat, n: nat)
    requires RingSize(n)
    ensures k % U16 % n == k % n
  {
    var q := U16 / n;
    assert U16 == n * q;
    var a := k / U16;
    assert k == U16 * a + k % U16;
    assert U16 * a == n * (q * a) by {
      assert n * q * a == n * (q * a);
    }
    ModShift(k % U16, q * a, n);
  }

  lemma ModShift(r: nat, c: nat, n: nat)
    requires n > 0
    ensures (n * c + r) % n == r % n
  {
    var x := n * c + r;
    assert r == n * (r / n) + r % n;
    assert x == n * (c + r / n) + r % n by {
      assert n * (c + r / n) == n * c + n * (r / n);
    }
    ModUnique(x, c + r / n, r % n, n);
  }

  lemma ModUnique(x: nat, q: nat, r: nat, n: nat)
    requires n > 0 && x == n * q + r && r < n
    ensures x % n == r
  {
    var d := x / n - q;
    assert n * d == r - x % n by {
      assert x == n * (x / n) + x % n;
      assert n * d == n * (x / n) - n * q;
    }
    NoMultiple(n, d);
  }

  /** Wrapped indices that lag by less than 2^16 are equal exactly when the counters are. */
  lemma CountersEqual(a: nat, b: nat)
    requires a <= b < a + U16
    ensures a % U16 == b % U16 <==> a == b
  {
  }

  /** Incrementing a wrapped index. */
  lemma NextCounter(a: nat)
    ensures (a % U16 + 1) % U16 == (a + 1) % U16
  {
  }
}
