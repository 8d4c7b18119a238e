/** Small facts about division by a variable divisor. */
module Modulo {
  lemma {:induction false} TimesSpreads(n: int, k: int)
    requires n > 0
    ensures k >= 1 ==> n * k >= n
    ensures k <= -1 ==> n * k <= -n
    decreases if k >= 0 then k else -k
  {
    if k > 1 { TimesSpreads(n, k - 1); assert n * k == n * (k - 1) + n; }
    if k < -1 { TimesSpreads(n, k + 1); assert n * k == n * (k + 1) - n; }
  }

  lemma Unique(x: int, n: int, q: int, r: int)
    requires n > 0 && x == n * q + r && 0 <= r < n
    ensures x / n == q && x % n == r
  {
    var p, t := x / n, x % n;
    assert x == n * p + t && 0 <= t < n;
    assert n * (p - q) == n * p - n * q;
    assert n * (p - q) == r - t;
    TimesSpreads(n, p - q);
  }

  lemma AddMultiple(r: int, n: int, k: int)
    requires n > 0
    ensures (n * k + r) % n == r % n
  {
    var q, t := r / n, r % n;
    assert r == n * q + t;
    assert n * (k + q) == n * k + n * q;
    Unique(n * k + r, n, k + q, t);
  }

  lemma SlotsDiffer(a: int, b: int, n: int)
    requires a < b < a + n
    ensures a % n != b % n
  {
    var q, p := a / n, b / n;
    assert a == n * q + a % n && b == n * p + b % n;
    if a % n == b % n {
      assert n * (p - q) == n * p - n * q;
      TimesSpreads(n, p - q);
    }
  }

  lemma ModOfMod(x: int, big: int, n: int)
    requires n > 0 && big > 0 && big % n == 0
    ensures (x % big) % n == x % n
  {
    var m, q, r := big / n, x / big, x % big;
    assert big == n * m;
    assert x == big * q + r;
    assert (n * m) * q == n * (m * q);
    AddMultiple(r, n, m * q);
  }

  lemma ModAdd(x: int, y: int, n: int)
    requires n > 0
    ensures (x % n + y) % n == (x + y) % n
  {
    var q := x / n;
    assert x == n * q + x % n;
    AddMultiple(x % n + y, n, q);
  }
}
