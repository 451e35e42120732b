/** Remainders by a page size: what a counter that wraps inside its page does to an address. */
module PageArithmetic {
  /** The write counter stays inside the page of the first byte. */
  function Wrapped(word: nat, i: nat, page: nat): nat
    requires page > 0
  {
    word - word % page + (word % page + i) % page
  }

  lemma ModUnique(a: int, t: nat, p: nat)
    requires t < p
    ensures (a * p + t) % p == t
  {
    var x := a * p + t;
    var d := x / p - a;
    assert x == (x / p) * p + x % p;
    assert (x / p) * p - a * p == d * p;
    assert -(p as int) < d * p < p;
    if d >= 1 { Scaled(1, d, p); }
    if d <= -1 { Scaled(1, -d, p); }
  }

  lemma Scaled(a: int, b: int, p: nat)
    requires a <= b
    ensures a * p <= b * p && (-b) * p == -(b * p)
  {
  }

  /** Reducing modulo a multiple first changes nothing, and a page of p lies wholly inside its block of k * p. */
  lemma SubMod(x: nat, k: nat, p: nat)
    requires k > 0 && p > 0
    ensures k * p > 0 && (x % (k * p)) % p == x % p
    ensures k * p > 0 && x % (k * p) - x % p + p <= k * p
  {
    Scaled(1, k, p);
    var m := k * p;
    var r := x % m;
    var q, t := r / p, r % p;
    assert r == q * p + t;
    assert x == (x / m) * m + r;
    assert (x / m) * m == ((x / m) * k) * p;
    assert ((x / m) * k) * p + q * p == ((x / m) * k + q) * p;
    ModUnique((x / m) * k + q, t, p);
    if q >= k { Scaled(k, q, p); }
    assert (q + 1) * p == q * p + p;
    Scaled(q + 1, k, p);
  }

  /** Inside the page the counter does not wrap. */
  lemma NotWrapped(word: nat, i: nat, p: nat)
    requires p > 0 && word % p + i < p
    ensures Wrapped(word, i, p) == word + i
  {
    SmallMod(word % p + i, p);
  }

  lemma SmallMod(x: nat, p: nat)
    requires x < p
    ensures x % p == x
  {
  }
}
