/** Greatest common divisors, for the exact range of the line loop. */
module Euclid {
  function Gcd(a: nat, b: nat): (g: nat)
    ensures a > 0 || b > 0 ==> g > 0
    decreases b
  {
    if b == 0 then a else Gcd(b, a % b)
  }

  /** g divides a and b, and is a combination of both. */
  predicate Combines(g: nat, a: nat, b: nat, x: int, y: int, p: nat, q: nat) {
    a == g * p && b == g * q && x * p + y * q == 1
  }

  lemma {:induction false} Bezout(a: nat, b: nat) returns (x: int, y: int, p: nat, q: nat)
    requires a > 0 || b > 0
    ensures Combines(Gcd(a, b), a, b, x, y, p, q)
    decreases b
  {
    if b == 0 {
      x, y, p, q := 1, 0, 1, 0;
    } else {
      hide Combines;
      var u, v, s, t := Bezout(b, a % b);
      x, y, p, q := BezoutStep(a, b, Gcd(b, a % b), s, t, u, v);
    }
  }

  lemma BezoutStep(a: nat, b: nat, g: nat, s: nat, t: nat, u: int, v: int)
    returns (x: int, y: int, p: nat, q: nat)
    requires b > 0 && Combines(g, b, a % b, u, v, s, t)
    ensures Combines(g, a, b, x, y, p, q)
  {
    var k := a / b;
    ProductNat(k, s);
    Combine(g, k, s, t, a, b);
    Cofactors(u, v, k, s, t);
    x, y, p, q := v, u - k * v, k * s + t, s;
  }

  lemma ProductNat(k: nat, s: nat)
    ensures k * s >= 0
  {}

  lemma Combine(g: nat, k: nat, s: nat, t: nat, a: nat, b: nat)
    requires b > 0 && b == g * s && k == a / b && a % b == g * t
    ensures a == g * (k * s + t)
  {
    assert a == k * b + a % b;
    assert k * (g * s) == g * (k * s);
  }

  lemma Cofactors(u: int, v: int, k: int, s: int, t: int)
    requires u * s + v * t == 1
    ensures v * (k * s + t) + (u - k * v) * s == 1
  {
    assert v * (k * s + t) == v * (k * s) + v * t;
    assert (u - k * v) * s == u * s - (k * v) * s;
    assert v * (k * s) == (k * v) * s;
  }
}
