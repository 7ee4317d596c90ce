/** What several modules share. */
module Basics {
  // ---- machine words ----

  const U32 := 0x1_0000_0000
  const TWO31 := 0x8000_0000
  const TWO64 := 0x1_0000_0000_0000_0000

  type Byte = b: int | 0 <= b < 256
  type Word = w: int | 0 <= w < 0x1_0000_0000
  type U64 = x: int | 0 <= x < 0x1_0000_0000_0000_0000

  /** The end of a C string. */
  const NUL := '\0'

  /** A null pointer, for processes and pages that are numbers. */
  const NIL := -1

  // ---- collections ----

  datatype Option<+T> = None | Some(value: T)

  ghost predicate NoRepeats<T>(s: seq<T>) {
    forall i, j :: 0 <= i < j < |s| ==> s[i] != s[j]
  }

  function Min(a: int, b: int): int { if a < b then a else b }

  function Max(a: int, b: int): int { if a < b then b else a }

  function Magnitude(a: int): nat { if a < 0 then -a else a }

  function Pow2(n: nat): (p: nat)
    ensures p >= 1
  {
    if n == 0 then 1 else 2 * Pow2(n - 1)
  }

  /** Different numbers below m: there are at most m of them. */
  lemma {:induction false} Pigeonhole(s: seq<nat>, m: nat)
    requires NoRepeats(s) && forall i :: 0 <= i < |s| ==> s[i] < m
    ensures |s| <= m
  {
    if |s| > 0 {
      assert s[0] < m;
      if k :| 0 <= k < |s| && s[k] == m - 1 {
        Pigeonhole(s[..k] + s[k + 1..], m - 1);
      } else {
        Pigeonhole(s, m - 1);
      }
    }
  }

  // ---- products and quotients ----

  lemma Scale(a: int, b: int, p: int)
    requires a < b && p > 0
    ensures a * p < b * p
  {}

  lemma ScaleUp(a: int, b: int, p: int)
    requires a <= b && p >= 0
    ensures a * p <= b * p
  {}

  /** The quotient is the j with j * m <= x < (j + 1) * m. */
  lemma DivisionIff(x: nat, m: nat, j: int)
    requires m > 0
    ensures j == x / m <==> j * m <= x < j * m + m
    ensures j == x / m ==> x % m == x - j * m
  {
    var q := x / m;
    assert q * m <= x < q * m + m;
    if j > q { ScaleUp(q + 1, j, m); }
    if j < q { ScaleUp(j + 1, q, m); }
  }

  lemma NegateProduct(q: int, y: int)
    ensures (-q) * y == -(q * y) && q * (-y) == -(q * y) && (-q) * (-y) == q * y
  {}

  /** A nonzero multiple of b is at least as large as b. */
  lemma SmallMultiple(d: int, b: int)
    requires b != 0 && Magnitude(d * b) < Magnitude(b)
    ensures d == 0
  {
    NegateProduct(d, b);
    if d > 0 { if b > 0 { ScaleUp(1, d, b); } else { ScaleUp(1, d, -b); } }
    if d < 0 { if b > 0 { ScaleUp(1, -d, b); } else { ScaleUp(1, -d, -b); } }
  }
}
