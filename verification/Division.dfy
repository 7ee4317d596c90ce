/** math.c: 64-bit division on a 32-bit machine. Machine words are the integers they denote,
    and every operation that can overflow is reduced explicitly. */
module Division {
  import opened Basics

  const TWO63 := 0x8000_0000_0000_0000

  type S64 = x: int | -0x8000_0000_0000_0000 <= x < 0x8000_0000_0000_0000

  /** Dividing by zero raises the processor's divide error. */
  datatype Result<T> = Ok(value: T) | DivideError

  lemma {:induction false} Pow2Add(m: nat, n: nat)
    ensures Pow2(m + n) == Pow2(m) * Pow2(n)
  {
    if m > 0 { Pow2Add(m - 1, n); }
  }

  lemma {:induction false} Pow2Less(m: nat, n: nat)
    requires m < n
    ensures Pow2(m) < Pow2(n)
  {
    if m + 1 < n { Pow2Less(m, n - 1); }
  }

  lemma Pow2Values()
    ensures Pow2(0) == 1 && Pow2(1) == 2 && Pow2(32) == U32 && Pow2(63) == TWO63 && Pow2(64) == TWO64
  {
    hide Pow2;
    Pow2Small();
    Pow2Add(2, 2);
    Pow2Add(4, 4);
    Pow2Add(8, 8);
    Pow2Add(16, 16);
    Pow2Add(32, 32);
    Pow2Add(1, 63);
  }

  lemma Pow2Small()
    ensures Pow2(0) == 1 && Pow2(1) == 2 && Pow2(2) == 4
  {}

  function ShiftLeft(a: U64, n: nat): U64 { a * Pow2(n) % TWO64 }

  function ShiftRight(a: U64, n: nat): U64 {
    ShrinkFits(a, Pow2(n));
    a / Pow2(n)
  }

  lemma ShrinkFits(a: nat, p: nat)
    requires p >= 1
    ensures 0 <= a / p <= a
  {}

  // ---- __clzdi2 ----

  /** The test of a against a mask of its k top bits. */
  predicate TopClear(a: U64, k: nat)
    requires k <= 64
  {
    a < Pow2(64 - k)
  }

  /** n leading zeros of a0 have been shifted out to give a, whose top w bits are not all zero. */
  predicate Shifted(a0: U64, a: U64, n: nat, w: nat)
    requires w <= 64
  {
    a == a0 * Pow2(n) && (a0 > 0 ==> !TopClear(a, w))
  }

  lemma Halve(a0: U64, a: U64, n: nat, w: nat)
    requires 0 < w <= 32 && Shifted(a0, a, n, 2 * w)
    ensures var b := if TopClear(a, w) then w else 0; Shifted(a0, ShiftLeft(a, b), n + b, w)
    ensures a0 == 0 ==> TopClear(a, w)
  {
    hide Pow2, ShiftLeft;
    Pow2Values();
    var b := if TopClear(a, w) then w else 0;
    Pow2Add(n, b);
    ScaleAssoc(a0, Pow2(n), Pow2(b));
    Pow2Add(64 - 2 * w, w);
    Pow2Add(64 - w, w);
    if TopClear(a, w) {
      Scale(a, Pow2(64 - w), Pow2(w));
      if a0 > 0 { ScaleUp(Pow2(64 - 2 * w), a, Pow2(w)); }
    }
    ShiftLeftFits(a, b);
  }

  lemma ShiftLeftFits(a: U64, n: nat)
    requires a * Pow2(n) < TWO64
    ensures ShiftLeft(a, n) == a * Pow2(n)
  {}

  lemma LeadingBit(a0: U64, a: U64, n: nat)
    requires Shifted(a0, a, n, 2)
    ensures var r := n + if TopClear(a, 1) then 1 else 0;
            a0 > 0 ==> r <= 63 && Pow2(63 - r) <= a0 < Pow2(64 - r)
    ensures a0 == 0 ==> TopClear(a, 1)
  {
    hide Pow2;
    Pow2Values();
    if a0 > 0 {
      if n > 63 {
        if n > 64 { Pow2Less(64, n); }
        ScaleUp(1, a0, Pow2(n));
        assert false;
      }
      Pow2Add(64 - n, n);
      Pow2Add(63 - n, n);
      Unscale(a0, Pow2(64 - n), Pow2(n));
      if TopClear(a, 1) {
        Unscale(a0, Pow2(63 - n), Pow2(n));
        if n == 63 { assert false; }
        Pow2Add(62 - n, n);
        Pow2Add(1, 62);
        UnscaleUp(Pow2(62 - n), a0, Pow2(n));
      } else {
        UnscaleUp(Pow2(63 - n), a0, Pow2(n));
      }
    }
  }

  lemma Unscale(a: int, b: int, p: int)
    requires a * p < b * p && p > 0
    ensures a < b
  {}

  lemma UnscaleUp(a: int, b: int, p: int)
    requires a * p <= b * p && p > 0
    ensures a <= b
  {}

  lemma ScaleAssoc(a: int, b: int, c: int)
    ensures a * (b * c) == (a * b) * c
  {}

  method CountLeadingZeros(a0: U64) returns (r: nat)
    ensures a0 > 0 ==> r <= 63 && Pow2(63 - r) <= a0 < Pow2(64 - r)
    ensures a0 == 0 ==> r == 63
  {
    hide Pow2, Shifted, ShiftLeft;
    Pow2Values();
    var a, n := a0, 0;
    assert Shifted(a0, a, n, 64) by { ShiftedNone(a0); }
    Halve(a0, a, n, 32);
    var b := if TopClear(a, 32) then 32 else 0;
    n, a := n + b, ShiftLeft(a, b);
    Halve(a0, a, n, 16);
    b := if TopClear(a, 16) then 16 else 0;
    n, a := n + b, ShiftLeft(a, b);
    Halve(a0, a, n, 8);
    b := if TopClear(a, 8) then 8 else 0;
    n, a := n + b, ShiftLeft(a, b);
    Halve(a0, a, n, 4);
    b := if TopClear(a, 4) then 4 else 0;
    n, a := n + b, ShiftLeft(a, b);
    Halve(a0, a, n, 2);
    b := if TopClear(a, 2) then 2 else 0;
    n, a := n + b, ShiftLeft(a, b);
    LeadingBit(a0, a, n);
    r := n + if TopClear(a, 1) then 1 else 0;
  }

  lemma ShiftedNone(a: U64)
    ensures Shifted(a, a, 0, 64)
  {
    Pow2Small();
  }

  // ---- __divmoddi4 ----

  /** The quotient and remainder every caller wants. */
  predicate IsDivision(a: int, b: U64, q: int, r: int) { a == q * b + r && 0 <= r < b }

  /** There is only one. */
  lemma OneDivision(a: nat, b: U64, q: int, r: int)
    requires IsDivision(a, b, q, r)
    ensures q == a / b && r == a % b
  {
    DivisionIff(a, b, q);
  }

  // Halfway through the long division, k bits of the numerator are still to come: hi is the
  // numerator without them and lo their value;

  predicate Split(a0: U64, k: nat, hi: int, lo: int) {
    k <= 63 && a0 == hi * Pow2(k) + lo && 0 <= lo < Pow2(k) && 0 <= hi
  }

  // they sit at the top of `a`, above the quotient so far, whose last bit is still in `wrap`;

  predicate Register(k: nat, a: U64, wrap: U64, lo: int, q: int) {
    && k <= 63
    && a == lo * Pow2(64 - k) + q / 2
    && (wrap == 0 || wrap == TWO64 - 1) && wrap % 2 == q % 2
    && 0 <= q
  }

  // and hi has been divided. A divisor above 2^63 takes a single step.

  predicate LongDivision(a0: U64, b: U64, k: nat, a: U64, rem: U64, wrap: U64, hi: int, lo: int, q: int) {
    && Split(a0, k, hi, lo)
    && Register(k, a, wrap, lo, q)
    && IsDivision(hi, b, q, rem) && 0 <= q
    && (b > TWO63 && k > 0 ==> k == 1 && q == 0)
  }

  /** The arithmetic shift right by 63 of x taken as signed. */
  function SignFill(x: U64): U64 { if x >= TWO63 then TWO64 - 1 else 0 }

  /** b & wrap, for wrap all zeros or all ones. */
  function Mask(b: U64, wrap: U64): U64
    requires wrap == 0 || wrap == TWO64 - 1
  {
    if wrap == 0 then 0 else b
  }

  /** (x << 1) | bit. */
  function ShiftIn(x: U64, bit: int): U64
    requires bit == 0 || bit == 1
  {
    x * 2 % TWO64 + bit
  }

  /** The sign trick decides b > rem for every pair it meets, also above 2^63. */
  lemma SignTrick(b: U64, rem: U64)
    requires rem < 2 * b && (b > TWO63 ==> rem >= b)
    ensures SignFill((b - rem - 1) % TWO64) == if b > rem then 0 else TWO64 - 1
  {}

  /** The top bit of a is the next bit of the numerator. */
  lemma TakeBit(lo: int, p: int, r: int, h: int)
    requires p * r == TWO63 && p >= 1 && 0 <= lo < 2 * p && 0 <= h < r
    ensures var bit := if lo >= p then 1 else 0; var rest := lo - bit * p; var a := lo * r + h;
            0 <= rest < p && a < TWO64 && (a >= TWO63 <==> bit == 1) && a * 2 % TWO64 == rest * (2 * r) + 2 * h
  {
    var bit := if lo >= p then 1 else 0;
    var rest := lo - bit * p;
    ScaleUp(rest, p - 1, r);
    assert (p - 1) * r == p * r - r;
    assert lo * r == rest * r + bit * (p * r) by { ScaleDistribute(rest, bit, p, r); }
    assert rest * (2 * r) == 2 * (rest * r);
  }

  lemma ScaleDistribute(x: int, c: int, p: int, r: int)
    ensures (x + c * p) * r == x * r + c * (p * r)
  {}

  lemma BoundTaken(hi: int, lo: int, p: int, r: int)
    requires 0 <= hi && 0 <= lo && hi * p + lo < p * r && p >= 1
    ensures hi < r
  {
    if hi >= r { ScaleUp(r, hi, p); }
  }

  lemma QuotientBelow(q: int, b: int, rem: int)
    requires q >= 0 && b >= 1 && rem >= 0
    ensures q <= q * b + rem
  {}

  lemma DoubleTaken(hi: int, bit: int, p: int)
    ensures hi * (2 * p) + bit * p == (2 * hi + bit) * p
  {}

  lemma NextQuotient(q: int, b: int, rem: int, bit: int)
    ensures 2 * (q * b + rem) + bit == (2 * q) * b + (2 * rem + bit) == (2 * q + 1) * b + (2 * rem + bit - b)
  {}

  function Bit(k: nat, lo: int): int
    requires k > 0
  {
    if lo >= Pow2(k - 1) then 1 else 0
  }

  lemma SplitStep(a0: U64, k: nat, hi: int, lo: int)
    requires k > 0 && Split(a0, k, hi, lo)
    ensures Split(a0, k - 1, 2 * hi + Bit(k, lo), lo - Bit(k, lo) * Pow2(k - 1))
  {
    var p := Pow2(k - 1);
    assert Pow2(k) == 2 * p;
    DoubleTaken(hi, Bit(k, lo), p);
  }

  lemma HiBelow(a0: U64, k: nat, hi: int, lo: int)
    requires Split(a0, k, hi, lo)
    ensures hi < Pow2(64 - k) && hi <= a0 && (k == 0 ==> hi == a0)
  {
    hide Pow2;
    Pow2Values();
    Pow2Add(k, 64 - k);
    BoundTaken(hi, lo, Pow2(k), Pow2(64 - k));
    if hi > 0 { ScaleUp(1, Pow2(k), hi); }
  }

  lemma RegisterStep(k: nat, a: U64, wrap: U64, lo: int, q: int, wrap1: U64)
    requires 0 < k && Register(k, a, wrap, lo, q) && 0 <= lo < Pow2(k) && q < Pow2(64 - k)
    requires wrap1 == 0 || wrap1 == TWO64 - 1
    ensures a / TWO63 == Bit(k, lo)
    ensures Register(k - 1, ShiftIn(a, wrap % 2), wrap1, lo - Bit(k, lo) * Pow2(k - 1), 2 * q + wrap1 % 2)
  {
    var p, r := Pow2(k - 1), Pow2(64 - k);
    assert Pow2(k) == 2 * p && Pow2(64 - (k - 1)) == 2 * r;
    hide Pow2;
    Pow2Values();
    Pow2Add(k - 1, 64 - k);
    hide ShiftIn;
    TakeBit(lo, p, r, q / 2);
    HalfSum(q / 2, q % 2);
    HalfSum(q, wrap1 % 2);
    ShiftInSplit(a, wrap % 2, (lo - Bit(k, lo) * p) * (2 * r) + 2 * (q / 2));
  }

  lemma HalfSum(q: int, w: int)
    requires w == 0 || w == 1
    ensures (2 * q + w) / 2 == q && (2 * q + w) % 2 == w
  {}

  lemma ShiftInSplit(a: U64, w: int, x: int)
    requires (w == 0 || w == 1) && a * 2 % TWO64 == x
    ensures ShiftIn(a, w) == x + w
  {}

  /** One turn of the loop. */
  lemma OneBit(a0: U64, b: U64, k: nat, a: U64, rem: U64, wrap: U64, hi: int, lo: int, q: int)
    requires k > 0 && 0 < b <= a0 && LongDivision(a0, b, k, a, rem, wrap, hi, lo, q)
    ensures var bit := Bit(k, lo);
            var rem1 := 2 * rem + bit;
            && a / TWO63 == bit && rem1 < TWO64 && ShiftIn(rem, bit) == rem1
            && SignFill((b - rem1 - 1) % TWO64) == (if b > rem1 then 0 else TWO64 - 1)
            && LongDivision(a0, b, k - 1, ShiftIn(a, wrap % 2), if b > rem1 then rem1 else rem1 - b,
                            if b > rem1 then 0 else TWO64 - 1, 2 * hi + bit, lo - bit * Pow2(k - 1),
                            2 * q + if b > rem1 then 0 else 1)
  {
    hide Pow2, Split, Register, Bit, IsDivision, ShiftIn, SignFill;
    var bit := Bit(k, lo);
    var rem1 := 2 * rem + bit;
    BitIsBit(k, lo);
    SplitBounds(a0, k, hi, lo);
    SplitStep(a0, k, hi, lo);
    HiBelow(a0, k, hi, lo);
    HiBelow(a0, k - 1, 2 * hi + bit, lo - bit * Pow2(k - 1));
    QuotientStep(hi, b, q, rem, bit);
    ShiftFits(rem, bit);
    SignTrick(b, rem1);
    RegisterStep(k, a, wrap, lo, q, if b > rem1 then 0 else TWO64 - 1);
  }

  lemma QuotientStep(hi: int, b: U64, q: int, rem: int, bit: int)
    requires IsDivision(hi, b, q, rem) && q >= 0 && (bit == 0 || bit == 1)
    ensures var rem1 := 2 * rem + bit;
            IsDivision(2 * hi + bit, b, 2 * q + if b > rem1 then 0 else 1, if b > rem1 then rem1 else rem1 - b)
    ensures q <= hi && 2 * rem + bit <= 2 * hi + bit && 2 * rem + bit < 2 * b && (q == 0 ==> rem == hi)
  {
    hide IsDivision;
    NextIsDivision(hi, b, q, rem, bit);
    DivisionBounds(hi, b, q, rem);
  }

  lemma NextIsDivision(hi: int, b: U64, q: int, rem: int, bit: int)
    requires IsDivision(hi, b, q, rem) && (bit == 0 || bit == 1)
    ensures var rem1 := 2 * rem + bit;
            IsDivision(2 * hi + bit, b, 2 * q + if b > rem1 then 0 else 1, if b > rem1 then rem1 else rem1 - b)
  {
    NextQuotient(q, b, rem, bit);
  }

  lemma DivisionBounds(hi: int, b: U64, q: int, rem: int)
    requires IsDivision(hi, b, q, rem) && q >= 0
    ensures q <= hi && 0 <= rem <= hi && rem < b && (q == 0 ==> rem == hi)
  {
    QuotientBelow(q, b, rem);
    ProductBelow(q, b);
  }

  lemma ProductBelow(q: int, b: int)
    requires q >= 0 && b >= 0
    ensures q * b >= 0
  {}

  lemma ShiftFits(x: U64, bit: int)
    requires (bit == 0 || bit == 1) && 2 * x + bit < TWO64
    ensures ShiftIn(x, bit) == 2 * x + bit
  {}

  lemma BitIsBit(k: nat, lo: int)
    requires k > 0
    ensures Bit(k, lo) == 0 || Bit(k, lo) == 1
  {}

  lemma SplitBounds(a0: U64, k: nat, hi: int, lo: int)
    requires Split(a0, k, hi, lo)
    ensures 0 <= lo < Pow2(k) && 0 <= hi && k <= 63
  {}

  /** Where the long division starts: bits is between 1 and 63, so both shifts are defined. */
  lemma StartDivision(a0: U64, b: U64, ca: nat, cb: nat)
    requires 1 < b <= a0
    requires ca <= 63 && Pow2(63 - ca) <= a0 < Pow2(64 - ca)
    requires cb <= 63 && Pow2(63 - cb) <= b < Pow2(64 - cb)
    ensures ca <= cb <= 62
    ensures var k := cb - ca + 1;
            LongDivision(a0, b, k, ShiftLeft(a0, 64 - k), ShiftRight(a0, k), 0, a0 / Pow2(k), a0 % Pow2(k), 0)
  {
    hide Pow2, ShiftLeft, ShiftRight;
    StartShifts(a0, b, ca, cb);
    var k := cb - ca + 1;
    StartBelow(a0, b, ca, cb);
    StartState(a0, b, k);
  }

  /** Both shift counts are in range, and a divisor above 2^63 takes a single step. */
  lemma StartShifts(a0: U64, b: U64, ca: nat, cb: nat)
    requires 1 < b <= a0
    requires ca <= 63 && Pow2(63 - ca) <= a0 < Pow2(64 - ca)
    requires cb <= 63 && Pow2(63 - cb) <= b < Pow2(64 - cb)
    ensures ca <= cb <= 62 && (b > TWO63 ==> cb == 0)
  {
    hide Pow2;
    Pow2Values();
    if cb == 63 { assert false; }
    if ca > cb {
      if 64 - ca < 63 - cb { Pow2Less(64 - ca, 63 - cb); }
      assert false;
    }
    if b > TWO63 && cb > 0 {
      if cb > 1 { Pow2Less(64 - cb, 63); }
      assert false;
    }
  }

  lemma StartBelow(a0: U64, b: U64, ca: nat, cb: nat)
    requires ca <= cb <= 62 && a0 < Pow2(64 - ca) && Pow2(63 - cb) <= b
    ensures a0 < Pow2(cb - ca + 1) * b
  {
    hide Pow2;
    var k := cb - ca + 1;
    Pow2Add(k, 63 - cb);
    ScaleUp(Pow2(63 - cb), b, Pow2(k));
  }

  lemma StartState(a0: U64, b: U64, k: nat)
    requires 0 < k <= 63 && b > 0 && a0 < Pow2(k) * b && (b > TWO63 ==> k == 1)
    ensures LongDivision(a0, b, k, ShiftLeft(a0, 64 - k), ShiftRight(a0, k), 0, a0 / Pow2(k), a0 % Pow2(k), 0)
  {
    hide Pow2;
    Pow2Values();
    Pow2Add(k, 64 - k);
    var p, r := Pow2(k), Pow2(64 - k);
    DivisionBelow(a0, p, b);
    ShiftOut(a0, p, r);
  }

  lemma DivisionBelow(a: int, p: int, b: int)
    requires 0 <= a < p * b && p >= 1
    ensures a == (a / p) * p + a % p && 0 <= a / p < b && 0 <= a % p < p
  {
    if a / p >= b { ScaleUp(b, a / p, p); }
  }

  lemma ShiftOut(a: int, p: int, r: int)
    requires 0 <= a < TWO64 && p * r == TWO64 && p >= 1 && r >= 1
    ensures a * r % TWO64 == (a % p) * r
  {
    var q, m := a / p, a % p;
    assert a == q * p + m;
    assert a * r == q * TWO64 + m * r by { ScaleDistribute(m, q, p, r); }
    ScaleUp(m, p - 1, r);
    assert (p - 1) * r == p * r - r;
    ModMultiple(q, m * r);
  }

  lemma ModMultiple(q: int, x: int)
    requires 0 <= x < TWO64
    ensures (q * TWO64 + x) % TWO64 == x
  {}

  lemma EasyCases(a: U64, b: U64)
    ensures b > a ==> IsDivision(a, b, 0, a)
    ensures b == 1 ==> IsDivision(a, b, a, 0)
    ensures b > 0 ==> IsDivision(a, b, a / b, a % b)
  {}

  /** OneBit in the words of the loop body. */
  lemma Turn(a0: U64, b: U64, k: nat, a: U64, rem: U64, wrap: U64, hi: int, lo: int, q: int)
    requires k > 0 && 0 < b <= a0 && LongDivision(a0, b, k, a, rem, wrap, hi, lo, q) && (wrap == 0 || wrap == TWO64 - 1)
    ensures 0 <= a / TWO63 <= 1
    ensures var rem1 := ShiftIn(rem, a / TWO63);
            var wrap1 := SignFill((b - rem1 - 1) % TWO64);
            && (wrap1 == 0 || wrap1 == TWO64 - 1)
            && LongDivision(a0, b, k - 1, ShiftIn(a, wrap % 2), (rem1 - Mask(b, wrap1)) % TWO64, wrap1,
                            2 * hi + Bit(k, lo), lo - Bit(k, lo) * Pow2(k - 1), 2 * q + wrap1 % 2)
  {
    hide LongDivision, ShiftIn, SignFill, Pow2, Bit;
    OneBit(a0, b, k, a, rem, wrap, hi, lo, q);
    BitIsBit(k, lo);
  }

  /** __divmoddi4. */
  method DivMod(a0: U64, b: U64) returns (res: Result<(U64, U64)>)
    ensures b == 0 <==> res.DivideError?
    ensures res.Ok? ==> IsDivision(a0, b, res.value.0, res.value.1)
  {
    hide Pow2, LongDivision, IsDivision, ShiftLeft, ShiftRight, ShiftIn, SignFill, Mask, Bit;
    EasyCases(a0, b);
    if b > a0 {
      return Ok((0, a0));
    }
    if b < U32 {
      if b == 0 {
        return DivideError;
      }
      if b == 1 {
        return Ok((a0, 0));
      }
      if a0 < U32 {
        return Ok((a0 / b, a0 % b));
      }
    }
    var cb := CountLeadingZeros(b);
    var ca := CountLeadingZeros(a0);
    StartDivision(a0, b, ca, cb);
    var bits := cb - ca + 1;
    var rem: U64 := ShiftRight(a0, bits);
    var a: U64 := ShiftLeft(a0, 64 - bits);
    var wrap: U64 := 0;
    ghost var hi, lo, q := a0 / Pow2(bits), a0 % Pow2(bits), 0;
    while bits > 0
      invariant 0 <= bits <= 63 && (wrap == 0 || wrap == TWO64 - 1)
      invariant LongDivision(a0, b, bits, a, rem, wrap, hi, lo, q)
    {
      bits := bits - 1;
      Turn(a0, b, bits + 1, a, rem, wrap, hi, lo, q);
      ghost var bit := Bit(bits + 1, lo);
      hi, lo := 2 * hi + bit, lo - bit * Pow2(bits);
      rem := ShiftIn(rem, a / TWO63);
      a := ShiftIn(a, wrap % 2);
      wrap := SignFill((b - rem - 1) % TWO64);
      q := 2 * q + wrap % 2;
      rem := (rem - Mask(b, wrap)) % TWO64;
    }
    EndDivision(a0, b, a, rem, wrap, hi, lo, q);
    res := Ok((ShiftIn(a, wrap % 2), rem));
  }

  lemma EndDivision(a0: U64, b: U64, a: U64, rem: U64, wrap: U64, hi: int, lo: int, q: int)
    requires LongDivision(a0, b, 0, a, rem, wrap, hi, lo, q)
    ensures ShiftIn(a, wrap % 2) == q && IsDivision(a0, b, q, rem)
  {
    Pow2Values();
    hide Pow2, IsDivision;
    HiBelow(a0, 0, hi, lo);
    assert q <= hi by { EndBelow(hi, b, q, rem); }
  }

  lemma EndBelow(hi: int, b: U64, q: int, rem: int)
    requires IsDivision(hi, b, q, rem) && q >= 0
    ensures q <= hi
  {
    QuotientBelow(q, b, rem);
  }

  // ---- __udivmoddi4 ----

  /** den is the divisor shifted left s times, and qbit is 2^s. */
  predicate Justified(b: U64, den: U64, qbit: U64, s: nat) { qbit == Pow2(s) && den == b * qbit }

  /** The numerator is reduced to num, below twice the shifted divisor; at the end qbit is 0
      and num below the divisor itself. */
  predicate ShiftSubtract(a0: U64, b: U64, num: U64, den: U64, qbit: U64, quot: U64, s: int) {
    && a0 == quot * b + num
    && (qbit > 0 ==> s >= 0 && Justified(b, den, qbit, s) && num < 2 * den)
    && (qbit == 0 ==> num < b)
  }

  /** __udivmoddi4: shift and subtract. */
  method UDivMod(a0: U64, b: U64) returns (res: Result<(U64, U64)>)
    ensures b == 0 <==> res.DivideError?
    ensures res.Ok? ==> IsDivision(a0, b, res.value.0, res.value.1)
  {
    hide Pow2, Justified, ShiftSubtract, IsDivision;
    var quot: U64, qbit: U64 := 0, 1;
    if b == 0 {
      return DivideError;
    }
    var den: U64, num: U64 := b, a0;
    ghost var s := 0;
    JustifiedStart(b);
    while den < TWO63
      invariant s >= 0 && Justified(b, den, qbit, s)
      decreases TWO64 - den
    {
      Doubled(b, den, qbit, s);
      den := den * 2 % TWO64;
      qbit := qbit * 2 % TWO64;
      s := s + 1;
    }
    SubtractStart(a0, b, den, qbit, s);
    quot, num := Subtract(a0, b, den, qbit, s);
    res := Ok((quot, num));
  }

  /** Its second loop. */
  method Subtract(num0: U64, b: U64, den0: U64, qbit0: U64, ghost s0: int) returns (quot: U64, num: U64)
    requires b > 0 && ShiftSubtract(num0, b, num0, den0, qbit0, 0, s0)
    ensures IsDivision(num0, b, quot, num)
  {
    hide Pow2, Justified, ShiftSubtract, IsDivision;
    quot, num := 0, num0;
    var den: U64, qbit: U64 := den0, qbit0;
    ghost var s := s0;
    while qbit > 0
      invariant ShiftSubtract(num0, b, num, den, qbit, quot, s)
    {
      Subtracted(num0, b, num, den, qbit, quot, s);
      if den <= num {
        num := num - den;
        quot := (quot + qbit) % TWO64;
      }
      den := den / 2;
      qbit := qbit / 2;
      s := s - 1;
    }
    SubtractEnd(num0, b, num, den, quot, s);
  }

  lemma JustifiedStart(b: U64)
    ensures Justified(b, b, 1, 0)
  {}

  lemma Doubled(b: U64, den: U64, qbit: U64, s: nat)
    requires 0 < b && den < TWO63 && Justified(b, den, qbit, s)
    ensures den * 2 % TWO64 == 2 * den && qbit * 2 % TWO64 == 2 * qbit
    ensures Justified(b, 2 * den, 2 * qbit, s + 1) && den > 0
  {
    ScaleUp(1, b, qbit);
    assert 2 * (b * qbit) == b * (2 * qbit);
    NoWrap(den * 2);
    NoWrap(qbit * 2);
  }

  lemma NoWrap(x: nat)
    requires x < TWO64
    ensures x % TWO64 == x
  {}

  lemma SubtractStart(a0: U64, b: U64, den: U64, qbit: U64, s: nat)
    requires den >= TWO63 && Justified(b, den, qbit, s)
    ensures ShiftSubtract(a0, b, a0, den, qbit, 0, s)
  {}

  lemma Halved(b: U64, den: U64, qbit: U64, s: nat)
    requires Justified(b, den, qbit, s)
    ensures qbit / 2 == 0 <==> s == 0
    ensures s == 0 ==> den == b
    ensures s > 0 ==> Justified(b, den / 2, qbit / 2, s - 1) && den == 2 * (den / 2)
  {
    if s > 0 { assert b * qbit == 2 * (b * Pow2(s - 1)); }
  }

  lemma Subtracted(a0: U64, b: U64, num: U64, den: U64, qbit: U64, quot: U64, s: int)
    requires qbit > 0 && b > 0 && ShiftSubtract(a0, b, num, den, qbit, quot, s)
    ensures den <= num ==> quot + qbit < TWO64 && (quot + qbit) % TWO64 == quot + qbit
    ensures var num1: U64 := if den <= num then num - den else num;
            ShiftSubtract(a0, b, num1, den / 2, qbit / 2, if den <= num then (quot + qbit) % TWO64 else quot, s - 1)
  {
    hide Pow2, Justified;
    Halved(b, den, qbit, s);
    assert den == b * qbit by { JustifiedDen(b, den, qbit, s); }
    if den <= num {
      assert (quot + qbit) * b == quot * b + b * qbit;
      QuotientBelow(quot + qbit, b, num - den);
      NoWrap(quot + qbit);
    }
  }

  lemma JustifiedDen(b: U64, den: U64, qbit: U64, s: nat)
    requires Justified(b, den, qbit, s)
    ensures den == b * qbit
  {}

  lemma SubtractEnd(a0: U64, b: U64, num: U64, den: U64, quot: U64, s: int)
    requires ShiftSubtract(a0, b, num, den, 0, quot, s)
    ensures IsDivision(a0, b, quot, num)
  {}

  /** The two algorithms, and the definition of division, agree. */
  method Agree(a: U64, b: U64) returns (x: Result<(U64, U64)>, y: Result<(U64, U64)>)
    ensures x == y == if b == 0 then DivideError else Ok((a / b, a % b))
  {
    hide IsDivision;
    x := DivMod(a, b);
    y := UDivMod(a, b);
    if b > 0 {
      OneDivision(a, b, x.value.0, x.value.1);
      OneDivision(a, b, y.value.0, y.value.1);
    }
  }

  // ---- the signed forms ----

  function Unsigned(x: S64): U64 { x % TWO64 }
  function Signed(x: U64): S64 { if x < TWO63 then x else x - TWO64 }

  /** arith64_neg: the two's complement of a when b is negative. */
  function Negate(a: U64, b: S64): U64 { if b < 0 then (TWO64 - a) % TWO64 else a }

  /** arith64_abs. The least number stays as it is, which unsigned is 2^63. */
  function Abs(a: S64): U64 { Negate(Unsigned(a), a) }

  /** C's division: the quotient q and remainder r of a by b, truncating toward zero. */
  predicate Truncates(a: int, b: int, q: int, r: int) {
    a == q * b + r && Magnitude(r) < Magnitude(b) && (r == 0 || (r < 0 <==> a < 0))
  }

  /** The only operands whose quotient does not fit. */
  predicate Overflows(a: S64, b: S64) { a == -TWO63 && b == -1 }

  function Quotient(a: int, b: int): int
    requires b != 0
  {
    var q := Magnitude(a) / Magnitude(b);
    if (a < 0) != (b < 0) then -q else q
  }

  function Remainder(a: int, b: int): int
    requires b != 0
  {
    var r := Magnitude(a) % Magnitude(b);
    if a < 0 then -r else r
  }

  lemma TruncatesBySigns(a: int, b: int)
    requires b != 0
    ensures Truncates(a, b, Quotient(a, b), Remainder(a, b))
  {
    var x: int, y: int := Magnitude(a), Magnitude(b);
    var q, r := x / y, x % y;
    assert x == q * y + r;
    NegateProduct(q, y);
  }

  lemma OneTruncation(a: int, b: int, q: int, r: int)
    requires b != 0 && Truncates(a, b, q, r)
    ensures q == Quotient(a, b) && r == Remainder(a, b)
  {
    hide Quotient, Remainder;
    TruncatesBySigns(a, b);
    var t, m := Quotient(a, b), Remainder(a, b);
    SubtractProducts(q, t, b);
    assert (q - t) * b == m - r;
    SmallMultiple(q - t, b);
  }

  lemma SubtractProducts(q: int, t: int, b: int)
    ensures (q - t) * b == q * b - t * b
  {}

  lemma SignedResult(q: int, flip: bool)
    requires 0 <= q <= TWO63
    ensures Signed(Negate(q, if flip then -1 else 0)) == if flip then -q else if q == TWO63 then -TWO63 else q
  {}

  /** __divdi3: the truncated quotient, which wraps exactly for the least number over -1. */
  method DivSigned(a: S64, b: S64) returns (res: Result<S64>)
    ensures b == 0 <==> res.DivideError?
    ensures b != 0 && !Overflows(a, b) ==> res.value == Quotient(a, b)
    ensures Overflows(a, b) ==> res.value == -TWO63 && Quotient(a, b) == TWO63
  {
    hide IsDivision, Abs, Signed, Negate;
    AbsMagnitude(a);
    AbsMagnitude(b);
    var d := DivMod(Abs(a), Abs(b));
    if d.DivideError? {
      return DivideError;
    }
    OneDivision(Abs(a), Abs(b), d.value.0, d.value.1);
    QuotientFits(a, b);
    SignedResult(d.value.0, (a < 0) != (b < 0));
    res := Ok(Signed(Negate(d.value.0, if (a < 0) != (b < 0) then -1 else 0)));
  }

  /** __moddi3: the truncated remainder, for every pair. */
  method ModSigned(a: S64, b: S64) returns (res: Result<S64>)
    ensures b == 0 <==> res.DivideError?
    ensures b != 0 ==> res.value == Remainder(a, b)
  {
    hide IsDivision, Abs, Signed, Negate;
    AbsMagnitude(a);
    AbsMagnitude(b);
    var d := DivMod(Abs(a), Abs(b));
    if d.DivideError? {
      return DivideError;
    }
    OneDivision(Abs(a), Abs(b), d.value.0, d.value.1);
    RemainderFits(a, b);
    SignedResult(d.value.1, a < 0);
    NegateBySign(d.value.1, a);
    res := Ok(Signed(Negate(d.value.1, a)));
  }

  lemma NegateBySign(q: U64, a: S64)
    ensures Negate(q, a) == Negate(q, if a < 0 then -1 else 0)
  {}

  lemma RemainderFits(a: S64, b: S64)
    requires b != 0
    ensures 0 <= Magnitude(a) % Magnitude(b) < TWO63
  {}

  lemma AbsMagnitude(a: S64)
    ensures Abs(a) == Magnitude(a)
  {}

  lemma QuotientFits(a: S64, b: S64)
    requires b != 0
    ensures Magnitude(a) / Magnitude(b) <= TWO63
    ensures Magnitude(a) / Magnitude(b) == TWO63 <==> a == -TWO63 && (b == 1 || b == -1)
  {
    var x, y := Magnitude(a), Magnitude(b);
    ShrinkFits(x, y);
    if y >= 2 { HalfFits(x, y); }
  }

  lemma HalfFits(x: nat, y: nat)
    requires y >= 2
    ensures 2 * (x / y) <= x
  {
    assert x == (x / y) * y + x % y;
    if x / y > 0 { ScaleUp(2, y, x / y); }
  }
}
