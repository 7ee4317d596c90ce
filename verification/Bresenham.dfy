/** The line loop of fbline.c. */
module Bresenham {
  import opened Basics
  import opened Euclid

  const WIDTH := 1024
  const HEIGHT := 768

  type Int32 = x: int | -0x8000_0000 <= x < 0x8000_0000
  type Color = Word

  datatype Point = Point(x: int, y: int)

  function Sign(from: int, to: int): int { if from < to then 1 else -1 }

  // ---- the line ----

  /** n * minor / major, rounded to the nearest integer and halves up. */
  function Rounded(n: nat, minor: nat, major: nat): nat
    requires major > 0
  {
    (2 * (n * minor) + major) / (2 * major)
  }

  /** How many x and y steps n turns of the loop make. */
  function XSteps(n: nat, dx: nat, dy: nat): nat {
    if dx >= dy then n else Rounded(n, dx, dy)
  }

  function YSteps(n: nat, dx: nat, dy: nat): nat {
    if dx < dy then n else if dx == 0 then 0 else Rounded(n, dy, dx)
  }

  /** The point plotted in turn n of a line from p to q. */
  function At(p: Point, q: Point, n: nat): Point {
    var dx, dy := Magnitude(q.x - p.x), Magnitude(q.y - p.y);
    Point(p.x + Sign(p.x, q.x) * XSteps(n, dx, dy), p.y + Sign(p.y, q.y) * YSteps(n, dx, dy))
  }

  function Length(p: Point, q: Point): nat { Max(Magnitude(q.x - p.x), Magnitude(q.y - p.y)) }

  /** Rounding means being less than half a unit away, or half a unit above. */
  lemma RoundedIff(n: nat, minor: nat, major: nat, j: int)
    requires major > 0
    ensures j == Rounded(n, minor, major) <==> 2 * (j * major) <= 2 * (n * minor) + major < 2 * (j * major) + 2 * major
  {
    var x := 2 * (n * minor) + major;
    DivisionIff(x, 2 * major, j);
    assert j * (2 * major) == 2 * (j * major);
  }

  /** In one more turn the rounded coordinate moves by at most one, and moves exactly when
      the error test says so. */
  lemma NextRounded(n: nat, minor: nat, major: nat)
    requires minor <= major && major > 0
    ensures var j := Rounded(n, minor, major);
            var err := (j + 1) * major - (n + 1) * minor;
            && 2 * err >= 0 - minor
            && Rounded(n + 1, minor, major) == (if 2 * err <= major then j + 1 else j)
            && 2 * err <= 3 * major - 2 * minor && (minor == 0 ==> 2 * err <= 2 * major)
  {
    var j := Rounded(n, minor, major);
    RoundedIff(n, minor, major, j);
    RoundedIff(n + 1, minor, major, j);
    RoundedIff(n + 1, minor, major, j + 1);
    assert (n + 1) * minor == n * minor + minor;
    assert (j + 1) * major == j * major + major;
    if minor == 0 { RoundedIff(n, minor, major, 0); }
  }

  /** The loop leaves the first end and arrives at the second. */
  lemma RoundedEnds(minor: nat, major: nat)
    requires major > 0
    ensures Rounded(0, minor, major) == 0 && Rounded(major, minor, major) == minor
  {
    RoundedIff(0, minor, major, 0);
    RoundedIff(major, minor, major, minor);
    assert minor * major == major * minor;
  }

  lemma {:induction false} RoundedBelow(n: nat, minor: nat, major: nat)
    requires 0 < major && minor <= major && n <= major
    ensures 0 <= Rounded(n, minor, major) <= minor
    decreases major - n
  {
    RoundedEnds(minor, major);
    if n < major {
      NextRounded(n, minor, major);
      RoundedBelow(n + 1, minor, major);
    }
  }

  /** Every point is within half a pixel of the true line, measured along the minor axis. */
  lemma HalfPixel(p: Point, q: Point, n: nat)
    requires n <= Length(p, q)
    ensures var dx, dy := Magnitude(q.x - p.x), Magnitude(q.y - p.y);
            2 * Magnitude(XSteps(n, dx, dy) * dy - YSteps(n, dx, dy) * dx) <= Max(dx, dy)
  {
    var dx, dy := Magnitude(q.x - p.x), Magnitude(q.y - p.y);
    if dx >= dy && dx > 0 {
      RoundedIff(n, dy, dx, YSteps(n, dx, dy));
    } else if dy > dx {
      RoundedIff(n, dx, dy, XSteps(n, dx, dy));
    }
  }

  /** a lies between p and q. */
  predicate Between(p: int, a: int, q: int) { p <= a <= q || q <= a <= p }

  /** The line starts at p, ends at q, and not before its last turn. */
  lemma Ends(p: Point, q: Point, n: nat)
    requires n <= Length(p, q)
    ensures At(p, q, 0) == p && At(p, q, Length(p, q)) == q
    ensures n < Length(p, q) ==> At(p, q, n) != q
  {
    hide Rounded;
    var dx, dy := Magnitude(q.x - p.x), Magnitude(q.y - p.y);
    if dx >= dy && dx > 0 { RoundedEnds(dy, dx); } else if dy > dx { RoundedEnds(dx, dy); }
  }

  /** The line stays in the bounding box of its ends. */
  lemma InsideBox(p: Point, q: Point, n: nat)
    requires n <= Length(p, q)
    ensures Between(p.x, At(p, q, n).x, q.x) && Between(p.y, At(p, q, n).y, q.y)
  {
    var dx, dy := Magnitude(q.x - p.x), Magnitude(q.y - p.y);
    assert XSteps(n, dx, dy) <= dx && YSteps(n, dx, dy) <= dy by {
      if dx >= dy && dx > 0 { RoundedBelow(n, dy, dx); } else if dy > dx { RoundedBelow(n, dx, dy); }
    }
    hide XSteps, YSteps;
  }

  // ---- the loop ----

  predicate OnScreen(p: Point) { 0 <= p.x < WIDTH && 0 <= p.y < HEIGHT }

  function Pixel(p: Point): int { p.y * WIDTH + p.x }

  /** Index k of the frame buffer is one of the first m points. */
  ghost predicate Drawn(p: Point, q: Point, m: int, k: int) {
    exists n: nat :: n < m && OnScreen(At(p, q, n)) && Pixel(At(p, q, n)) == k
  }

  /** plot. */
  method Plot(fb: array<Color>, x: int, y: int, color: Color)
    requires fb.Length == WIDTH * HEIGHT
    modifies fb
    ensures forall k :: 0 <= k < fb.Length ==>
              fb[k] == if OnScreen(Point(x, y)) && k == Pixel(Point(x, y)) then color else old(fb[k])
    ensures forall k :: 0 <= k < fb.Length ==>
              fb[k] == if 0 <= x < 1024 && 0 <= y < 768 && k == 1024 * y + x then color else old(fb[k])
  {
    if x < 0 || x >= WIDTH || y < 0 || y >= HEIGHT {
      return;
    }
    fb[y * WIDTH + x] := color;
  }

  lemma MoreDrawn(p: Point, q: Point, m: nat)
    ensures forall k ::
              Drawn(p, q, m + 1, k) <==> Drawn(p, q, m, k) || (OnScreen(At(p, q, m)) && Pixel(At(p, q, m)) == k)
  {
    hide At, OnScreen, Pixel;
    forall k
      ensures Drawn(p, q, m + 1, k) <==> Drawn(p, q, m, k) || (OnScreen(At(p, q, m)) && Pixel(At(p, q, m)) == k)
    {
      if Drawn(p, q, m + 1, k) {
        var n: nat :| n < m + 1 && OnScreen(At(p, q, n)) && Pixel(At(p, q, n)) == k;
        assert n < m ==> Drawn(p, q, m, k);
      }
    }
  }

  /** The error term after n turns. */
  function Error(n: nat, dx: nat, dy: nat): int {
    (YSteps(n, dx, dy) + 1) * dx - (XSteps(n, dx, dy) + 1) * dy
  }

  predicate TakesX(err: int, dy: int) { 2 * err >= 0 - dy }
  predicate TakesY(err: int, dx: int) { 2 * err <= dx }

  lemma NextError(i: int, j: int, dx: int, dy: int, a: int, b: int)
    requires (a == 0 || a == 1) && (b == 0 || b == 1)
    ensures (j + b + 1) * dx - (i + a + 1) * dy ==
            (j + 1) * dx - (i + 1) * dy + (if b == 1 then dx else 0) - (if a == 1 then dy else 0)
  {
    assert (j + b + 1) * dx == (j + 1) * dx + b * dx;
    assert (i + a + 1) * dy == (i + 1) * dy + a * dy;
  }

  /** Its tests, when the x axis is the major one and when it is not. */
  lemma TurnXMajor(n: nat, dx: nat, dy: nat)
    requires dx >= dy && n < dx
    ensures var err := Error(n, dx, dy);
            && XSteps(n + 1, dx, dy) == XSteps(n, dx, dy) + (if TakesX(err, dy) then 1 else 0)
            && YSteps(n + 1, dx, dy) == YSteps(n, dx, dy) + (if TakesY(err, dx) then 1 else 0)
            && Magnitude(2 * err) <= Max(3 * Max(dx, dy) - 2, 2 * Max(dx, dy))
  {
    hide Rounded;
    NextRounded(n, dy, dx);
  }

  lemma TurnYMajor(n: nat, dx: nat, dy: nat)
    requires dx < dy && n < dy
    ensures var err := Error(n, dx, dy);
            && XSteps(n + 1, dx, dy) == XSteps(n, dx, dy) + (if TakesX(err, dy) then 1 else 0)
            && YSteps(n + 1, dx, dy) == YSteps(n, dx, dy) + (if TakesY(err, dx) then 1 else 0)
            && Magnitude(2 * err) <= Max(3 * Max(dx, dy) - 2, 2 * Max(dx, dy))
  {
    hide Rounded;
    NextRounded(n, dx, dy);
  }

  /** One turn: both tests of the loop, the new error term, and its size. */
  lemma Turn(n: nat, dx: nat, dy: nat)
    requires n < Max(dx, dy)
    ensures var err := Error(n, dx, dy);
            && XSteps(n + 1, dx, dy) == XSteps(n, dx, dy) + (if TakesX(err, dy) then 1 else 0)
            && YSteps(n + 1, dx, dy) == YSteps(n, dx, dy) + (if TakesY(err, dx) then 1 else 0)
            && Error(n + 1, dx, dy) == err - (if TakesX(err, dy) then dy else 0) + (if TakesY(err, dx) then dx else 0)
            && Magnitude(2 * err) <= Max(3 * Max(dx, dy) - 2, 2 * Max(dx, dy))
  {
    hide XSteps, YSteps, TakesX, TakesY;
    if dx >= dy { TurnXMajor(n, dx, dy); } else { TurnYMajor(n, dx, dy); }
    var err := Error(n, dx, dy);
    var a, b := if TakesX(err, dy) then 1 else 0, if TakesY(err, dx) then 1 else 0;
    NextError(XSteps(n, dx, dy), YSteps(n, dx, dy), dx, dy, a, b);
  }

  lemma NextAt(p: Point, q: Point, n: nat)
    requires n < Length(p, q)
    ensures var dx, dy := Magnitude(q.x - p.x), Magnitude(q.y - p.y);
            var err := Error(n, dx, dy);
            At(p, q, n + 1) == Point(At(p, q, n).x + (if TakesX(err, dy) then Sign(p.x, q.x) else 0),
                                     At(p, q, n).y + (if TakesY(err, dx) then Sign(p.y, q.y) else 0))
  {
    hide XSteps, YSteps, Error, Magnitude, TakesX, TakesY;
    Turn(n, Magnitude(q.x - p.x), Magnitude(q.y - p.y));
  }

  // ---- the range of the arithmetic ----

  predicate IsInt32(x: int) { -TWO31 <= x < TWO31 }

  /** Every value a turn computes fits an int: the doubled error, the error after the first
      test and the error after the second. */
  predicate TurnFits(n: nat, dx: nat, dy: nat) {
    var e := Error(n, dx, dy);
    var e1 := if TakesX(e, dy) then e - dy else e;
    IsInt32(2 * e) && IsInt32(e1) && IsInt32(if TakesY(e, dx) then e1 + dx else e1)
  }

  /** What is left of the longer side after pairs of the greatest common divisor. */
  function Slack(major: nat, minor: nat): nat
    requires major > 0
  {
    major % (2 * Gcd(major, minor))
  }

  /** The condition for all of them, to be checked before the loop. */
  predicate Safe(dx: nat, dy: nat) {
    dx < TWO31 && dy < TWO31 && (
      if dx == 0 && dy == 0 then true
      else if dx >= dy then
        3 * dx - 2 * dy - Slack(dx, dy) < TWO31 && 4 * dy - dx - 2 * Gcd(dx, dy) + Slack(dx, dy) <= 2 * TWO31
      else
        3 * dy - 2 * dx - Slack(dy, dx) <= TWO31 && (dx > 0 ==> 3 * dy - Slack(dy, dx) <= 2 * TWO31))
  }

  /** How far beyond the rounded value the true one lies, in units of half a major step. */
  function Phase(n: nat, minor: nat, major: nat): nat
    requires major > 0
  {
    (2 * (n * minor) + major) % (2 * major)
  }

  lemma DoubledError(n: nat, minor: nat, major: nat)
    requires major > 0
    ensures var j := Rounded(n, minor, major);
            2 * ((j + 1) * major - (n + 1) * minor) == 3 * major - 2 * minor - Phase(n, minor, major)
  {
    var x, j := 2 * (n * minor) + major, Rounded(n, minor, major);
    DivisionIff(x, 2 * major, j);
    assert j * (2 * major) == 2 * (j * major);
    assert (n + 1) * minor == n * minor + minor;
    assert (j + 1) * major == j * major + major;
  }

  /** With major == g * p and minor == g * q the phase is major % 2g plus a multiple of 2g. */
  lemma PhaseForm(n: nat, minor: nat, major: nat, g: nat, p: nat, q: nat)
    requires major > 0 && g > 0 && major == g * p && minor == g * q
    ensures p > 0 && Phase(n, minor, major) == major % (2 * g) + 2 * g * ((n * q + major / (2 * g)) % p)
  {
    var r, h := major % (2 * g), major / (2 * g);
    var x, s := 2 * (n * minor) + major, n * q + h;
    var k, t := s / p, s % p;
    PhaseSum(n, major, g, q, h, r);
    Regroup(g, p, k, t, s);
    PhaseSmall(g, p, r, t);
    DivisionIff(x, 2 * major, k);
  }

  lemma PhaseSum(n: int, major: int, g: int, q: int, h: int, r: int)
    requires major == (2 * g) * h + r
    ensures 2 * (n * (g * q)) + major == r + 2 * g * (n * q + h)
  {
    assert n * (g * q) == g * (n * q);
    assert 2 * g * (n * q + h) == 2 * g * (n * q) + 2 * g * h;
    assert 2 * g * (n * q) == 2 * (g * (n * q));
  }

  lemma PhaseSmall(g: int, p: int, r: int, t: int)
    requires g > 0 && 0 <= r < 2 * g && 0 <= t < p
    ensures 0 <= r + 2 * g * t < 2 * (g * p)
  {
    ScaleUp(t, p - 1, 2 * g);
    assert (p - 1) * (2 * g) == 2 * (g * p) - 2 * g;
    ScaleUp(0, t, 2 * g);
    assert t * (2 * g) == 2 * g * t;
  }

  lemma Regroup(g: int, p: int, k: int, t: int, s: int)
    requires s == k * p + t
    ensures 2 * g * s == k * (2 * (g * p)) + 2 * g * t
  {}

  /** Every multiple occurs in some turn. */
  lemma Reach(p: nat, q: nat, x: int, y: int, h: nat, t: nat) returns (n: nat)
    requires x * p + y * q == 1 && t < p
    ensures n < p && (n * q + h) % p == t
  {
    var z := y * (t - h);
    var k := z / p;
    n := z % p;
    assert z == k * p + n;
    ReachSum(p, q, x, y, h, t, k, n);
    Remainder(n * q + h, p, t, -(x * (t - h) + k * q));
  }

  lemma ReachSum(p: int, q: int, x: int, y: int, h: int, t: int, k: int, n: int)
    requires x * p + y * q == 1 && y * (t - h) == k * p + n
    ensures n * q + h == t + p * -(x * (t - h) + k * q)
  {
    var d := t - h;
    assert (y * d) * q == (k * p) * q + n * q;
    assert d * (x * p + y * q) == d;
    assert d * (x * p) == p * (x * d) && d * (y * q) == (y * d) * q && (k * p) * q == p * (k * q);
    assert p * -(x * d + k * q) == -(p * (x * d)) - p * (k * q);
  }

  lemma Remainder(z: nat, p: nat, t: nat, w: int)
    requires t < p && z == t + p * w
    ensures z % p == t
  {
    DivisionIff(z, p, w);
  }

  lemma PhaseRange(n: nat, minor: nat, major: nat, g: nat, p: nat, q: nat)
    requires major > 0 && g > 0 && major == g * p && minor == g * q
    ensures var f, r := Phase(n, minor, major), major % (2 * g);
            r <= f <= r + 2 * major - 2 * g && (f >= 2 * (major - minor) ==> f >= 2 * (major - minor) + r)
  {
    hide Phase;
    PhaseForm(n, minor, major, g, p, q);
    MultipleRange(g, p, q, (n * q + major / (2 * g)) % p, major % (2 * g));
  }

  lemma MultipleRange(g: int, p: int, q: int, t: int, r: int)
    requires 0 <= t < p && 0 <= r < 2 * g
    ensures 0 <= 2 * g * t <= 2 * (g * p) - 2 * g
    ensures r + 2 * g * t >= 2 * (g * p - g * q) ==> 2 * g * t >= 2 * (g * p - g * q)
  {
    ScaleUp(0, t, 2 * g);
    ScaleUp(t, p - 1, 2 * g);
    if t < p - q { ScaleUp(t, p - q - 1, 2 * g); } else { ScaleUp(p - q, t, 2 * g); }
  }

  /** A turn whose phase is major % 2g + 2g * t. */
  lemma PhaseTurn(minor: nat, major: nat, t: nat) returns (n: nat)
    requires major > 0 && Gcd(major, minor) * t < major
    ensures n < major && Phase(n, minor, major) == major % (2 * Gcd(major, minor)) + 2 * (Gcd(major, minor) * t)
  {
    hide Phase, Gcd;
    var g := Gcd(major, minor);
    var x, y, p, q := Bezout(major, minor);
    if t >= p { ScaleUp(p, t, g); }
    if p > major { ScaleUp(1, g, p); }
    ScaleUp(1, g, p);
    n := Reach(p, q, x, y, major / (2 * g), t);
    PhaseForm(n, minor, major, g, p, q);
    assert 2 * g * t == 2 * (g * t);
  }

  // ---- when the x axis is the major one ----

  /** The doubled error and its bounds, which both occur. */
  lemma XMajorError(n: nat, dx: nat, dy: nat)
    requires dx >= dy && n < dx
    ensures var f, g, e := Phase(n, dy, dx), Gcd(dx, dy), Error(n, dx, dy);
            var r := dx % (2 * g);
            && 2 * e == 3 * dx - 2 * dy - f && r <= f <= r + 2 * dx - 2 * g && 0 <= r < 2 * g && f < 2 * dx
            && (f >= 2 * (dx - dy) ==> f >= 2 * (dx - dy) + r)
  {
    hide Gcd, Rounded;
    var x, y, p, q := Bezout(dx, dy);
    PhaseRange(n, dy, dx, Gcd(dx, dy), p, q);
    DoubledError(n, dy, dx);
  }

  lemma XMajorFits(n: nat, dx: nat, dy: nat)
    requires dx >= dy && n < dx && Safe(dx, dy)
    ensures TurnFits(n, dx, dy)
  {
    hide Phase, Gcd, Error;
    XMajorError(n, dx, dy);
  }

  lemma XMajorSafe(dx: nat, dy: nat)
    requires 0 < dx < TWO31 && dy <= dx && forall n: nat :: n < dx ==> TurnFits(n, dx, dy)
    ensures Safe(dx, dy)
  {
    hide Phase, Gcd, Error;
    var g := Gcd(dx, dy);
    var p := LastMultiple(dx, dy);
    var n := PhaseTurn(dy, dx, 0);
    XMajorError(n, dx, dy);
    assert TurnFits(n, dx, dy);
    var k := PhaseTurn(dy, dx, p - 1);
    XMajorError(k, dx, dy);
    assert TurnFits(k, dx, dy);
  }

  lemma LastMultiple(major: nat, minor: nat) returns (p: nat)
    requires major > 0
    ensures p > 0 && Gcd(major, minor) * (p - 1) == major - Gcd(major, minor) && Gcd(major, minor) > 0
  {
    hide Gcd;
    var x, y, q;
    x, y, p, q := Bezout(major, minor);
    assert Gcd(major, minor) * (p - 1) == Gcd(major, minor) * p - Gcd(major, minor);
  }

  // ---- when the y axis is the major one ----

  lemma YMajorError(n: nat, dx: nat, dy: nat)
    requires dy > dx && n < dy
    ensures var f, g, e := Phase(n, dx, dy), Gcd(dy, dx), Error(n, dx, dy);
            var r := dy % (2 * g);
            && 2 * e == f - 3 * dy + 2 * dx && r <= f < 2 * dy && 0 <= r < 2 * g
            && (f >= 2 * (dy - dx) ==> f >= 2 * (dy - dx) + r)
  {
    hide Gcd, Rounded;
    var x, y, p, q := Bezout(dy, dx);
    PhaseRange(n, dx, dy, Gcd(dy, dx), p, q);
    DoubledError(n, dx, dy);
  }

  lemma YMajorFits(n: nat, dx: nat, dy: nat)
    requires dy > dx && n < dy && Safe(dx, dy)
    ensures TurnFits(n, dx, dy)
  {
    hide Phase, Gcd, Error;
    YMajorError(n, dx, dy);
  }

  lemma YMajorSafe(dx: nat, dy: nat)
    requires dx < dy < TWO31 && forall n: nat :: n < dy ==> TurnFits(n, dx, dy)
    ensures Safe(dx, dy)
  {
    hide Phase, Gcd, Error;
    var n := PhaseTurn(dx, dy, 0);
    YMajorError(n, dx, dy);
    assert TurnFits(n, dx, dy);
    if dx > 0 {
      var t := FirstMultiple(dy, dx);
      var k := PhaseTurn(dx, dy, t);
      YMajorError(k, dx, dy);
      assert TurnFits(k, dx, dy);
    }
  }

  lemma FirstMultiple(major: nat, minor: nat) returns (t: nat)
    requires major > minor
    ensures Gcd(major, minor) * t == major - minor
  {
    hide Gcd;
    var x, y, p, q := Bezout(major, minor);
    var g := Gcd(major, minor);
    if p <= q { ScaleUp(p, q, g); }
    t := p - q;
    assert g * (p - q) == g * p - g * q;
  }

  /** The condition is exact: it holds if and only if no turn of the loop overflows. */
  lemma SafeIff(dx: nat, dy: nat)
    requires dx < TWO31 && dy < TWO31
    ensures Safe(dx, dy) <==> forall n: nat :: n < Max(dx, dy) ==> TurnFits(n, dx, dy)
  {
    hide TurnFits;
    if dx >= dy && dx > 0 {
      forall n: nat | n < dx && Safe(dx, dy) ensures TurnFits(n, dx, dy) { XMajorFits(n, dx, dy); }
      if forall n: nat :: n < dx ==> TurnFits(n, dx, dy) { XMajorSafe(dx, dy); }
    } else if dy > dx {
      forall n: nat | n < dy && Safe(dx, dy) ensures TurnFits(n, dx, dy) { YMajorFits(n, dx, dy); }
      if forall n: nat :: n < dy ==> TurnFits(n, dx, dy) { YMajorSafe(dx, dy); }
    }
  }

  /** No variable overflows when the ends are at most RANGE apart in both directions. */
  const RANGE := 715_827_883

  lemma WithinRange(dx: nat, dy: nat)
    requires dx <= RANGE && dy <= RANGE
    ensures Safe(dx, dy)
  {
    hide Gcd, Slack;
    if dx >= dy && dx > 0 {
      RemainderOf(dx, dy);
    } else if dy > dx {
      RemainderOf(dy, dx);
    }
  }

  lemma RemainderOf(major: nat, minor: nat)
    requires major > 0
    ensures Gcd(major, minor) > 0 && 0 <= Slack(major, minor) < 2 * Gcd(major, minor)
    ensures minor == 0 ==> Gcd(major, minor) == major && Slack(major, minor) == major
  {
    RemainderBounds(major, 2 * Gcd(major, minor));
    if minor == 0 { assert Gcd(major, 0) == major; }
  }

  lemma RemainderBounds(x: nat, m: nat)
    requires m > 0
    ensures 0 <= x % m < m && (x < m ==> x % m == x)
  {}

  /** RANGE cannot be larger: one more, and a line with a slope overflows in some turn. But a
      much longer line without one is safe. */
  lemma BeyondRange()
    ensures var far := RANGE + 1; !Safe(far, 1) && exists n: nat :: n < far && !TurnFits(n, far, 1)
    ensures Safe(1_000_000_000, 0)
  {
    hide TurnFits;
    assert Gcd(RANGE + 1, 1) == 1;
    SafeIff(RANGE + 1, 1);
    assert Gcd(1_000_000_000, 0) == 1_000_000_000;
  }

  /** What a turn of a safe line computes. */
  lemma Fits(p: Point, q: Point, n: nat)
    requires Int32Point(p) && Int32Point(q) && n < Length(p, q) && Safe(Magnitude(q.x - p.x), Magnitude(q.y - p.y))
    ensures Int32Point(At(p, q, n + 1))
    ensures var dx, dy := Magnitude(q.x - p.x), Magnitude(q.y - p.y);
            var e := Error(n, dx, dy);
            var e1 := if TakesX(e, dy) then e - dy else e;
            && IsInt32(2 * e) && IsInt32(e1) && Error(n + 1, dx, dy) == (if TakesY(e, dx) then e1 + dx else e1)
            && IsInt32(Error(n + 1, dx, dy))
  {
    hide XSteps, YSteps, Error, TakesX, TakesY, At, Safe;
    var dx, dy := Magnitude(q.x - p.x), Magnitude(q.y - p.y);
    assert dx < TWO31 && dy < TWO31 by { SafeSpans(dx, dy); }
    SafeIff(dx, dy);
    assert TurnFits(n, dx, dy);
    Turn(n, dx, dy);
    InsideBox(p, q, n + 1);
  }

  lemma SafeSpans(dx: nat, dy: nat)
    requires Safe(dx, dy)
    ensures dx < TWO31 && dy < TWO31
  {}

  lemma FirstError(dx: nat, dy: nat)
    ensures Error(0, dx, dy) == dx - dy
  {
    if dx >= dy && dx > 0 { RoundedEnds(dy, dx); } else if dy > dx { RoundedEnds(dx, dy); }
  }

  predicate Int32Point(p: Point) { IsInt32(p.x) && IsInt32(p.y) }

  /** The two tests at the end of a turn of the loop of main. */
  method Advance(x1: Int32, y1: Int32, err: Int32, dx: Int32, dy: Int32, sx: Int32, sy: Int32,
                 ghost p: Point, ghost q: Point, ghost n: nat)
    returns (x: Int32, y: Int32, e: Int32)
    requires Int32Point(p) && Int32Point(q) && Safe(Magnitude(q.x - p.x), Magnitude(q.y - p.y)) && n < Length(p, q)
    requires dx == Magnitude(q.x - p.x) && dy == 0 - Magnitude(q.y - p.y)
    requires sx == Sign(p.x, q.x) && sy == Sign(p.y, q.y)
    requires Point(x1, y1) == At(p, q, n) && err == Error(n, dx, -dy)
    ensures Point(x, y) == At(p, q, n + 1) && e == Error(n + 1, dx, -dy)
  {
    hide At, Error, Safe, Magnitude, Sign, Length;
    NextAt(p, q, n);
    Fits(p, q, n);
    x, y, e := x1, y1, err;
    var e2: Int32 := 2 * err;
    if e2 >= dy {
      e := e + dy;
      x := x + sx;
    }
    if e2 <= dx {
      e := e + dx;
      y := y + sy;
    }
  }

  /** The loop of main, for exactly the end points with which no variable overflows: it plots
      the points of the line, one a turn. */
  method Line(fb: array<Color>, p: Point, q: Point, color: Color) returns (ghost turns: nat)
    requires fb.Length == WIDTH * HEIGHT
    requires Int32Point(p) && Int32Point(q) && Safe(Magnitude(q.x - p.x), Magnitude(q.y - p.y))
    modifies fb
    ensures turns == Length(p, q) + 1
    ensures forall k :: 0 <= k < fb.Length ==> fb[k] == if Drawn(p, q, turns, k) then color else old(fb[k])
  {
    hide At, Error, Drawn, OnScreen, Pixel, XSteps, YSteps, Safe, Painted;
    SafeSpans(Magnitude(q.x - p.x), Magnitude(q.y - p.y));
    var x1: Int32, y1: Int32, x2: Int32, y2: Int32 := p.x, p.y, q.x, q.y;
    var dx: Int32 := Magnitude(x2 - x1);
    var sx: Int32 := if x1 < x2 then 1 else -1;
    var dy: Int32 := 0 - Magnitude(y2 - y1);
    var sy: Int32 := if y1 < y2 then 1 else -1;
    var err: Int32 := dx + dy;
    turns := 0;
    ghost var was := fb[..];
    Ends(p, q, 0);
    FirstError(dx, -dy);
    NonePainted(was, p, q, color);
    while true
      invariant turns <= Length(p, q) && Point(x1, y1) == At(p, q, turns)
      invariant err == Error(turns, dx, -dy)
      invariant Painted(fb[..], was, p, q, turns, color)
      decreases Length(p, q) - turns
    {
      Ends(p, q, turns);
      PlotTurn(fb, p, q, turns, x1, y1, color, was);
      if x1 == x2 && y1 == y2 {
        turns := turns + 1;
        break;
      }
      x1, y1, err := Advance(x1, y1, err, dx, dy, sx, sy, p, q, turns);
      turns := turns + 1;
    }
    AllPainted(fb[..], was, p, q, turns, color);
  }

  /** fb is was with the first m points of the line in the colour. */
  ghost predicate Painted(fb: seq<Color>, was: seq<Color>, p: Point, q: Point, m: int, color: Color) {
    |fb| == |was| && forall k :: 0 <= k < |fb| ==> fb[k] == if Drawn(p, q, m, k) then color else was[k]
  }

  /** The plot call of turn m. */
  method PlotTurn(fb: array<Color>, ghost p: Point, ghost q: Point, ghost m: nat, x: int, y: int, color: Color,
                  ghost was: seq<Color>)
    requires fb.Length == WIDTH * HEIGHT && Point(x, y) == At(p, q, m) && Painted(fb[..], was, p, q, m, color)
    modifies fb
    ensures Painted(fb[..], was, p, q, m + 1, color)
  {
    hide At, Drawn, OnScreen, Pixel;
    MoreDrawn(p, q, m);
    Plot(fb, x, y, color);
  }

  lemma NonePainted(fb: seq<Color>, p: Point, q: Point, color: Color)
    ensures Painted(fb, fb, p, q, 0, color)
  {}

  lemma AllPainted(fb: seq<Color>, was: seq<Color>, p: Point, q: Point, m: int, color: Color)
    requires Painted(fb, was, p, q, m, color)
    ensures |fb| == |was| && forall k :: 0 <= k < |fb| ==> fb[k] == if Drawn(p, q, m, k) then color else was[k]
  {}
}
