/** int_sqrt of kernel.cpp, and the colour channels its sun shader computes with it. */
module GoldenSun {
  import opened Arith
  import opened Ints

  /** Addition of two ints, wrapping. */
  function Add32(x: int, y: int): int {
    var s := x + y;
    if s > MAX_INT then s - 0x1_0000_0000 else if s < MIN_INT then s + 0x1_0000_0000 else s
  }

  /** Division of ints rounds toward zero. */
  function Div(a: int, b: int): int
    requires b != 0
  {
    if (a < 0) == (b < 0) then (if a < 0 then -a else a) / (if b < 0 then -b else b)
    else -((if a < 0 then -a else a) / (if b < 0 then -b else b))
  }

  /** r is the whole part of the square root of n. */
  predicate IsRoot(r: int, n: int) { 0 <= r && r * r <= n < (r + 1) * (r + 1) }

  lemma SquaresGrow(a: int, b: int)
    requires 0 <= a <= b
    ensures a * a <= b * b
  {
    assert b * b - a * a == (b - a) * (b + a);
  }

  lemma RootIsUnique(r: int, s: int, n: int)
    requires IsRoot(r, n) && IsRoot(s, n)
    ensures r == s
  {
    if r < s {
      SquaresGrow(r + 1, s);
    } else if s < r {
      SquaresGrow(s + 1, r);
    }
  }

  lemma SquareOfDifference(a: int, b: int)
    ensures 4 * (a * b) <= (a + b) * (a + b)
  {
    assert (a + b) * (a + b) - 4 * (a * b) == (a - b) * (a - b);
    assert (a - b) * (a - b) >= 0;
  }

  lemma QuotientIsBelow(n: int, x: int)
    requires 0 < x && 0 <= n
    ensures 0 <= n / x && x * (n / x) <= n < x * (n / x + 1)
  {
    assert n == x * (n / x) + n % x;
    assert x * (n / x + 1) == x * (n / x) + x;
  }

  /** Averaging x with n / x does not go below the root. */
  lemma AverageStaysAbove(n: int, x: int, m: int)
    requires 0 < x && 0 <= n && m == (x + n / x) / 2
    ensures 0 <= m && n < (m + 1) * (m + 1)
  {
    var z := n / x + 1;
    QuotientIsBelow(n, x);
    SquareOfDifference(x, z);
    assert x + z <= 2 * (m + 1);
    SquaresGrow(x + z, 2 * (m + 1));
    assert (2 * (m + 1)) * (2 * (m + 1)) == 4 * ((m + 1) * (m + 1));
  }

  predicate IsOrdinary(n: int) { 0 < n < MAX_INT }

  /** One turn of the loop for an ordinary argument: x comes down, but not below the root. */
  predicate Above(n: int, x: int, y: int) {
    0 < x && y == n / x && n < (x + 1) * (x + 1) && ((x == n && y == 1) || 2 * x <= n + 1)
  }

  lemma TurnKeeps(n: int, x: int, y: int)
    requires IsOrdinary(n) && Above(n, x, y) && x > y
    ensures Div(Add32(x, y), 2) == (x + y) / 2 && 0 < (x + y) / 2 < x
    ensures Div(n, (x + y) / 2) == n / ((x + y) / 2)
    ensures Above(n, (x + y) / 2, n / ((x + y) / 2))
  {
    QuotientIsBelow(n, x);
    AverageStaysAbove(n, x, (x + y) / 2);
    assert x + y <= MAX_INT;
  }

  /** int_sqrt: the root of every int but the largest, where the first sum wraps, and the argument
      itself when that is negative. */
  method IntSqrt(n: int) returns (x: int)
    requires MIN_INT <= n <= MAX_INT
    ensures IsRoot(x, n) <==> 0 <= n < MAX_INT
    ensures n < 0 ==> x == n
    ensures n == MAX_INT ==> x == -0x4000_0000
  {
    x := n;
    var y := 1;
    hide Above, Div, Add32;
    StartIsAbove(n);
    while x > y
      invariant n <= 0 ==> x == n && y == 1
      invariant IsOrdinary(n) ==> Above(n, x, y)
      invariant n == MAX_INT ==> (x == n && y == 1) || (x == -0x4000_0000 && y == -1)
      decreases x - MIN_INT
    {
      if IsOrdinary(n) {
        TurnKeeps(n, x, y);
        AboveMeans(n, x, y);
      } else {
        LargestWraps();
      }
      x := Div(Add32(x, y), 2);
      y := Div(n, x);
    }
    if IsOrdinary(n) {
      AboveMeans(n, x, y);
    }
  }

  lemma StartIsAbove(n: int)
    ensures 0 < n ==> Above(n, n, 1)
  {
    if 0 < n {
      DivModIs(n, n, 1, 0);
      assert (n + 1) * (n + 1) == n * n + 2 * n + 1;
    }
  }

  lemma AboveMeans(n: int, x: int, y: int)
    requires 0 < n && Above(n, x, y)
    ensures 0 < x && (x <= y ==> IsRoot(x, n))
  {
    QuotientIsBelow(n, x);
    if x <= y {
      assert x * x <= x * y;
    }
  }

  /** The largest int plus one is the smallest. */
  lemma LargestWraps()
    ensures Div(Add32(MAX_INT, 1), 2) == -0x4000_0000 && Div(MAX_INT, -0x4000_0000) == -1
  {
  }

  // ----- the sun

  function SquareSum(a: int, b: int): (s: nat)
    ensures s == a * a + b * b
  {
    SquareIsNat(a);
    SquareIsNat(b);
    a * a + b * b
  }

  lemma SquareIsNat(a: int)
    ensures 0 <= a * a
  {
  }

  /** The whole part of the square root. */
  function Root(n: nat): (r: nat)
    ensures IsRoot(r, n)
  {
    if n == 0 then 0
    else
      var p := Root(n - 1);
      if (p + 1) * (p + 1) <= n then p + 1 else p
  }

  lemma RootGrows(m: nat, n: nat)
    requires m <= n
    ensures Root(m) <= Root(n)
  {
    if Root(n) < Root(m) {
      SquaresGrow(Root(n) + 1, Root(m));
    }
  }

  lemma RootOfSquare(r: nat)
    ensures Root(r * r) == r
  {
    assert (r + 1) * (r + 1) == r * r + 2 * r + 1;
    RootIsUnique(Root(r * r), r, r * r);
  }

  /** a of b, on a scale of 255. */
  function Scaled(a: int, b: int): int
    requires 0 < b
  {
    a * 255 / b
  }

  lemma ScaledIsByte(a: int, b: int)
    requires 0 <= a <= b && 0 < b
    ensures 0 <= Scaled(a, b) <= 255
    ensures a == b ==> Scaled(a, b) == 255
  {
    assert a * 255 <= b * 255;
    QuotientIsBelow(a * 255, b);
    if Scaled(a, b) > 255 {
      MulStep(255, Scaled(a, b), b);
    }
    if a == b {
      DivModIs(b * 255, b, 255, 0);
    }
  }

  predicate IsByte(v: int) { 0 <= v <= 255 }

  /** A colour of the frame buffer. */
  datatype Colour = Colour(r: int, g: int, b: int)

  predicate Fits(c: Colour) { IsByte(c.r) && IsByte(c.g) && IsByte(c.b) }

  function Pack(c: Colour): int { c.r * 0x1_0000 + c.g * 0x100 + c.b }

  /** The channels of a 32-bit pixel; its top byte is not one. */
  function Unpack(p: int): Colour { Colour(p / 0x1_0000 % 256, p / 0x100 % 256, p % 256) }

  /** Packing channels that fit loses nothing. */
  lemma PackIsLossless(c: Colour)
    requires Fits(c)
    ensures Unpack(Pack(c)) == c && 0 <= Pack(c) < 0x100_0000
  {
    DivModIs(Pack(c), 0x1_0000, c.r, c.g * 0x100 + c.b);
    DivModIs(Pack(c), 0x100, c.r * 0x100 + c.g, c.b);
    DivModIs(c.r * 0x100 + c.g, 0x100, c.r, c.g);
  }

  /** How far the sphere comes towards the eye, 255 in its middle. */
  function Depth(distSq: nat, radius: nat): int
    requires 0 < radius && distSq <= radius * radius
  {
    Scaled(Root(radius * radius - distSq), radius)
  }

  /** The depth is a byte, 255 in the middle and 0 at the edge, and falls towards it. */
  lemma DepthIsByte(distSq: nat, further: nat, radius: nat)
    requires 0 < radius && distSq <= further <= radius * radius
    ensures IsByte(Depth(distSq, radius)) && Depth(further, radius) <= Depth(distSq, radius)
    ensures Depth(0, radius) == 255 && Depth(radius * radius, radius) == 0
  {
    var near, far := Root(radius * radius - distSq), Root(radius * radius - further);
    RootOfSquare(radius);
    RootGrows(radius * radius - distSq, radius * radius);
    RootGrows(radius * radius - further, radius * radius - distSq);
    ScaledIsByte(near, radius);
    ScaledIsByte(radius, radius);
    ScaledGrows(far, near, radius);
    DivModIs(0, radius, 0, 0);
    assert Root(0) == 0;
  }

  lemma ScaledGrows(a: int, a': int, b: int)
    requires 0 <= a <= a' && 0 < b
    ensures Scaled(a, b) <= Scaled(a', b)
  {
    QuotientIsBelow(a * 255, b);
    QuotientIsBelow(a' * 255, b);
    var q, q' := a * 255 / b, a' * 255 / b;
    if q' < q {
      MulStep(q', q, b);
    }
  }

  /** The strength of a falloff v, curved. */
  function Curved(v: int): int { v * v / 255 }

  lemma CurvedIsByte(v: int)
    requires IsByte(v)
    ensures IsByte(Curved(v)) && (v == 0 ==> Curved(v) == 0) && (v == 255 ==> Curved(v) == 255)
  {
    SquaresGrow(v, 255);
    SquaresGrow(0, v);
  }

  function Highlight(hSq: nat, radius: nat): int
    requires 0 < radius
  {
    if Root(hSq) < radius then Curved(255 - Scaled(Root(hSq), radius)) else 0
  }

  lemma HighlightIsByte(hSq: nat, radius: nat)
    requires 0 < radius
    ensures IsByte(Highlight(hSq, radius))
  {
    if Root(hSq) < radius {
      ScaledIsByte(Root(hSq), radius);
      CurvedIsByte(255 - Scaled(Root(hSq), radius));
    }
  }

  function Capped(v: int): int { if v > 255 then 255 else v }

  function Sphere(nz: int, highlight: int): Colour {
    Colour(Capped(nz * 255 / 255 + highlight),
           Capped(nz * 170 / 255 + highlight),
           Capped(nz * 20 / 255 + highlight / 2))
  }

  /** Alpha of the glow, 255 at the sphere and 0 where the glow ends, 15 pixels out. */
  function Glow(distSq: nat, radius: nat): int {
    Curved(255 - Scaled(Root(distSq) - radius, 15))
  }

  lemma GlowIsByte(distSq: nat, radius: nat)
    requires radius * radius <= distSq <= (radius + 15) * (radius + 15)
    ensures IsByte(Glow(distSq, radius))
    ensures distSq == radius * radius ==> Glow(distSq, radius) == 255
    ensures distSq == (radius + 15) * (radius + 15) ==> Glow(distSq, radius) == 0
  {
    RootOfSquare(radius);
    RootOfSquare(radius + 15);
    RootGrows(radius * radius, distSq);
    RootGrows(distSq, (radius + 15) * (radius + 15));
    ScaledIsByte(Root(distSq) - radius, 15);
    CurvedIsByte(255 - Scaled(Root(distSq) - radius, 15));
  }

  /** `over` at strength alpha above `under`. */
  function Blend(over: int, under: int, alpha: int): int { (over * alpha + under * (255 - alpha)) / 255 }

  lemma BlendIsBetween(over: int, under: int, alpha: int)
    requires IsByte(over) && IsByte(under) && IsByte(alpha)
    ensures over <= under ==> over <= Blend(over, under, alpha) <= under
    ensures under <= over ==> under <= Blend(over, under, alpha) <= over
  {
    var lo, hi := if over < under then over else under, if over < under then under else over;
    BlendIsMonotone(lo, over, alpha);
    BlendIsMonotone(over, hi, alpha);
    BlendIsMonotone(lo, under, 255 - alpha);
    BlendIsMonotone(under, hi, 255 - alpha);
    var sum := over * alpha + under * (255 - alpha);
    assert lo * alpha + lo * (255 - alpha) == lo * 255;
    assert hi * alpha + hi * (255 - alpha) == hi * 255;
    assert lo * 255 <= sum <= hi * 255;
  }

  lemma BlendIsMonotone(a: int, b: int, k: int)
    requires a <= b && 0 <= k
    ensures a * k <= b * k
  {
    assert b * k - a * k == (b - a) * k;
  }

  function Corona(under: Colour, alpha: int): Colour {
    Colour(Blend(255, under.r, alpha), Blend(120, under.g, alpha), Blend(0, under.b, alpha))
  }

  /** The largest radius whose squares stay inside an int (SquaresFitIff). */
  const LARGEST := 31494

  /** Every channel the shader packs is a byte. */
  lemma SphereFits(x: int, y: int, radius: nat, hSq: nat)
    requires 0 < radius && SquareSum(x, y) <= radius * radius
    ensures Fits(Sphere(Depth(SquareSum(x, y), radius), Highlight(hSq, radius)))
  {
    hide SquareSum, Depth, Highlight;
    DepthIsByte(SquareSum(x, y), SquareSum(x, y), radius);
    HighlightIsByte(hSq, radius);
  }

  lemma CoronaFits(under: Colour, distSq: nat, radius: nat)
    requires Fits(under) && radius * radius < distSq <= (radius + 15) * (radius + 15)
    ensures Fits(Corona(under, Glow(distSq, radius)))
  {
    var alpha := Glow(distSq, radius);
    GlowIsByte(distSq, radius);
    BlendIsBetween(255, under.r, alpha);
    BlendIsBetween(120, under.g, alpha);
    BlendIsBetween(0, under.b, alpha);
  }

  // ----- one pixel, and the whole sun

  const WIDTH := 800
  const HEIGHT := 600

  function Reach(radius: nat): nat { (radius + 15) * (radius + 15) }

  /** What the sun makes of a pixel (x, y) away from its middle. */
  function SunPixel(x: int, y: int, radius: nat, under: int): int
    requires 0 < radius
  {
    var distSq := SquareSum(x, y);
    if distSq <= radius * radius then
      Pack(Sphere(Depth(distSq, radius), Highlight(SquareSum(x + radius / 3, y + radius / 3), radius)))
    else if distSq <= Reach(radius) && Glow(distSq, radius) > 0 then
      Pack(Corona(Unpack(under), Glow(distSq, radius)))
    else under
  }

  lemma UnpackFits(p: int)
    ensures Fits(Unpack(p))
  {
  }

  /** Each of the three bytes of a pixel the sun changes is the channel that was computed for it. */
  lemma SunPixelIsLossless(x: int, y: int, radius: nat, under: int)
    requires 0 < radius
    ensures SunPixel(x, y, radius, under) == under || 0 <= SunPixel(x, y, radius, under) < 0x100_0000
    ensures SquareSum(x, y) <= radius * radius ==>
              Unpack(SunPixel(x, y, radius, under))
              == Sphere(Depth(SquareSum(x, y), radius), Highlight(SquareSum(x + radius / 3, y + radius / 3), radius))
    ensures radius * radius < SquareSum(x, y) <= Reach(radius) && Glow(SquareSum(x, y), radius) > 0 ==>
              Unpack(SunPixel(x, y, radius, under)) == Corona(Unpack(under), Glow(SquareSum(x, y), radius))
  {
    hide Sphere, Depth, Highlight, Corona, Glow, Pack, Unpack, Fits;
    var distSq, hSq := SquareSum(x, y), SquareSum(x + radius / 3, y + radius / 3);
    if distSq <= radius * radius {
      SphereFits(x, y, radius, hSq);
      PackIsLossless(Sphere(Depth(distSq, radius), Highlight(hSq, radius)));
    } else if distSq <= Reach(radius) {
      UnpackFits(under);
      CoronaFits(Unpack(under), distSq, radius);
      PackIsLossless(Corona(Unpack(under), Glow(distSq, radius)));
    }
  }

  /** A pixel of the sphere, byte by byte: the roots taken are of what is left of the squared radius and of the
      squared distance from the highlight; red is the top byte, with depth and highlight in full, green has two
      thirds of the depth, blue hardly any and half of the highlight. */
  lemma SpherePixel(x: int, y: int, radius: nat, under: int, depth: int, away: int)
    requires 0 < radius && x * x + y * y <= radius * radius
    requires IsRoot(depth, radius * radius - (x * x + y * y))
    requires IsRoot(away, (x + radius / 3) * (x + radius / 3) + (y + radius / 3) * (y + radius / 3))
    ensures var nz := depth * 255 / radius;
            var h := if away < radius then (255 - away * 255 / radius) * (255 - away * 255 / radius) / 255 else 0;
            var p := SunPixel(x, y, radius, under);
            && p == 0x1_0000 * Least(nz + h) + 0x100 * Least(nz * 170 / 255 + h) + Least(nz * 20 / 255 + h / 2)
            && IsByte(Least(nz + h)) && IsByte(Least(nz * 170 / 255 + h)) && IsByte(Least(nz * 20 / 255 + h / 2))
  {
    hide Root, Sphere, Pack, Least, Depth, Highlight, Corona, Glow, IsRoot;
    var distSq, hSq := SquareSum(x, y), SquareSum(x + radius / 3, y + radius / 3);
    DepthFrom(distSq, radius, depth);
    HighlightFrom(hSq, radius, away);
    DepthIsByte(distSq, distSq, radius);
    HighlightIsByte(hSq, radius);
    SphereBytes(Depth(distSq, radius), Highlight(hSq, radius));
  }

  lemma DepthFrom(distSq: nat, radius: nat, depth: int)
    requires 0 < radius && distSq <= radius * radius && IsRoot(depth, radius * radius - distSq)
    ensures Depth(distSq, radius) == depth * 255 / radius
  {
    hide Root;
    RootIsUnique(depth, Root(radius * radius - distSq), radius * radius - distSq);
  }

  lemma HighlightFrom(hSq: nat, radius: nat, away: int)
    requires 0 < radius && IsRoot(away, hSq)
    ensures Highlight(hSq, radius) ==
            if away < radius then (255 - away * 255 / radius) * (255 - away * 255 / radius) / 255 else 0
  {
    hide Root;
    RootIsUnique(away, Root(hSq), hSq);
  }

  /** At most 255. */
  function Least(v: int): int { if v < 255 then v else 255 }

  lemma SphereBytes(nz: int, h: int)
    requires IsByte(nz) && IsByte(h)
    ensures Pack(Sphere(nz, h))
         == 0x1_0000 * Least(nz + h) + 0x100 * Least(nz * 170 / 255 + h) + Least(nz * 20 / 255 + h / 2)
    ensures IsByte(Least(nz + h)) && IsByte(Least(nz * 170 / 255 + h)) && IsByte(Least(nz * 20 / 255 + h / 2))
  {
  }

  /** A pixel of the glow: red 255, green 120 and blue 0 at strength alpha over what was there, red on top. */
  lemma GlowPixel(x: int, y: int, radius: nat, r: int, g: int, b: int, away: int)
    requires 0 < radius && radius * radius < x * x + y * y <= (radius + 15) * (radius + 15)
    requires IsByte(r) && IsByte(g) && IsByte(b) && IsRoot(away, x * x + y * y)
    ensures var v := 255 - (away - radius) * 255 / 15;
            var alpha := v * v / 255;
            SunPixel(x, y, radius, 0x1_0000 * r + 0x100 * g + b) ==
            if alpha > 0 then
              0x1_0000 * ((255 * alpha + r * (255 - alpha)) / 255)
              + 0x100 * ((120 * alpha + g * (255 - alpha)) / 255)
              + (b * (255 - alpha)) / 255
            else 0x1_0000 * r + 0x100 * g + b
  {
    hide Root, Sphere, Depth, Highlight, Corona, Unpack, Pack, Glow;
    var distSq := SquareSum(x, y);
    GlowFrom(distSq, radius, away);
    PackIsLossless(Colour(r, g, b));
    CoronaBytes(r, g, b, Glow(distSq, radius));
  }

  lemma GlowFrom(distSq: nat, radius: nat, away: int)
    requires IsRoot(away, distSq)
    ensures Glow(distSq, radius) == (255 - (away - radius) * 255 / 15) * (255 - (away - radius) * 255 / 15) / 255
  {
    hide Root;
    RootIsUnique(away, Root(distSq), distSq);
  }

  lemma CoronaBytes(r: int, g: int, b: int, alpha: int)
    ensures Pack(Colour(r, g, b)) == 0x1_0000 * r + 0x100 * g + b
    ensures Pack(Corona(Colour(r, g, b), alpha))
         == 0x1_0000 * ((255 * alpha + r * (255 - alpha)) / 255)
            + 0x100 * ((120 * alpha + g * (255 - alpha)) / 255) + (b * (255 - alpha)) / 255
  {
  }

  // ----- the code

  predicate Within(v: int, k: int) { -k <= v <= k }

  /** The squares the shader takes at (x, y) fit in an int. */
  predicate FitsAt(x: int, y: int, radius: nat) {
    && SquareSum(x, y) <= MAX_INT
    && (SquareSum(x, y) <= radius * radius ==> SquareSum(x + radius / 3, y + radius / 3) <= MAX_INT)
  }

  /** They do everywhere on the square that is drawn exactly up to the largest radius. */
  lemma SquaresFitIff(radius: nat)
    ensures (forall x, y :: Within(x, radius + 15) && Within(y, radius + 15) ==> FitsAt(x, y, radius))
            <==> radius <= LARGEST
  {
    if radius <= LARGEST {
      forall x, y | Within(x, radius + 15) && Within(y, radius + 15) ensures FitsAt(x, y, radius) {
        SquaresFit(x, y, radius);
      }
    } else {
      SquaresGrow(LARGEST + 1, radius);
      SquaresGrow(32768, 22270 + radius / 3);
      assert !FitsAt(22270, 22270, radius);
    }
  }

  /** Up to that radius they even stay below the one argument int_sqrt fails on. */
  lemma SquaresFit(x: int, y: int, radius: nat)
    requires radius <= LARGEST && Within(x, radius + 15) && Within(y, radius + 15)
    ensures SquareSum(x, y) < MAX_INT
    ensures SquareSum(x, y) <= radius * radius ==> SquareSum(x + radius / 3, y + radius / 3) < MAX_INT
  {
    hide SquareSum;
    SumIsSmall(x, y, LARGEST + 15);
    if SquareSum(x, y) <= radius * radius {
      var k := radius / 3;
      SquaresGrow(radius, LARGEST);
      DiagonalIsBounded(x, y);
      ShiftedSum(x, y, k);
      SquaresGrow(k, LARGEST / 3);
      ScaledSum(x + y, k);
    }
  }

  lemma SumIsSmall(a: int, b: int, k: int)
    requires Within(a, k) && Within(b, k) && 0 <= k <= 32766
    ensures SquareSum(a, b) < MAX_INT
  {
    AbsSquare(a, k);
    AbsSquare(b, k);
    SquaresGrow(k, 32766);
  }

  /** In the largest disc x + y is at most the square root of 2 times its radius. */
  lemma DiagonalIsBounded(x: int, y: int)
    requires SquareSum(x, y) <= LARGEST * LARGEST
    ensures x + y <= 44539
  {
    SquareIsNat(x - y);
    assert (x + y) * (x + y) + (x - y) * (x - y) == 2 * SquareSum(x, y);
    if x + y >= 44540 {
      SquaresGrow(44540, x + y);
    }
  }

  lemma ShiftedSum(x: int, y: int, k: int)
    ensures SquareSum(x + k, y + k) == SquareSum(x, y) + 2 * (k * (x + y)) + 2 * (k * k)
  {
    ShiftedSquare(x, k);
    ShiftedSquare(y, k);
    assert k * (x + y) == k * x + k * y;
  }

  lemma ShiftedSquare(x: int, k: int)
    ensures (x + k) * (x + k) == x * x + 2 * (k * x) + k * k
  {
  }

  lemma ScaledSum(sum: int, k: nat)
    requires sum <= 44539 && k <= LARGEST / 3
    ensures k * sum <= LARGEST / 3 * 44539
  {
    if sum > 0 {
      BlendIsMonotone(k, LARGEST / 3, sum);
      BlendIsMonotone(sum, 44539, LARGEST / 3);
    } else {
      BlendIsMonotone(sum, 0, k);
    }
  }

  lemma AbsSquare(a: int, b: int)
    requires Within(a, b)
    ensures a * a <= b * b
  {
    if a < 0 {
      SquaresGrow(0 - a, b);
      Negated(a);
    } else {
      SquaresGrow(a, b);
    }
  }

  lemma Negated(a: int)
    ensures (0 - a) * (0 - a) == a * a
  {
  }

  lemma InsideIsNear(x: int, y: int, radius: nat)
    requires SquareSum(x, y) <= radius * radius
    ensures Within(x, radius)
  {
    SquareIsNat(y);
    SquareExceeds(radius);
    if x > radius {
      SquaresGrow(radius + 1, x);
    } else if 0 - x > radius {
      SquaresGrow(radius + 1, 0 - x);
      Negated(x);
    }
  }

  lemma SquareExceeds(r: nat)
    ensures (r + 1) * (r + 1) > r * r
  {
    assert (r + 1) * (r + 1) == r * r + 2 * r + 1;
  }

  /** The root the specification means. */
  method RootOf(n: nat) returns (r: nat)
    requires n < MAX_INT
    ensures r == Root(n)
  {
    r := IntSqrt(n);
    RootIsUnique(r, Root(n), n);
  }

  method DepthOf(distSq: nat, radius: nat) returns (nz: int)
    requires 0 < radius <= LARGEST && distSq <= radius * radius
    ensures nz == Depth(distSq, radius)
  {
    hide Root;
    SquaresGrow(radius, LARGEST);
    var root := RootOf(radius * radius - distSq);
    nz := root * 255 / radius;
  }

  method HighlightOf(hx: int, hy: int, radius: nat) returns (highlight: int)
    requires 0 < radius <= LARGEST && SquareSum(hx, hy) < MAX_INT
    ensures highlight == Highlight(SquareSum(hx, hy), radius)
  {
    hide Root;
    var hDist := RootOf(hx * hx + hy * hy);
    highlight := 0;
    if hDist < radius {
      highlight := 255 - hDist * 255 / radius;
      highlight := highlight * highlight / 255;
    }
  }

  /** The base colour by depth, and the highlight on top of it. */
  method MixSphere(nz: int, highlight: int) returns (pixel: int)
    ensures pixel == Pack(Sphere(nz, highlight))
  {
    var r, g, b := nz * 255 / 255, nz * 170 / 255, nz * 20 / 255;
    r := r + highlight;
    if r > 255 {
      r := 255;
    }
    g := g + highlight;
    if g > 255 {
      g := 255;
    }
    b := b + highlight / 2;
    if b > 255 {
      b := 255;
    }
    pixel := r * 0x1_0000 + g * 0x100 + b;
  }

  /** The corona branch. */
  method ShadeCorona(distSq: nat, radius: nat, under: int) returns (pixel: int)
    requires radius <= LARGEST && radius * radius < distSq <= Reach(radius)
    ensures pixel == if Glow(distSq, radius) > 0 then Pack(Corona(Unpack(under), Glow(distSq, radius))) else under
  {
    hide Root, Blend;
    SquaresGrow(radius + 15, LARGEST + 15);
    var dist := RootOf(distSq);
    var alpha := 255 - (dist - radius) * 255 / 15;
    alpha := alpha * alpha / 255;
    assert alpha == Glow(distSq, radius);
    pixel := under;
    if alpha > 0 {
      pixel := BlendCorona(under, alpha);
    }
  }

  method BlendCorona(under: int, alpha: int) returns (pixel: int)
    ensures pixel == Pack(Corona(Unpack(under), alpha))
  {
    var bgR, bgG, bgB := under / 0x1_0000 % 256, under / 0x100 % 256, under % 256;
    hide Blend;
    var r := Blend(255, bgR, alpha);
    var g := Blend(120, bgG, alpha);
    var b := Blend(0, bgB, alpha);
    pixel := r * 0x1_0000 + g * 0x100 + b;
  }

  /** The shader's two branches for the pixel (x, y) away from the middle. */
  method Shade(x: int, y: int, radius: nat, under: int) returns (pixel: int)
    requires 0 < radius <= LARGEST && Within(x, radius + 15) && Within(y, radius + 15)
    ensures pixel == SunPixel(x, y, radius, under)
  {
    hide Depth, Highlight, Sphere, Corona, Pack, Unpack, Glow;
    SquaresFit(x, y, radius);
    var distSq := x * x + y * y;
    if distSq <= radius * radius {
      var nz := DepthOf(distSq, radius);
      var highlight := HighlightOf(x + radius / 3, y + radius / 3, radius);
      pixel := MixSphere(nz, highlight);
    } else if distSq <= (radius + 15) * (radius + 15) {
      pixel := ShadeCorona(distSq, radius, under);
    } else {
      pixel := under;
    }
  }

  /** Beyond the square that is drawn the sun has no effect. */
  lemma OutsideIsUntouched(x: int, y: int, radius: nat, under: int)
    requires 0 < radius && !(Within(x, radius + 15) && Within(y, radius + 15))
    ensures SunPixel(x, y, radius, under) == under
  {
    if SquareSum(x, y) <= Reach(radius) {
      InsideIsNear(x, y, radius + 15);
      assert SquareSum(y, x) == SquareSum(x, y);
      InsideIsNear(y, x, radius + 15);
    } else {
      SquaresGrow(radius, radius + 15);
    }
  }

  /** The loops have passed the pixel at index i, row by row. */
  predicate Passed(i: int, cx: int, cy: int, x: int, y: int, reach: int) {
    var px, py := i % WIDTH - cx, i / WIDTH - cy;
    Within(px, reach) && Within(py, reach) && (py < y || (py == y && px < x))
  }

  /** The frame buffer with the passed pixels drawn. */
  ghost predicate DrawnTo(now: seq<int>, was: seq<int>, cx: int, cy: int, radius: nat, x: int, y: int) {
    && |now| == |was| == WIDTH * HEIGHT && 0 < radius
    && forall i :: 0 <= i < |now| ==>
         now[i] == if Passed(i, cx, cy, x, y, radius + 15)
                   then SunPixel(i % WIDTH - cx, i / WIDTH - cy, radius, was[i]) else was[i]
  }

  predicate OnScreen(sx: int, sy: int) { 0 <= sx < WIDTH && 0 <= sy < HEIGHT }

  lemma DrawnStep(now: seq<int>, was: seq<int>, cx: int, cy: int, radius: nat, x: int, y: int)
    requires DrawnTo(now, was, cx, cy, radius, x, y) && Within(x, radius + 15) && Within(y, radius + 15)
    ensures !OnScreen(cx + x, cy + y) ==> DrawnTo(now, was, cx, cy, radius, x + 1, y)
    ensures OnScreen(cx + x, cy + y) ==>
              var at := (cy + y) * WIDTH + (cx + x);
              && 0 <= at < |now| && now[at] == was[at]
              && DrawnTo(now[at := SunPixel(x, y, radius, was[at])], was, cx, cy, radius, x + 1, y)
  {
    hide SunPixel;
    if OnScreen(cx + x, cy + y) {
      DivModIs((cy + y) * WIDTH + (cx + x), WIDTH, cy + y, cx + x);
    }
  }

  lemma RowEnds(now: seq<int>, was: seq<int>, cx: int, cy: int, radius: nat, y: int)
    requires DrawnTo(now, was, cx, cy, radius, radius + 16, y)
    ensures DrawnTo(now, was, cx, cy, radius, -(radius as int) - 15, y + 1)
  {
    hide SunPixel;
  }

  lemma DrawnAll(now: seq<int>, was: seq<int>, cx: int, cy: int, radius: nat)
    requires DrawnTo(now, was, cx, cy, radius, -(radius as int) - 15, radius + 16)
    ensures forall i :: 0 <= i < |now| ==> now[i] == SunPixel(i % WIDTH - cx, i / WIDTH - cy, radius, was[i])
  {
    hide SunPixel;
    forall i | 0 <= i < |now| ensures now[i] == SunPixel(i % WIDTH - cx, i / WIDTH - cy, radius, was[i]) {
      if !(Within(i % WIDTH - cx, radius + 15) && Within(i / WIDTH - cy, radius + 15)) {
        OutsideIsUntouched(i % WIDTH - cx, i / WIDTH - cy, radius, was[i]);
      }
    }
  }

  /** DrawGoldenSun: every pixel of the screen becomes what the sun makes of it, each blended once. */
  method DrawGoldenSun(bb: array<int>, cx: int, cy: int, radius: nat)
    requires bb.Length == WIDTH * HEIGHT && 0 < radius <= LARGEST
    requires Within(cx, MAX_INT / 2) && Within(cy, MAX_INT / 2)
    modifies bb
    ensures forall i :: 0 <= i < bb.Length ==>
              bb[i] == SunPixel(i % WIDTH - cx, i / WIDTH - cy, radius, old(bb[i]))
  {
    hide SunPixel, DrawnTo;
    ghost var was := bb[..];
    var glow := radius + 15;
    var y := 0 - glow;
    NothingDrawn(was, cx, cy, radius);
    while y <= glow
      invariant -glow <= y <= glow + 1
      invariant DrawnTo(bb[..], was, cx, cy, radius, -glow, y)
    {
      var x := 0 - glow;
      while x <= glow
        invariant -glow <= x <= glow + 1
        invariant DrawnTo(bb[..], was, cx, cy, radius, x, y)
      {
        DrawnStep(bb[..], was, cx, cy, radius, x, y);
        var sx, sy := cx + x, cy + y;
        if OnScreen(sx, sy) {
          var pixel := Shade(x, y, radius, bb[sy * WIDTH + sx]);
          bb[sy * WIDTH + sx] := pixel;
        }
        x := x + 1;
      }
      RowEnds(bb[..], was, cx, cy, radius, y);
      y := y + 1;
    }
    DrawnAll(bb[..], was, cx, cy, radius);
  }

  lemma NothingDrawn(was: seq<int>, cx: int, cy: int, radius: nat)
    requires |was| == WIDTH * HEIGHT && 0 < radius
    ensures DrawnTo(was, was, cx, cy, radius, -(radius as int) - 15, -(radius as int) - 15)
  {
  }
}
