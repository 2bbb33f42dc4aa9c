/** For which lines the error term of the drawing loop stays within 32 bits: exactly. */
module LineRange {
  function Max(a: nat, b: nat): nat {
    if a > b then a else b
  }

  predicate Fits(v: int) {
    -0x8000_0000 <= v < 0x8000_0000
  }

  // ---------------------------------------------------------------------------
  // The loop without bounds on its variables
  // ---------------------------------------------------------------------------

  /** The two tests of the loop when the error term is dx - dy + d. */
  predicate GoX(dx: nat, dy: nat, d: int) {
    2 * (dx - dy + d) > 0 - dy
  }

  predicate GoY(dx: nat, dy: nat, d: int) {
    2 * (dx - dy + d) < dx
  }

  /** What the error term has gained over dx - dy after k rounds. */
  function Dev(dx: nat, dy: nat, k: nat): int {
    if k == 0 then 0
    else
      var d := Dev(dx, dy, k - 1);
      d + (if GoY(dx, dy, d) then dx else 0) - (if GoX(dx, dy, d) then dy else 0)
  }

  /** Every value that one round computes fits: the error term, its double, and the error term after
      each of the two additions. */
  predicate StepFits(dx: nat, dy: nat, d: int) {
    var err := dx - dy + d;
    var first := if GoX(dx, dy, d) then err - dy else err;
    var second := if GoY(dx, dy, d) then first + dx else first;
    Fits(err) && Fits(2 * err) && Fits(first) && Fits(second)
  }

  /** Nothing overflows while a line with that bounding box is drawn. */
  ghost predicate NeverOverflows(dx: nat, dy: nat) {
    dx < 0x8000_0000 && dy < 0x8000_0000 && forall k :: 0 <= k < Max(dx, dy) ==> StepFits(dx, dy, Dev(dx, dy, k))
  }

  /** One round of the loop. */
  lemma Round(dx: nat, dy: nat, k: nat)
    ensures var d := Dev(dx, dy, k);
            Dev(dx, dy, k + 1) == d + (if GoY(dx, dy, d) then dx else 0) - (if GoX(dx, dy, d) then dy else 0)
    ensures NeverOverflows(dx, dy) && k < Max(dx, dy) ==> StepFits(dx, dy, Dev(dx, dy, k))
  {
  }

  // ---------------------------------------------------------------------------
  // The condition
  // ---------------------------------------------------------------------------

  function Gcd(a: nat, b: nat): nat
    decreases b
  {
    if b == 0 then a else Gcd(b, a % b)
  }

  /** The largest multiple of g below half of g * n, and the largest one up to it. */
  function Top(g: nat, n: nat): nat {
    g * (if n == 0 then 0 else (n - 1) / 2)
  }

  function Bottom(g: nat, n: nat): nat {
    g * (n / 2)
  }

  /** What a caller can check: dx and dy fit, and so do the extreme values of the error term. */
  predicate LineFits(dx: nat, dy: nat) {
    var g := Gcd(Max(dx, dy), if dx > dy then dy else dx);
    && dx < 0x8000_0000 && dy < 0x8000_0000
    && (dx > dy ==> 2 * (dx - dy) + 2 * Top(g, Parts(dx, g)) < 0x8000_0000
                    && 2 * dy - dx + Bottom(g, Parts(dx, g)) <= 0x8000_0000)
    && (dy > dx ==> 2 * (dy - dx) + 2 * Top(g, Parts(dy, g)) <= 0x8000_0000
                    && dy + Top(g, Parts(dy, g)) <= 0x8000_0000)
  }

  function Parts(a: nat, g: nat): nat {
    if g == 0 then 0 else a / g
  }

  // ---------------------------------------------------------------------------
  // Common divisors
  // ---------------------------------------------------------------------------

  /** g is a combination of a and b, and divides both. */
  ghost predicate Common(a: nat, b: nat, g: nat, p: nat, q: nat, u: int, v: int) {
    g == u * a + v * b && a == g * p && b == g * q
  }

  lemma {:induction false} Bezout(a: nat, b: nat) returns (p: nat, q: nat, u: int, v: int)
    ensures Common(a, b, Gcd(a, b), p, q, u, v)
    decreases b
  {
    if b == 0 {
      p, q, u, v := 1, 0, 1, 0;
    } else {
      var m := a / b;
      var p', q', u', v' := Bezout(b, a % b);
      hide Common;
      Remainder(a, b);
      EuclidStep(a, b, m, Gcd(a, b), p', q', u', v');
      p, q, u, v := m * p' + q', p', v', u' - m * v';
    }
  }

  lemma Remainder(a: nat, b: nat)
    requires b > 0
    ensures a >= (a / b) * b && a % b == a - (a / b) * b
  {
  }

  lemma EuclidStep(a: nat, b: nat, m: nat, g: nat, p: nat, q: nat, u: int, v: int)
    requires a >= m * b && Common(b, a - m * b, g, p, q, u, v)
    ensures m * p + q >= 0 && Common(a, b, g, m * p + q, p, v, u - m * v)
  {
    calc {
      v * a + (u - m * v) * b;
      v * a + u * b - (m * v) * b;
      { assert (m * v) * b == v * (m * b); }
      u * b + v * (a - m * b);
      g;
    }
    calc {
      g * (m * p + q);
      { assert g * (m * p) == m * (g * p); }
      m * b + (a - m * b);
      a;
    }
  }

  lemma PartsOf(a: nat, g: nat, p: nat)
    requires a == g * p && a > 0
    ensures g > 0 && Parts(a, g) == p
  {
    assert g > 0;
    Quotient(a, g, p);
  }

  lemma Quotient(a: nat, g: nat, p: nat)
    requires g > 0 && a == g * p
    ensures a / g == p
  {
    var q := a / g;
    assert a == g * q + a % g;
    if q < p { Below(g, q, p); } else if q > p { Below(g, p, q); }
  }

  lemma Below(g: nat, q: nat, p: nat)
    requires q < p
    ensures g * q + g <= g * p
  {
    assert g * p == g * q + g * (p - q);
    assert g * (p - q) >= g by { Scale(1, p - q, g); }
  }

  lemma Scale(a: int, b: int, g: nat)
    requires a <= b
    ensures g * a <= g * b
  {
  }

  lemma Unscale(a: int, b: int, g: nat)
    requires g * a < g * b
    ensures a < b
  {
    if a >= b { Scale(b, a, g); }
  }

  // ---------------------------------------------------------------------------
  // Which values the error term takes
  // ---------------------------------------------------------------------------

  /** Exchanging the axes changes the sign. */
  lemma {:induction false} Mirror(dx: nat, dy: nat, k: nat)
    ensures Dev(dy, dx, k) == 0 - Dev(dx, dy, k)
  {
    if k > 0 {
      Mirror(dx, dy, k - 1);
    }
  }

  /** Along the major axis a the value stays in a half-open interval of length a. */
  lemma {:induction false} DevInside(a: nat, b: nat, k: nat)
    requires a > b
    ensures 0 - a <= 2 * Dev(a, b, k) < a && GoX(a, b, Dev(a, b, k))
  {
    if k > 0 {
      DevInside(a, b, k - 1);
    }
  }

  /** It is k steps of b away from a multiple of a. */
  lemma {:induction false} DevResidue(a: nat, b: nat, k: nat) returns (j: int)
    requires a > b
    ensures Dev(a, b, k) == j * a - k * b
  {
    if k == 0 {
      j := 0;
    } else {
      var i := DevResidue(a, b, k - 1);
      DevInside(a, b, k - 1);
      var up := GoY(a, b, Dev(a, b, k - 1));
      j := if up then i + 1 else i;
      OneMore(i, k - 1, a, b, up);
    }
  }

  lemma OneMore(i: int, k: int, a: int, b: int, up: bool)
    ensures (if up then i + 1 else i) * a - (k + 1) * b == i * a - k * b + (if up then a else 0) - b
  {
  }

  /** It is a multiple of the common divisor, between the two extremes. */
  lemma DevBetween(a: nat, b: nat, k: nat)
    requires a > b
    ensures var g := Gcd(a, b);
            0 - Bottom(g, Parts(a, g)) <= Dev(a, b, k) <= Top(g, Parts(a, g))
    ensures GoX(a, b, Dev(a, b, k)) && 0 - a <= 2 * Dev(a, b, k) < a
  {
    hide Gcd, Dev, Parts, Bottom, Top;
    var g := Gcd(a, b);
    var n, q, u, v := Bezout(a, b);
    PartsOf(a, g, n);
    DevInside(a, b, k);
    var j := DevResidue(a, b, k);
    Multiple(a, b, g, n, q, j, k);
    HalfRange(a, g, n, j * n - k * q);
  }

  lemma HalfRange(a: nat, g: nat, n: nat, t: int)
    requires a == g * n && n > 0 && 0 - a <= 2 * (g * t) < a
    ensures 0 - Bottom(g, n) <= g * t <= Top(g, n)
  {
    assert 2 * (g * t) == g * (2 * t) && 0 - a == g * (0 - n);
    Unscale(2 * t, n, g);
    assert g * (0 - n - 1) == g * (0 - n) - g;
    Unscale(0 - n - 1, 2 * t, g);
    Scale(t, (n - 1) / 2, g);
    Scale(0 - (n / 2), t, g);
    assert g * (0 - (n / 2)) == 0 - g * (n / 2);
  }

  lemma InHalfRange(a: nat, g: nat, n: nat, t: int)
    requires a == g * n && g > 0 && 0 - n <= 2 * t < n
    ensures 0 - a <= 2 * (g * t) < a
  {
    assert 2 * (g * t) == g * (2 * t);
    Scale(2 * t + 1, n, g);
    assert g * (2 * t + 1) == g * (2 * t) + g;
    Scale(0 - n, 2 * t, g);
    assert g * (0 - n) == 0 - a;
  }

  lemma Multiple(a: nat, b: nat, g: nat, n: nat, q: nat, j: int, k: nat)
    requires a == g * n && b == g * q
    ensures j * a - k * b == g * (j * n - k * q)
  {
    assert j * a == g * (j * n) && k * b == g * (k * q);
  }

  /** Every multiple of the common divisor in the interval is reached before the end. */
  lemma Attained(a: nat, b: nat, t: int) returns (k: nat)
    requires a > b && 0 - Parts(a, Gcd(a, b)) <= 2 * t < Parts(a, Gcd(a, b))
    ensures k < a && Dev(a, b, k) == Gcd(a, b) * t
  {
    hide Gcd, Dev, Parts;
    var g := Gcd(a, b);
    var n, q, u, v := Bezout(a, b);
    PartsOf(a, g, n);
    var w: int;
    k, w := Residue(0 - t * v, n);
    DevInside(a, b, k);
    var j := DevResidue(a, b, k);
    SameResidue(a, b, g, n, q, u, v, t, w, j, k);
    InHalfRange(a, g, n, t);
    OnlyZero(a, j - t * u + w * q, Dev(a, b, k), g * t);
    Scale(1, g, n);
  }

  lemma Residue(x: int, n: nat) returns (r: nat, w: int)
    requires n > 0
    ensures r < n && x == w * n + r
  {
    r, w := x % n, x / n;
  }

  lemma SameResidue(a: nat, b: nat, g: nat, n: nat, q: nat, u: int, v: int, t: int, w: int, j: int, k: nat)
    requires Common(a, b, g, n, q, u, v) && 0 - t * v == w * n + k
    ensures j * a - k * b == g * t + a * (j - t * u + w * q)
  {
    calc {
      0 - k * b;
      { assert k == 0 - t * v - w * n; }
      (t * v + w * n) * b;
      (t * v) * b + (w * n) * b;
      { assert (t * v) * b == t * (v * b) && v * b == g - u * a; }
      t * (g - u * a) + (w * n) * b;
      { assert t * (g - u * a) == t * g - t * (u * a) && t * (u * a) == a * (t * u); }
      t * g - a * (t * u) + (w * n) * b;
      { assert (w * n) * b == w * (n * (g * q)) == a * (w * q) by { Regroup(w, n, g, q); } }
      t * g - a * (t * u) + a * (w * q);
    }
    assert a * (j - t * u + w * q) == a * j - a * (t * u) + a * (w * q);
  }

  lemma Regroup(w: int, n: nat, g: nat, q: nat)
    ensures (w * n) * (g * q) == w * (n * (g * q)) == (g * n) * (w * q)
  {
    assert (w * n) * (g * q) == ((w * n) * g) * q;
    assert (w * n) * g == (g * n) * w;
    assert ((g * n) * w) * q == (g * n) * (w * q);
  }

  lemma OnlyZero(a: nat, z: int, x: int, y: int)
    requires x == y + a * z && 0 - a <= 2 * x < a && 0 - a <= 2 * y < a
    ensures x == y
  {
    if z >= 1 { Scale(1, z, a); } else if z <= -1 { Scale(z, -1, a); } else { assert a * z == 0; }
  }

  // ---------------------------------------------------------------------------
  // The theorem
  // ---------------------------------------------------------------------------

  lemma FlatFits(a: nat, b: nat)
    requires a > b && LineFits(a, b)
    ensures NeverOverflows(a, b)
  {
    hide Gcd, Parts, Top, Bottom;
    hide Dev;
    forall k | 0 <= k < Max(a, b) ensures StepFits(a, b, Dev(a, b, k)) {
      Round(a, b, k);
      DevBetween(a, b, k);
      DevBetween(a, b, k + 1);
    }
  }

  lemma SteepFits(a: nat, b: nat)
    requires a > b && LineFits(b, a)
    ensures NeverOverflows(b, a)
  {
    hide Gcd, Parts, Top, Bottom;
    hide Dev;
    forall k | 0 <= k < Max(a, b) ensures StepFits(b, a, Dev(b, a, k)) {
      Round(b, a, k);
      Mirror(a, b, k);
      Mirror(a, b, k + 1);
      DevBetween(a, b, k);
      DevBetween(a, b, k + 1);
    }
  }

  /** The extremes are reached. */
  lemma ExtremesAttained(a: nat, b: nat) returns (k: nat, l: nat)
    requires a > b
    ensures var g := Gcd(a, b);
            && k < a && Dev(a, b, k) == Top(g, Parts(a, g))
            && l < a && Dev(a, b, l) == 0 - Bottom(g, Parts(a, g))
  {
    hide Gcd, Dev, Parts;
    var g := Gcd(a, b);
    var n, q, u, v := Bezout(a, b);
    PartsOf(a, g, n);
    assert n > 0;
    k := Attained(a, b, (n - 1) / 2);
    var half: int := n / 2;
    l := Attained(a, b, -half);
    assert g * -half == -(g * half);
  }

  lemma FlatNeeds(a: nat, b: nat)
    requires a > b && NeverOverflows(a, b)
    ensures LineFits(a, b)
  {
    hide Gcd, Dev, Parts, Top, Bottom;
    var k, l := ExtremesAttained(a, b);
    assert StepFits(a, b, Dev(a, b, k)) && StepFits(a, b, Dev(a, b, l));
    DevBetween(a, b, l);
  }

  /** The lowest value is reached by a step along the minor axis, which subtracts a first. */
  lemma SteepNeeds(a: nat, b: nat)
    requires a > b && NeverOverflows(b, a)
    ensures LineFits(b, a)
  {
    hide Gcd, Parts, Top, Bottom;
    var k, l := ExtremesAttained(a, b);
    Mirror(a, b, k);
    assert StepFits(b, a, Dev(b, a, k));
    DevBetween(a, b, k);
    if k > 0 {
      Mirror(a, b, k - 1);
      DevBetween(a, b, k - 1);
      assert StepFits(b, a, Dev(b, a, k - 1));
    }
  }

  lemma {:induction false} DiagonalStays(n: nat, k: nat)
    ensures Dev(n, n, k) == 0
  {
    if k > 0 { DiagonalStays(n, k - 1); }
  }

  /** Drawing a line overflows nowhere exactly if its bounding box passes the check. */
  lemma NeverOverflowsIff(dx: nat, dy: nat)
    ensures NeverOverflows(dx, dy) <==> LineFits(dx, dy)
  {
    if dx > dy {
      if LineFits(dx, dy) { FlatFits(dx, dy); }
      if NeverOverflows(dx, dy) { FlatNeeds(dx, dy); }
    } else if dy > dx {
      if LineFits(dx, dy) { SteepFits(dy, dx); }
      if NeverOverflows(dx, dy) { SteepNeeds(dy, dx); }
    } else {
      forall k | 0 <= k < dx && dx < 0x8000_0000 ensures StepFits(dx, dx, Dev(dx, dx, k)) {
        DiagonalStays(dx, k);
      }
    }
  }

  /** Lines along an axis may be almost 2^30 pixels long. */
  lemma AxisFits(n: nat)
    ensures LineFits(n, 0) <==> n < 0x4000_0000
    ensures LineFits(0, n) <==> n <= 0x4000_0000
  {
    if n > 0 {
      PartsOf(n, n, 1);
    }
  }

  lemma ExtremesShort(a: nat, b: nat)
    requires a > b
    ensures var g := Gcd(a, b); 2 * Top(g, Parts(a, g)) < a && 2 * Bottom(g, Parts(a, g)) <= a
  {
    hide Top, Bottom, Parts, Gcd, Dev;
    var k, l := ExtremesAttained(a, b);
    DevInside(a, b, k);
    DevInside(a, b, l);
  }

  /** Every line shorter than a third of 2^31 is safe. */
  lemma ShortLinesFit(dx: nat, dy: nat)
    requires 3 * Max(dx, dy) < 0x8000_0000
    ensures LineFits(dx, dy)
  {
    hide Gcd, Parts, Top, Bottom;
    if dx > dy {
      ExtremesShort(dx, dy);
    } else if dy > dx {
      ExtremesShort(dy, dx);
    }
  }

  /** A line that overflows: 2^30 pixels wide and one high. */
  lemma LongLineOverflows()
    ensures !LineFits(0x4000_0000, 1) && !NeverOverflows(0x4000_0000, 1)
  {
    assert Gcd(0x4000_0000, 1) == Gcd(1, 0) == 1;
    NeverOverflowsIff(0x4000_0000, 1);
  }
}
