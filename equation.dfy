/**
 * One quadratic equation a*x^2 + b*x + c = 0 (EquationCoefficients) and the
 * choice `solve` makes of what to print for it.  Which case applies is
 * decided from integer facts; the floating-point roots and extremum are not
 * computed here (their printed texts are an input, see Numbers).
 */
module Equation {
  import opened CharConv

  /** The coefficients of a*x^2 + b*x + c = 0, each a C++ `int`. */
  datatype EquationCoefficients = EquationCoefficients(a: Int32, b: Int32, c: Int32)

  /**
   * The `%g` texts of the floating-point values printed for one equation:
   * the roots and the extremum's coordinates, worked out in double
   * precision by code this model does not cover.
   */
  datatype Numbers = Numbers(root1: GText, root2: GText, x: GText, y: GText)

  /** The discriminant b^2 - 4ac, exactly. */
  function Discriminant(eq: EquationCoefficients): int {
    eq.b * eq.b - 4 * eq.a * eq.c
  }

  /** The root description `solve` prints. */
  datatype Roots = AnyRoots | NoRoots | OneRoot | TwoRoots

  /**
   * The case selection of `solve` and `findRootsNonParabola`: for a == 0 the
   * linear cases, otherwise the sign of the discriminant.
   */
  function FindRoots(eq: EquationCoefficients): Roots {
    if eq.a == 0 then
      if eq.b == 0 then (if eq.c == 0 then AnyRoots else NoRoots) else OneRoot
    else if Discriminant(eq) < 0 then NoRoots
    else if Discriminant(eq) == 0 then OneRoot
    else TwoRoots
  }

  /** The value of the polynomial at x, over the reals. */
  function Poly(eq: EquationCoefficients, x: real): real {
    eq.a as real * x * x + eq.b as real * x + eq.c as real
  }

  /** The x coordinate of the extremum, -b / 2a. */
  function Vertex(eq: EquationCoefficients): real
    requires eq.a != 0
  {
    -(eq.b as real) / (2.0 * eq.a as real)
  }

  /** The root printed in the one-root cases: -c / b for a line, -b / 2a for a parabola. */
  function SingleRoot(eq: EquationCoefficients): real
    requires FindRoots(eq) == OneRoot
  {
    if eq.a == 0 then -(eq.c as real) / (eq.b as real) else Vertex(eq)
  }

  lemma CompletedSquare(eq: EquationCoefficients, x: real)
    ensures 4.0 * eq.a as real * Poly(eq, x)
            == (2.0 * eq.a as real * x + eq.b as real) * (2.0 * eq.a as real * x + eq.b as real)
               - Discriminant(eq) as real
  {
    var a, b, c := eq.a as real, eq.b as real, eq.c as real;
    assert Discriminant(eq) as real == b * b - 4.0 * a * c;
    assert (2.0 * a * x + b) * (2.0 * a * x + b) == 4.0 * a * a * x * x + 4.0 * a * b * x + b * b;
  }

  lemma SquareNonNegative(y: real)
    ensures y * y >= 0.0
  {
    if y < 0.0 {
      assert y * y == (-y) * (-y);
    }
  }

  /** "(any)" is printed exactly when every real x solves the equation. */
  lemma AnyRootsMeansEveryX(eq: EquationCoefficients)
    ensures FindRoots(eq) == AnyRoots <==> forall x: real :: Poly(eq, x) == 0.0
  {
    if forall x: real :: Poly(eq, x) == 0.0 {
      assert Poly(eq, 0.0) == 0.0 && Poly(eq, 1.0) == 0.0 && Poly(eq, -1.0) == 0.0;
    }
  }

  /** "(no roots)" is printed only when no real x solves the equation. */
  lemma NoRootsMeansNoX(eq: EquationCoefficients)
    requires FindRoots(eq) == NoRoots
    ensures forall x: real :: Poly(eq, x) != 0.0
  {
    forall x: real
      ensures Poly(eq, x) != 0.0
    {
      if eq.a != 0 {
        var y := 2.0 * eq.a as real * x + eq.b as real;
        CompletedSquare(eq, x);
        SquareNonNegative(y);
        assert 4.0 * eq.a as real * Poly(eq, x) > 0.0;
      }
    }
  }

  lemma SquarePositive(y: real)
    requires y != 0.0
    ensures y * y > 0.0
  {
    if y < 0.0 {
      var z := -y;
      assert z > 0.0;
      assert z * z == y * y;
    }
  }

  lemma LinearRoot(b: real, c: real, x: real)
    requires b != 0.0
    ensures b * (-c / b) + c == 0.0
    ensures b * x + c == 0.0 ==> x == -c / b
  {
  }

  /** For a == 0, b != 0 the equation is b*x + c = 0 and -c/b is its only solution. */
  lemma LinearOneRoot(eq: EquationCoefficients, x: real)
    requires eq.a == 0 && eq.b != 0
    ensures Poly(eq, -(eq.c as real) / (eq.b as real)) == 0.0
    ensures Poly(eq, x) == 0.0 ==> x == -(eq.c as real) / (eq.b as real)
  {
    var b, c := eq.b as real, eq.c as real;
    assert Poly(eq, x) == b * x + c;
    assert Poly(eq, -c / b) == b * (-c / b) + c;
    LinearRoot(b, c, x);
  }

  /** For a != 0 and a zero discriminant, -b/2a is the only solution. */
  lemma DoubleRoot(eq: EquationCoefficients, x: real)
    requires eq.a != 0 && Discriminant(eq) == 0
    ensures Poly(eq, Vertex(eq)) == 0.0
    ensures x != Vertex(eq) ==> Poly(eq, x) != 0.0
  {
    var a, b, r := eq.a as real, eq.b as real, Vertex(eq);
    assert 2.0 * a * r + b == 0.0;
    CompletedSquare(eq, r);
    assert 4.0 * a * Poly(eq, r) == 0.0;
    if x != r {
      CompletedSquare(eq, x);
      var y := 2.0 * a * x + b;
      assert y == 2.0 * a * (x - r);
      SquarePositive(y);
    }
  }

  /** A single root is printed only when it solves the equation and nothing else does. */
  lemma OneRootMeansUniqueRoot(eq: EquationCoefficients)
    requires FindRoots(eq) == OneRoot
    ensures Poly(eq, SingleRoot(eq)) == 0.0
    ensures forall x: real :: Poly(eq, x) == 0.0 ==> x == SingleRoot(eq)
  {
    if eq.a == 0 {
      forall x: real
        ensures Poly(eq, x) == 0.0 ==> x == SingleRoot(eq)
      {
        LinearOneRoot(eq, x);
      }
      LinearOneRoot(eq, 0.0);
    } else {
      forall x: real
        ensures Poly(eq, x) == 0.0 ==> x == SingleRoot(eq)
      {
        DoubleRoot(eq, x);
      }
      DoubleRoot(eq, 0.0);
    }
  }

  /**
   * Two roots are printed only when the parabola's extremum lies strictly on
   * the other side of the x axis from its arms (a * f(-b/2a) < 0), so that
   * the curve crosses the axis twice, and the extremum itself is no root.
   */
  lemma TwoRootsMeansCrossing(eq: EquationCoefficients)
    requires FindRoots(eq) == TwoRoots
    ensures eq.a as real * Poly(eq, Vertex(eq)) < 0.0
  {
    var v := Vertex(eq);
    assert 2.0 * eq.a as real * v + eq.b as real == 0.0;
    CompletedSquare(eq, v);
  }

  // ---------------------------------------------------------------------
  // The discriminant as SolvingManager.cpp computes it, in `long long`.

  const LLONG_MIN: int := -0x8000_0000_0000_0000
  const LLONG_MAX: int := 0x7FFF_FFFF_FFFF_FFFF

  /** A `long long` result of an arithmetic operation, wrapped modulo 2^64. */
  function WrapLongLong(x: int): (r: int)
    ensures LLONG_MIN <= r <= LLONG_MAX
    ensures (x - r) % 0x1_0000_0000_0000_0000 == 0
    ensures LLONG_MIN <= x <= LLONG_MAX ==> r == x
  {
    (x - LLONG_MIN) % 0x1_0000_0000_0000_0000 + LLONG_MIN
  }

  /** 2^53: every natural number below it is a double. */
  const TWO_53: nat := 0x20_0000_0000_0000

  /**
   * The spacing of the doubles around a natural number x: 1 below 2^53,
   * and doubling with each binade above it, so that x has 53 significant
   * bits counted in units of the spacing.
   */
  function Ulp(x: nat): (u: nat)
    ensures 1 <= u
    ensures x < TWO_53 ==> u == 1
    ensures x >= TWO_53 ==> TWO_53 / 2 * u <= x < TWO_53 * u
    decreases x
  {
    if x < TWO_53 then 1
    else
      var half := Ulp(x / 2);
      assert x / 2 < TWO_53 ==> half == 1;
      2 * half
  }

  lemma DivideBySpacing(x: nat, u: nat)
    requires 1 <= u
    ensures x == x / u * u + x % u && 0 <= x % u < u
    ensures (x / u + 1) * u == x / u * u + u
    ensures u == 1 ==> x / u * u == x && x % u == 0
  {
  }

  /** Multiples of the spacing are what the doubles are, in this binade. */
  lemma MultipleOfSpacing(k: nat, u: nat)
    requires 1 <= u
    ensures (k * u) % u == 0 && (k * u) / u == k
  {
    DivisionUnique(k * u, u, k, 0);
  }

  lemma MulMono(a: nat, b: nat, u: nat)
    requires a <= b
    ensures a * u <= b * u
  {
    assert b * u == a * u + (b - a) * u;
  }

  lemma QuotientBound(m: nat, u: nat, q1: nat, r1: nat, q2: nat, r2: nat)
    requires 1 <= u && r1 < u && m == q1 * u + r1 && m == q2 * u + r2
    ensures q2 <= q1
  {
    if q1 < q2 {
      assert (q1 + 1) * u == q1 * u + u;
      MulMono(q1 + 1, q2, u);
    }
  }

  /** Quotient and remainder are unique. */
  lemma DivisionUnique(m: nat, u: nat, q: nat, rest: nat)
    requires 1 <= u && rest < u && m == q * u + rest
    ensures m / u == q && m % u == rest
  {
    assert m == m / u * u + m % u;
    QuotientBound(m, u, q, rest, m / u, m % u);
    QuotientBound(m, u, m / u, m % u, q, rest);
  }

  /**
   * The double nearest to x, ties to even (IEEE 754 round to nearest): a
   * multiple of the spacing, so a double; never more than half a spacing
   * from x; on a tie, the one with an even last significant bit; and x
   * itself below 2^53.
   */
  function RoundToDouble(x: nat): (r: nat)
    ensures r % Ulp(x) == 0
    ensures 2 * (x - r) <= Ulp(x) && 2 * (r - x) <= Ulp(x)
    ensures 2 * (x - r) == Ulp(x) || 2 * (r - x) == Ulp(x) ==> (r / Ulp(x)) % 2 == 0
    ensures x < TWO_53 ==> r == x
  {
    NearestMultipleFacts(x, Ulp(x));
    NearestMultiple(x, Ulp(x))
  }

  /** The multiple of u nearest to x, ties to the even multiple. */
  function NearestMultiple(x: nat, u: nat): nat
    requires 1 <= u
  {
    var q := x / u;
    if 2 * (x % u) < u || (2 * (x % u) == u && q % 2 == 0) then q * u else (q + 1) * u
  }

  /** The rounding step of RoundToDouble, for any spacing u. */
  lemma NearestMultipleFacts(x: nat, u: nat)
    requires 1 <= u
    ensures NearestMultiple(x, u) % u == 0
    ensures 2 * (x - NearestMultiple(x, u)) <= u && 2 * (NearestMultiple(x, u) - x) <= u
    ensures 2 * (x - NearestMultiple(x, u)) == u || 2 * (NearestMultiple(x, u) - x) == u ==>
              (NearestMultiple(x, u) / u) % 2 == 0
    ensures u == 1 ==> NearestMultiple(x, u) == x
  {
    var r := NearestMultiple(x, u);
    var q, rest := x / u, x % u;
    DivideBySpacing(x, u);
    if 2 * rest < u || (2 * rest == u && q % 2 == 0) {
      MultipleOfSpacing(q, u);
      assert x == r + rest;
    } else {
      MultipleOfSpacing(q + 1, u);
      assert r == q * u + u;
      assert r == x + (u - rest);
    }
  }

  /**
   * `static_cast<long long>(std::pow(b, 2)) - 4LL * a * c` on a two's
   * complement machine: pow returns the double nearest to b^2 (which the
   * cast keeps, being below 2^63), and 4LL * a * c and the difference wrap
   * around when they leave the `long long` range.
   */
  function DiscriminantAsWritten(eq: EquationCoefficients): int {
    WrapLongLong(RoundToDouble(eq.b * eq.b) - WrapLongLong(4 * eq.a * eq.c))
  }

  /** The case selection as written, from the wrapped discriminant. */
  function FindRootsAsWritten(eq: EquationCoefficients): Roots {
    if eq.a == 0 then FindRoots(eq)
    else if DiscriminantAsWritten(eq) < 0 then NoRoots
    else if DiscriminantAsWritten(eq) == 0 then OneRoot
    else TwoRoots
  }

  /**
   * For a = c = INT_MAX and b = 0, 4LL * a * c overflows and wraps to a
   * negative number, so the written code reports two roots for an equation
   * that has none.
   */
  lemma DiscriminantOverflowExample()
    ensures var eq := EquationCoefficients(INT_MAX, 0, INT_MAX);
            FindRootsAsWritten(eq) == TwoRoots && FindRoots(eq) == NoRoots
            && forall x: real :: Poly(eq, x) != 0.0
  {
    var eq := EquationCoefficients(INT_MAX, 0, INT_MAX);
    assert 4 * eq.a * eq.c == 18_446_744_056_529_682_436;
    assert WrapLongLong(4 * eq.a * eq.c) == -17_179_869_180;
    assert DiscriminantAsWritten(eq) == 17_179_869_180;
    NoRootsMeansNoX(eq);
  }

  /**
   * For a = c = 2^30 - 1 and b = 2^31 - 2 the discriminant is exactly 0, so
   * the equation has the one root -b/2a; but b^2 = 2^62 - 2^33 + 4 is not a
   * double, pow rounds it down by 4, and the written code sees -4 and
   * reports no roots.  Nothing overflows here.
   */
  lemma PowRoundingExample()
    ensures var eq := EquationCoefficients(1_073_741_823, 2_147_483_646, 1_073_741_823);
            FindRoots(eq) == OneRoot && Poly(eq, Vertex(eq)) == 0.0
            && FindRootsAsWritten(eq) == NoRoots
  {
    var eq := EquationCoefficients(1_073_741_823, 2_147_483_646, 1_073_741_823);
    var x: nat := eq.b * eq.b;
    assert x == 4_611_686_009_837_453_316;
    assert Ulp(x / 512) == 1 by { assert x / 512 == 9_007_199_237_963_776; }
    assert Ulp(x) == 512 by {
      assert x / 2 / 2 / 2 / 2 / 2 / 2 / 2 / 2 / 2 == x / 512;
      assert Ulp(x / 256) == 2 * Ulp(x / 512) by { assert x / 256 / 2 == x / 512; }
      assert Ulp(x / 128) == 2 * Ulp(x / 256) by { assert x / 128 / 2 == x / 256; }
      assert Ulp(x / 64) == 2 * Ulp(x / 128) by { assert x / 64 / 2 == x / 128; }
      assert Ulp(x / 32) == 2 * Ulp(x / 64) by { assert x / 32 / 2 == x / 64; }
      assert Ulp(x / 16) == 2 * Ulp(x / 32) by { assert x / 16 / 2 == x / 32; }
      assert Ulp(x / 8) == 2 * Ulp(x / 16) by { assert x / 8 / 2 == x / 16; }
      assert Ulp(x / 4) == 2 * Ulp(x / 8) by { assert x / 4 / 2 == x / 8; }
      assert Ulp(x / 2) == 2 * Ulp(x / 4) by { assert x / 2 / 2 == x / 4; }
      assert Ulp(x) == 2 * Ulp(x / 2);
    }
    assert RoundToDouble(x) == x - 4;
    assert 4 * eq.a * eq.c == x;
    assert DiscriminantAsWritten(eq) == -4;
    assert Discriminant(eq) == 0;
    DoubleRoot(eq, 0.0);
  }

  /**
   * Where b^2 is a double and neither 4ac nor the difference leaves the
   * `long long` range, the written code is exact.
   */
  lemma DiscriminantAsWrittenExact(eq: EquationCoefficients)
    requires eq.b * eq.b < TWO_53
    requires LLONG_MIN <= 4 * eq.a * eq.c <= LLONG_MAX
    requires LLONG_MIN <= Discriminant(eq) <= LLONG_MAX
    ensures DiscriminantAsWritten(eq) == Discriminant(eq)
    ensures FindRootsAsWritten(eq) == FindRoots(eq)
  {
  }
}
