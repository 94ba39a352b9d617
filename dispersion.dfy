/**
 * The Love-wave dispersion relation of a layer over a half-space
 * (examples/lab03.py, lines 5-48): the physical constants, the domain bound
 * zeta_max, the dispersion function with its domain guard, and the derived
 * phase velocity and wavelength of a solved mode.
 *
 * The transcendental functions are not modelled: the square root, the tangent
 * and the constant pi are the fields of a `Math` value passed in.
 */
module Dispersion {
  import opened Wrappers

  // Physical parameters (examples/lab03.py, lines 6-10)
  const Rho1: real := 1800.0
  const Rho2: real := 2500.0
  const Beta1: real := 1900.0
  const Beta2: real := 3200.0
  const H: real := 4000.0

  /** The transcendental functions the solver calls, left uninterpreted. */
  datatype Math = Math(sqrt: real -> real, tan: real -> real, pi: real)

  /**
   * `sqrt` behaves as the exact square root on the non-negative reals: it is
   * non-negative and strictly increasing there, and it undoes squaring.
   */
  ghost predicate Exact(m: Math)
  {
    (forall x, y {:trigger Monotone(m, x, y)} :: Monotone(m, x, y)) &&
    (forall x :: 0.0 <= x ==> m.sqrt(Square(x)) == x)
  }

  /** sqrt is non-negative and increasing between x and y. */
  predicate Monotone(m: Math, x: real, y: real)
  {
    0.0 <= x < y ==> 0.0 <= m.sqrt(x) < m.sqrt(y)
  }

  function Square(x: real): real
  {
    x * x
  }

  /** 1/beta1^2 - 1/beta2^2, the squared slowness contrast of the two media. */
  const SlownessGap: real := 1.0 / (Beta1 * Beta1) - 1.0 / (Beta2 * Beta2)

  /** zeta_max = H * sqrt(1/beta1^2 - 1/beta2^2), the right end of the domain. */
  function ZetaMax(m: Math): real
  {
    H * m.sqrt(SlownessGap)
  }

  /** The domain bound lies above 0.01, the left end of the first bracket. */
  lemma ZetaMaxAboveFirstBoundary(m: Math)
    requires Exact(m)
    ensures 0.01 < ZetaMax(m)
  {
    assert m.sqrt(Square(0.0000025)) == 0.0000025;
    assert Square(0.0000025) < SlownessGap;
    assert Monotone(m, Square(0.0000025), SlownessGap);
  }

  /** The left-hand side of the dispersion relation, defined for zeta != 0. */
  function Lhs(m: Math, zeta: real): real
    requires zeta != 0.0
  {
    (Rho2 / Rho1) * m.sqrt(H * H * (1.0 / (Beta1 * Beta1) - 1.0 / (Beta2 * Beta2)) - zeta * zeta) / zeta
  }

  /** The right-hand side tan(2 pi f zeta). */
  function Rhs(m: Math, zeta: real, f: real): real
  {
    m.tan(2.0 * m.pi * f * zeta)
  }

  /**
   * dispersion_function: undefined outside the open interval (0, zeta_max),
   * lhs - rhs inside it.
   */
  function DispersionFunction(m: Math, zeta: real, f: real): (r: Option<real>)
    ensures r.Some? <==> 0.0 < zeta < ZetaMax(m)
    ensures r.Some? ==> r.value == Lhs(m, zeta) - Rhs(m, zeta, f)
  {
    if zeta <= 0.0 || zeta >= ZetaMax(m) then None
    else Some(Lhs(m, zeta) - Rhs(m, zeta, f))
  }

  /**
   * 1/beta1^2 - zeta^2/H^2, the quantity whose reciprocal compute_cL_from_zeta
   * takes the square root of.
   */
  function Slowness2(zeta: real): real
  {
    1.0 / (Beta1 * Beta1) - zeta * zeta / (H * H)
  }

  /** Inside the domain, Slowness2 lies strictly between 1/beta2^2 and 1/beta1^2. */
  lemma Slowness2Bounds(m: Math, zeta: real)
    requires Exact(m)
    requires 0.0 < zeta < ZetaMax(m)
    ensures 1.0 / (Beta2 * Beta2) < Slowness2(zeta) < 1.0 / (Beta1 * Beta1)
  {
    var w := zeta / H;
    QuotientSquare(zeta);
    RatioBelowGap(m, w);
    SquareNonNegative(w);
    assert m.sqrt(Square(w)) == w && m.sqrt(Square(0.0)) == 0.0;
  }

  /** 0 < w < sqrt(gap) implies w^2 < gap. */
  lemma RatioBelowGap(m: Math, w: real)
    requires Exact(m)
    requires 0.0 < w < m.sqrt(SlownessGap)
    ensures Square(w) < SlownessGap
  {
    assert m.sqrt(Square(w)) == w;
    assert Monotone(m, SlownessGap, Square(w));
  }

  lemma QuotientSquare(z: real)
    ensures z * z / (H * H) == Square(z / H)
  {
  }

  lemma SquareNonNegative(x: real)
    ensures 0.0 <= Square(x)
  {
  }

  /**
   * compute_cL_from_zeta: the phase velocity sqrt(1 / (1/beta1^2 - zeta^2/H^2)).
   * With an exact square root, every zeta of the domain gives a Love-wave
   * velocity strictly between the two shear velocities.
   */
  function PhaseVelocity(m: Math, zeta: real): (c: real)
    requires Exact(m)
    requires 0.0 < zeta < ZetaMax(m)
    ensures Beta1 < c < Beta2
  {
    Slowness2Bounds(m, zeta);
    ReciprocalBounds(Slowness2(zeta));
    assert m.sqrt(Square(Beta1)) == Beta1 && m.sqrt(Square(Beta2)) == Beta2;
    assert Monotone(m, Square(Beta1), 1.0 / Slowness2(zeta)) && Monotone(m, 1.0 / Slowness2(zeta), Square(Beta2));
    m.sqrt(1.0 / Slowness2(zeta))
  }

  lemma ReciprocalBounds(v: real)
    requires 1.0 / (Beta2 * Beta2) < v < 1.0 / (Beta1 * Beta1)
    ensures Beta1 * Beta1 < 1.0 / v < Beta2 * Beta2
  {
    assert v * (Beta1 * Beta1) < 1.0;
    assert v * (Beta2 * Beta2) > 1.0;
  }

  /** compute_lambdaL: the wavelength cL / f. */
  function Wavelength(c: real, f: real): (lambda: real)
    requires f > 0.0
    ensures lambda * f == c
  {
    c / f
  }
}
