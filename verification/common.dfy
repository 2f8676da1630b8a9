/**
 Shared vocabulary of the KF movie-maker model: failure-carrying results, bytes and RGB
 palette entries, and the C/C++ real-number conversions (floor, ceil, truncation, rounding,
 fmod) that the plug-in applies to its floating point values.

 Floating point values are modelled as `real`: rounding of float/double arithmetic, NaN and
 infinities are not modelled. The transcendental functions the plug-in calls are supplied as
 the fields of a `MathLib` value, so every property proved about them holds for any choice.
 */
module Common {

  /** Result of an operation that may throw in the source. */
  datatype Result<+T, +E> = Ok(value: T) | Err(error: E) {
    predicate IsFailure() { Err? }
    function PropagateFailure<U>(): Result<U, E>
      requires Err?
    {
      Err(error)
    }
    function Extract(): T
      requires Ok?
    {
      value
    }
  }

  datatype Option<+T> = None | Some(value: T)

  /** An unsigned 8-bit value. */
  type byte = b: int | 0 <= b < 256

  /** The plug-in's `RGB` struct: three unsigned chars. */
  datatype Rgb = Rgb(red: byte, green: byte, blue: byte)

  /** Size of the fixed palette arrays (`maxKFRColours`). */
  const MaxKfrColours: int := 1024

  /** 2^32, the modulus of a 32-bit unsigned wrap-around. */
  const Two32: int := 0x1_0000_0000

  /** Converts an `int` to `unsigned char` the way C++ narrowing does: modulo 256. */
  function ToByte(v: int): (b: byte)
    ensures 0 <= v < 256 ==> b == v
  {
    v % 256
  }

  function Min(a: int, b: int): int { if a < b then a else b }
  function Max(a: int, b: int): int { if a < b then b else a }
  function MinR(a: real, b: real): real { if a < b then a else b }
  function MaxR(a: real, b: real): real { if a < b then b else a }

  /** `std::floor` followed by a conversion to an integer. */
  function Floor(r: real): int { r.Floor }

  predicate IsIntegral(r: real) { r == r.Floor as real }

  lemma FloorBounds(r: real)
    ensures r.Floor as real <= r < r.Floor as real + 1.0
  {
  }

  /** An integral real is the floor of itself; the floor of an integer-valued real is that integer. */
  lemma FloorOfInt(n: int)
    ensures (n as real).Floor == n
  {
  }

  /** `std::ceil`. */
  function Ceil(r: real): (c: int)
    ensures IsIntegral(r) ==> c as real == r
    ensures !IsIntegral(r) ==> c == Floor(r) + 1
    ensures r <= c as real < r + 1.0
  {
    if IsIntegral(r) then r.Floor else r.Floor + 1
  }

  /** A C/C++ cast from floating point to integer: truncation toward zero. */
  function Trunc(r: real): (t: int)
    ensures r >= 0.0 ==> t == Floor(r)
    ensures r < 0.0 ==> r <= t as real <= 0.0
    ensures r - 1.0 < t as real < r + 1.0
    ensures IsIntegral(r) ==> t as real == r
  {
    if r >= 0.0 then FloorBounds(r); r.Floor else NegFloor(r); -((-r).Floor)
  }

  lemma NegFloor(r: real)
    requires r < 0.0
    ensures r <= -((-r).Floor) as real <= 0.0
    ensures -((-r).Floor) as real < r + 1.0
    ensures IsIntegral(r) ==> -((-r).Floor) as real == r
  {
    FloorBounds(-r);
    if IsIntegral(r) {
      var k := r.Floor;
      assert -r == (-k) as real;
      FloorOfInt(-k);
    }
  }

  /** `std::round`: nearest integer, halfway cases away from zero. */
  function Round(r: real): (n: int)
    ensures r - 0.5 <= n as real <= r + 0.5
    ensures IsIntegral(r) ==> n as real == r
  {
    RoundBounds(r);
    if r >= 0.0 then (r + 0.5).Floor else -((-r + 0.5).Floor)
  }

  lemma RoundBounds(r: real)
    ensures var n := if r >= 0.0 then (r + 0.5).Floor else -((-r + 0.5).Floor);
      && r - 0.5 <= n as real <= r + 0.5
      && (IsIntegral(r) ==> n as real == r)
  {
    FloorBounds(r + 0.5);
    FloorBounds(-r + 0.5);
    if IsIntegral(r) {
      var k := r.Floor;
      HalfAboveInt(k);
      HalfAboveInt(-k);
      assert -r == (-k) as real;
    }
  }

  lemma HalfAboveInt(k: int)
    ensures (k as real + 0.5).Floor == k
  {
    FloorBounds(k as real + 0.5);
  }

  /** `std::fmod`: the remainder of a truncating division; it has the sign of `a`. */
  function FMod(a: real, n: real): (m: real)
    requires n > 0.0
    ensures a >= 0.0 ==> 0.0 <= m < n
    ensures a < 0.0 ==> -n < m <= 0.0
  {
    var q := Trunc(a / n);
    FModBounds(a, n, q);
    a - n * (q as real)
  }

  lemma FModBounds(a: real, n: real, q: int)
    requires n > 0.0 && q == Trunc(a / n)
    ensures a >= 0.0 ==> 0.0 <= a - n * (q as real) < n
    ensures a < 0.0 ==> -n < a - n * (q as real) <= 0.0
  {
    QuotientSign(a, n);
    TruncFraction(a / n, q);
    if a >= 0.0 {
      RemainderBelow(a, n, q as real);
    } else {
      RemainderAbove(a, n, q as real);
    }
  }

  /** A quotient whose fraction above `q` lies in [0, 1) leaves a remainder in [0, n). */
  lemma RemainderBelow(a: real, n: real, q: real)
    requires n > 0.0 && 0.0 <= a / n - q < 1.0
    ensures 0.0 <= a - n * q < n
  {
    var d := a / n - q;
    RemainderScales(a, n, q);
    ScaledUp(n, d);
    assert a - n * q == n * d;
    assert 0.0 <= n * d < n;
  }

  /** A quotient whose fraction above `q` lies in (-1, 0] leaves a remainder in (-n, 0]. */
  lemma RemainderAbove(a: real, n: real, q: real)
    requires n > 0.0 && -1.0 < a / n - q <= 0.0
    ensures -n < a - n * q <= 0.0
  {
    var d := a / n - q;
    RemainderScales(a, n, q);
    ScaledDown(n, d);
    assert a - n * q == n * d;
    assert -n < n * d <= 0.0;
  }

  /** What truncation leaves of a real: less than one in magnitude, with the real's sign. */
  lemma TruncFraction(t: real, q: int)
    requires q == Trunc(t)
    ensures -1.0 < t - q as real < 1.0
    ensures t >= 0.0 ==> 0.0 <= t - q as real
    ensures t < 0.0 ==> t - q as real <= 0.0
  {
    FloorBounds(t);
  }

  lemma QuotientSign(a: real, n: real)
    requires n > 0.0
    ensures a >= 0.0 <==> a / n >= 0.0
  {
  }

  lemma RemainderScales(a: real, n: real, q: real)
    requires n > 0.0
    ensures a - n * q == n * (a / n - q)
  {
  }

  /** Scaling a fraction in [0, 1) by `n` stays in [0, n). */
  lemma ScaledUp(n: real, d: real)
    requires n > 0.0 && 0.0 <= d < 1.0
    ensures 0.0 <= n * d < n
  {
  }

  /** Scaling a fraction in (-1, 0] by `n` stays in (-n, 0]. */
  lemma ScaledDown(n: real, d: real)
    requires n > 0.0 && -1.0 < d <= 0.0
    ensures -n < n * d <= 0.0
  {
  }

  /**
   The transcendental functions the plug-in calls from the C runtime. They are parameters of
   the model; `RootsNonNegative` and `LnNonNegativeFromOne` state the two facts about
   them that the colour pipelines rely on.
   */
  datatype MathLib = MathLib(sqrt: real -> real, cbrt: real -> real, ln: real -> real, exp: real -> real)

  /** sqrt and cbrt of a non-negative value are non-negative. */
  ghost predicate RootsNonNegative(m: MathLib) {
    && (forall v: real :: v >= 0.0 ==> m.sqrt(v) >= 0.0)
    && (forall v: real :: v >= 0.0 ==> m.cbrt(v) >= 0.0)
  }

  /** ln is non-negative from 1 upwards. */
  ghost predicate LnNonNegativeFromOne(m: MathLib) {
    forall v: real :: v >= 1.0 ==> m.ln(v) >= 0.0
  }
}
