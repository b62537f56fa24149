/** Turning a refill rate into whole tokens per whole interval, in lowest terms. */
module RationalRefill {
  import opened Prelude

  const PRECISION: nat := 1_000_000

  datatype RefillError = RefillInvalid | RefillOutOfRange

  // ----- products

  lemma Assoc(a: int, b: int, c: int)
    ensures a * (b * c) == (a * b) * c
  {}

  lemma Distribute(a: int, b: int, c: int)
    ensures (a + b) * c == a * c + b * c
  {}

  lemma ProductSign(a: int, b: int)
    requires b >= 0
    ensures a <= 0 ==> a * b <= 0
    ensures a >= 1 ==> a * b >= b
  {
    if a >= 1 {
      Distribute(a - 1, 1, b);
      assert (a - 1) * b >= 0;
    }
  }

  // ----- divisibility

  /** `n` is `k` times `d`. */
  ghost predicate Multiple(d: nat, n: nat, k: nat) {
    n == k * d
  }

  ghost predicate Divides(d: nat, n: nat) {
    exists k: nat :: Multiple(d, n, k)
  }

  ghost predicate Common(d: nat, a: nat, b: nat) {
    Divides(d, a) && Divides(d, b)
  }

  /** A common divisor that every common divisor divides. */
  ghost predicate IsGcd(g: nat, a: nat, b: nat) {
    Common(g, a, b) && forall d: nat :: Common(d, a, b) ==> Divides(d, g)
  }

  lemma DividesSum(d: nat, a: nat, b: nat, q: nat)
    requires Divides(d, a) && Divides(d, b)
    ensures Divides(d, q * a + b)
  {
    var i: nat :| Multiple(d, a, i);
    var j: nat :| Multiple(d, b, j);
    Assoc(q, i, d);
    Distribute(q * i, j, d);
    assert Multiple(d, q * a + b, q * i + j);
  }

  lemma DividesDifference(d: nat, a: nat, b: nat, q: nat, sum: nat)
    requires Divides(d, a) && Divides(d, sum) && sum == q * a + b
    ensures Divides(d, b)
  {
    var i: nat :| Multiple(d, a, i);
    var j: nat :| Multiple(d, sum, j);
    Assoc(q, i, d);
    var k := j - q * i;
    Distribute(k, q * i, d);
    ProductSign(k, d);
    if k >= 0 {
      assert Multiple(d, b, k);
    } else {
      assert Multiple(d, b, 0);
    }
  }

  /** One step of Euclid's algorithm keeps the common divisors. */
  lemma EuclidStep(d: nat, a: nat, b: nat)
    requires b > 0
    ensures Common(d, a, b) <==> Common(d, b, a % b)
  {
    hide Divides;
    if Common(d, a, b) {
      DividesDifference(d, b, a % b, a / b, a);
    }
    if Common(d, b, a % b) {
      DividesSum(d, b, a % b, a / b);
    }
  }

  method GreatestCommonDivisor(a: nat, b: nat) returns (g: nat)
    ensures IsGcd(g, a, b)
    ensures a > 0 || b > 0 ==> g > 0
  {
    hide Common;
    var left, right := a, b;
    while right != 0
      invariant forall d: nat :: Common(d, left, right) <==> Common(d, a, b)
      invariant a > 0 || b > 0 ==> left > 0 || right > 0
      decreases right
    {
      forall d: nat ensures Common(d, left, right) <==> Common(d, right, left % right) {
        EuclidStep(d, left, right);
      }
      var remainder := left % right;
      left := right;
      right := remainder;
    }
    GcdOfZero(left);
    CommonOfZero(left);
    g := left;
  }

  lemma GcdOfZero(a: nat)
    ensures Common(a, a, 0)
  {
    assert Multiple(a, a, 1) && Multiple(a, 0, 0);
  }

  lemma CommonOfZero(a: nat)
    ensures forall d: nat :: Common(d, a, 0) ==> Divides(d, a)
  {}

  ghost predicate Coprime(a: nat, b: nat) {
    forall d: nat :: Common(d, a, b) ==> d == 1
  }

  lemma DividesTimes(d: nat, g: nat, n: nat)
    requires Divides(d, n)
    ensures Divides(d * g, n * g)
  {
    var k: nat :| Multiple(d, n, k);
    Assoc(k, d, g);
    assert Multiple(d * g, n * g, k);
  }

  lemma CancelUnit(d: nat, g: nat, k: nat)
    requires g > 0 && g == k * (d * g)
    ensures d == 1
  {
    Assoc(k, d, g);
    ProductSign(k * d, g);
    ProductSign(k * d - 1, g);
    Distribute(k * d - 1, 1, g);
    assert k * d == 1;
    ProductSign(k, d);
    ProductSign(d, k);
  }

  /** Dividing out the greatest common divisor leaves nothing in common. */
  lemma LowestTerms(a: nat, b: nat, g: nat, p: nat, q: nat)
    requires IsGcd(g, a, b) && g > 0 && a == p * g && b == q * g
    ensures Coprime(p, q)
  {
    forall d: nat | Common(d, p, q) ensures d == 1 {
      DividesTimes(d, g, p);
      DividesTimes(d, g, q);
      assert Common(d * g, a, b);
      var k: nat :| Multiple(d * g, g, k);
      CancelUnit(d, g, k);
    }
  }

  lemma ExactDivision(n: nat, g: nat)
    requires g > 0 && Divides(g, n)
    ensures n == (n / g) * g
  {
    var k: nat :| Multiple(g, n, k);
    var rest := k - n / g;
    Distribute(rest, n / g, g);
    assert rest * g == n % g;
    ProductSign(rest, g);
  }

  /** Round half away from zero, for positive numbers. */
  function Round(x: real): int {
    (x + 0.5).Floor
  }

  /** The scaled rate as a 64-bit integer; the conversion saturates. */
  function Numerator(rate: real): int {
    var n := Round(rate * PRECISION as real);
    if n > U64_MAX then U64_MAX else n
  }

  lemma Proportion(numerator: nat, g: nat, tokens: nat, parts: nat)
    requires numerator == tokens * g && PRECISION == parts * g
    ensures tokens * (1000 * PRECISION) == numerator * (1000 * parts)
  {
    Assoc(tokens, g, 1000 * parts);
    assert g * (1000 * parts) == 1000 * (parts * g);
  }

  /**
   For every rate: rejected exactly outside the supported range; otherwise `tokens` per
   `intervalMs` is the rate rounded to millionths, in lowest terms, and the interval fits.
   */
  method ComputeRefill(rate: real) returns (r: Result<(nat, nat), RefillError>)
    ensures rate <= 0.0 <==> r == Err(RefillInvalid)
    ensures rate > 0.0 ==>
      (r == Err(RefillOutOfRange) <==>
         rate * PRECISION as real < 1.0 || rate * PRECISION as real > (U64_MAX + 1) as real)
    ensures r.Ok? ==>
      var (tokens, intervalMs) := r.value;
      && Numerator(rate) >= 1
      && tokens > 0 && intervalMs > 0 && intervalMs % 1000 == 0 && intervalMs <= 1000 * PRECISION
      && tokens * (1000 * PRECISION) == Numerator(rate) * intervalMs
      && Coprime(tokens, intervalMs / 1000)
  {
    if rate <= 0.0 {
      return Err(RefillInvalid);
    }
    var scaled := rate * PRECISION as real;
    if scaled < 1.0 || scaled > (U64_MAX + 1) as real {
      return Err(RefillOutOfRange);
    }
    var numerator := Numerator(rate);
    assert numerator >= 1;
    var tokens, parts := Reduce(numerator);
    var intervalMs := 1000 * parts;
    if intervalMs > U64_MAX {
      return Err(RefillOutOfRange);
    }
    assert intervalMs / 1000 == parts;
    return Ok((tokens, intervalMs));
  }

  method Reduce(numerator: nat) returns (tokens: nat, parts: nat)
    requires numerator >= 1
    ensures tokens > 0 && 0 < parts <= PRECISION && Coprime(tokens, parts)
    ensures tokens * (1000 * PRECISION) == numerator * (1000 * parts)
  {
    hide IsGcd, Coprime, Divides;
    var divisor := GreatestCommonDivisor(numerator, PRECISION);
    tokens, parts := numerator / divisor, PRECISION / divisor;
    GcdDivides(divisor, numerator, PRECISION);
    ExactDivision(numerator, divisor);
    ExactDivision(PRECISION, divisor);
    LowestTerms(numerator, PRECISION, divisor, tokens, parts);
    Proportion(numerator, divisor, tokens, parts);
    NonZeroFactor(tokens, divisor);
    NonZeroFactor(parts, divisor);
    QuotientSmaller(parts, divisor);
  }

  lemma GcdDivides(g: nat, a: nat, b: nat)
    requires IsGcd(g, a, b)
    ensures Divides(g, a) && Divides(g, b)
  {}

  lemma NonZeroFactor(p: nat, g: nat)
    requires p * g > 0
    ensures p > 0
  {
    ProductSign(p, g);
  }

  lemma QuotientSmaller(p: nat, g: nat)
    requires g > 0
    ensures p <= p * g
  {
    ProductSign(g, p);
  }

  /** The numerator is the nearest millionth that 64 bits hold. */
  lemma NumeratorNearest(rate: real)
    requires rate > 0.0
    ensures var scaled := rate * PRECISION as real;
      if scaled < U64_MAX as real + 0.5 then -0.5 <= Numerator(rate) as real - scaled <= 0.5
      else Numerator(rate) == U64_MAX
  {}
}
