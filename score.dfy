/**
 * The engine's score: a centipawn evaluation held in an `i16`, or a
 * distance to mate in plies held in an `i8` whose sign says which side
 * mates (positive: the side to move). The order is the hand-written one of
 * the source, with its sentinel cases; centipawn addition saturates.
 *
 * Rust's unary minus on `i16`/`i8` is modelled with the wrap-around of a
 * release build: the negation of `i16::MIN` is `i16::MIN` again, and that of
 * `-128` is `-128`.
 */
module Scores {
  import opened Chess
  import Decimal
  import Utils

  const I16_MIN: int := -32768
  const I16_MAX: int := 32767
  const I8_MIN: int := -128
  const I8_MAX: int := 127

  type I16 = x: int | -32768 <= x <= 32767
  type I8 = x: int | -128 <= x <= 127

  datatype Score = Centipawn(cp: I16) | Mate(plies: I8)

  /** The result of a comparison, as Rust's `Ordering`. */
  datatype Ordering = Less | Equal | Greater

  /** Open window bounds: the largest and smallest centipawn scores. */
  const MAX: Score := Centipawn(32767)
  const MIN: Score := Centipawn(-32768)
  const ZERO: Score := Centipawn(0)

  // ---------------------------------------------------------------------
  // Predicates on one score

  predicate IsMin(s: Score)
  {
    s.Centipawn? && s.cp == I16_MIN
  }

  predicate IsMax(s: Score)
  {
    s.Centipawn? && s.cp == I16_MAX
  }

  predicate IsNegative(s: Score)
  {
    match s
    case Centipawn(v) => v < 0
    case Mate(v) => v < 0
  }

  /** Every score except `Mate(0)`, on which the order is not transitive. */
  predicate Ordered(s: Score)
  {
    s != Mate(0)
  }

  /**
   * An ordered score whose negation does not overflow: the scores on which
   * negation reverses the order.
   */
  predicate Proper(s: Score)
  {
    Ordered(s) && s != MIN && s != Mate(-128)
  }

  // ---------------------------------------------------------------------
  // Negation and the colour flip

  function WrapNeg16(v: I16): I16
  {
    if v == I16_MIN then v else -v
  }

  function WrapNeg8(v: I8): I8
  {
    if v == I8_MIN then v else -v
  }

  /** Negation of both variants (release-build wrap-around at the minimum). */
  function Neg(s: Score): (r: Score)
    ensures r.Centipawn? == s.Centipawn?
  {
    match s
    case Centipawn(v) => Centipawn(WrapNeg16(v))
    case Mate(v) => Mate(WrapNeg8(v))
  }

  /** The score seen from the given side: unchanged for White, negated for Black. */
  function ApplyColorFactor(s: Score, color: Color): (r: Score)
    ensures color == White ==> r == s
    ensures color == Black ==> r == Neg(s)
  {
    if color == Black then Neg(s) else s
  }

  /** Negation is an involution on every score, overflowing ones included. */
  lemma NegInvolution(s: Score)
    ensures Neg(Neg(s)) == s
  {
  }

  /** Negation keeps a score proper and flips the sign of a proper score. */
  lemma NegProper(s: Score)
    requires Proper(s)
    ensures Proper(Neg(s))
    ensures IsNegative(Neg(s)) <==> !IsNegative(s) && s != ZERO
  {
  }

  /** Negating `i16::MIN` or `Mate(-128)` overflows back to the same score. */
  lemma NegOverflows()
    ensures Neg(MIN) == MIN && Neg(Mate(-128)) == Mate(-128)
    ensures Lt(MIN, ZERO) && Lt(Neg(MIN), Neg(ZERO))
  {
  }

  /** Applying the same colour factor twice gives back the score. */
  lemma ApplyColorFactorTwice(s: Score, color: Color)
    ensures ApplyColorFactor(ApplyColorFactor(s, color), color) == s
  {
    NegInvolution(s);
  }

  // ---------------------------------------------------------------------
  // The order

  function IntCmp(a: int, b: int): (r: Ordering)
    ensures r == Less <==> a < b
    ensures r == Equal <==> a == b
    ensures r == Greater <==> a > b
  {
    if a < b then Less else if a == b then Equal else Greater
  }

  function Flip(o: Ordering): Ordering
  {
    match o
    case Less => Greater
    case Equal => Equal
    case Greater => Less
  }

  /** The source's `Ord::cmp`, case by case. */
  function Cmp(a: Score, b: Score): (r: Ordering)
    ensures r == Equal <==> a == b
  {
    match (a, b)
    case (Mate(x), Mate(y)) =>
      if x < 0 && y > 0 then Less
      else if x > 0 && y < 0 then Greater
      else IntCmp(y, x)
    case (Centipawn(x), Centipawn(y)) => IntCmp(x, y)
    case (Mate(_), Centipawn(_)) =>
      if IsMin(b) then Greater
      else if IsNegative(a) then Less
      else Greater
    case (Centipawn(_), Mate(_)) =>
      if IsMin(a) then Less
      else if IsNegative(b) then Greater
      else Less
  }

  predicate Lt(a: Score, b: Score) { Cmp(a, b) == Less }
  predicate Le(a: Score, b: Score) { Cmp(a, b) != Greater }
  predicate Gt(a: Score, b: Score) { Cmp(a, b) == Greater }
  predicate Ge(a: Score, b: Score) { Cmp(a, b) != Less }

  /** Rust's `Ord::max`: the second argument unless the first is greater. */
  function Max(a: Score, b: Score): (r: Score)
    ensures r == a || r == b
    ensures Le(a, r) && Le(b, r)
  {
    if Cmp(a, b) == Greater then a else b
  }

  /**
   * A reference order on integers: `i16::MIN` at the bottom, then the
   * losing mates (a later mate above a sooner one), then the other
   * centipawns in numeric order, then the winning mates (a sooner mate above
   * a later one); `Mate(0)` sits above every winning mate.
   */
  function Standing(s: Score): int
  {
    match s
    case Centipawn(v) => if v == I16_MIN then -70000 else v
    case Mate(n) => if n < 0 then -50000 - n else 50000 - n
  }

  /** `is_min` and `is_max` recognise the two sentinels, and `is_negative` the scores below zero. */
  lemma ScorePredicates(s: Score)
    ensures IsMin(s) <==> s == MIN
    ensures IsMax(s) <==> s == MAX
    ensures IsNegative(s) <==> Lt(s, ZERO)
  {
  }

  /** Distinct scores have distinct standings. */
  lemma StandingInjective(a: Score, b: Score)
    requires Standing(a) == Standing(b)
    ensures a == b
  {
  }

  /** On proper scores negation mirrors the standing. */
  lemma StandingOfNeg(s: Score)
    requires Proper(s)
    ensures Standing(Neg(s)) == -Standing(s)
  {
  }

  /**
   * The source's comparison agrees with the reference order everywhere
   * except between `Mate(0)` and a losing mate.
   */
  lemma CmpIsStandingOrder(a: Score, b: Score)
    requires !(a == Mate(0) && b.Mate? && b.plies < 0)
    requires !(b == Mate(0) && a.Mate? && a.plies < 0)
    ensures Cmp(a, b) == IntCmp(Standing(a), Standing(b))
  {
  }

  /** The comparison is antisymmetric on every pair of scores. */
  lemma CmpAntisymmetric(a: Score, b: Score)
    ensures Cmp(b, a) == Flip(Cmp(a, b))
  {
  }

  /** Without `Mate(0)` the order is transitive. */
  lemma CmpTransitive(a: Score, b: Score, c: Score)
    requires Ordered(a) && Ordered(b) && Ordered(c)
    requires Le(a, b) && Le(b, c)
    ensures Le(a, c)
    ensures Lt(a, b) || Lt(b, c) ==> Lt(a, c)
  {
    CmpIsStandingOrder(a, b);
    CmpIsStandingOrder(b, c);
    CmpIsStandingOrder(a, c);
  }

  /** `Mate(0)` closes a cycle, so the source's order is not transitive. */
  lemma MateZeroBreaksTransitivity()
    ensures Lt(Mate(-3), Centipawn(10)) && Lt(Centipawn(10), Mate(0)) && Lt(Mate(0), Mate(-3))
  {
  }

  /** The whole comparison, for ordered scores, is the reference order. */
  lemma OrderedCmpIsStanding()
    ensures forall a, b :: Ordered(a) && Ordered(b) ==> Cmp(a, b) == IntCmp(Standing(a), Standing(b))
  {
    forall a, b | Ordered(a) && Ordered(b)
      ensures Cmp(a, b) == IntCmp(Standing(a), Standing(b))
    {
      CmpIsStandingOrder(a, b);
    }
  }

  /** On ordered scores each comparison, and `max`, follow the reference order. */
  lemma Compare(a: Score, b: Score)
    requires Ordered(a) && Ordered(b)
    ensures Lt(a, b) <==> Standing(a) < Standing(b)
    ensures Le(a, b) <==> Standing(a) <= Standing(b)
    ensures Gt(a, b) <==> Standing(a) > Standing(b)
    ensures Ge(a, b) <==> Standing(a) >= Standing(b)
    ensures Max(a, b) == if Standing(a) > Standing(b) then a else b
  {
    CmpIsStandingOrder(a, b);
  }

  /** `MIN` is the bottom of the reference order; every proper score lies above it. */
  lemma StandingAboveMin(s: Score)
    ensures Standing(s) >= Standing(MIN)
    ensures Standing(s) == Standing(MIN) <==> s == MIN
    ensures Proper(s) ==> Standing(s) > Standing(MIN)
  {
  }

  /** On proper scores negation reverses the order. */
  lemma NegReversesOrder(a: Score, b: Score)
    requires Proper(a) && Proper(b)
    ensures Cmp(Neg(a), Neg(b)) == Cmp(b, a)
  {
    NegProper(a);
    NegProper(b);
    CmpIsStandingOrder(Neg(a), Neg(b));
    CmpIsStandingOrder(b, a);
  }

  /** Between two winning or two losing mates the order reverses the payloads. */
  lemma SameSignMatesReversed(x: I8, y: I8)
    requires (x > 0 && y > 0) || (x < 0 && y < 0)
    ensures Lt(Mate(x), Mate(y)) <==> y < x
  {
  }

  /**
   * A winning mate is above every centipawn score, `MAX` included; a losing
   * mate is below every centipawn score except `MIN`, which it is above.
   */
  lemma MateAgainstCentipawn(n: I8, v: I16)
    requires n != 0
    ensures n > 0 ==> Gt(Mate(n), Centipawn(v))
    ensures n < 0 && v != I16_MIN ==> Lt(Mate(n), Centipawn(v))
    ensures n < 0 && v == I16_MIN ==> Gt(Mate(n), Centipawn(v))
  {
  }

  /** Centipawn scores compare as their `i16` values. */
  lemma CentipawnOrder(x: I16, y: I16)
    ensures Cmp(Centipawn(x), Centipawn(y)) == IntCmp(x, y)
  {
  }

  /** The comparisons pinned down by the source's tests, each with its mirror image. */
  lemma OrderExamples()
    ensures Ge(Mate(2), Mate(2)) && Ge(Mate(2), Mate(3)) && Ge(Mate(2), Mate(-3))
    ensures Le(Mate(2), Mate(2)) && Le(Mate(3), Mate(2)) && Le(Mate(-3), Mate(2))
    ensures Ge(Mate(2), Centipawn(10)) && Ge(Mate(2), Centipawn(-10)) && Ge(Mate(2), MAX)
    ensures Le(Centipawn(10), Mate(2)) && Le(Centipawn(-10), Mate(2)) && Le(MAX, Mate(2))
    ensures Gt(Mate(-5), Mate(-3)) && Gt(Mate(-5), MIN)
    ensures Lt(Mate(-3), Mate(-5)) && Lt(MIN, Mate(-5))
    ensures Lt(Mate(-5), Centipawn(10)) && Lt(Mate(-5), Centipawn(-10))
    ensures Gt(Centipawn(10), Mate(-5)) && Gt(Centipawn(-10), Mate(-5))
    ensures Gt(Centipawn(10), Centipawn(9)) && Gt(Centipawn(10), Centipawn(-1))
    ensures Lt(Centipawn(9), Centipawn(10)) && Lt(Centipawn(-1), Centipawn(10))
    ensures Lt(Centipawn(-1), Centipawn(9)) && Lt(Centipawn(-1), Centipawn(0))
    ensures Gt(Centipawn(9), Centipawn(-1)) && Gt(Centipawn(0), Centipawn(-1))
  {
  }

  // ---------------------------------------------------------------------
  // Arithmetic

  function SaturatingAdd16(x: I16, y: I16): I16
  {
    if x + y > I16_MAX then I16_MAX else if x + y < I16_MIN then I16_MIN else x + y
  }

  /** A sum of two mates fits in an `i8` (the source does not guard it). */
  predicate AddDefined(a: Score, b: Score)
  {
    a.Mate? && b.Mate? ==> I8_MIN <= a.plies + b.plies <= I8_MAX
  }

  function Add(a: Score, b: Score): (r: Score)
    requires AddDefined(a, b)
    ensures r.Mate? <==> a.Mate? || b.Mate?
  {
    match (a, b)
    case (Mate(x), Mate(y)) => Mate(x + y)
    case (Mate(_), _) => a
    case (_, Mate(_)) => b
    case (Centipawn(x), Centipawn(y)) => Centipawn(SaturatingAdd16(x, y))
  }

  /** Subtraction is addition of the negation. */
  function Sub(a: Score, b: Score): (r: Score)
    requires AddDefined(a, Neg(b))
    ensures r.Mate? <==> a.Mate? || b.Mate?
  {
    Add(a, Neg(b))
  }

  /**
   * A centipawn difference is the exact difference clamped to the `i16`
   * range, except that subtracting `MIN` adds `MIN`, its wrapped negation.
   */
  lemma SubSaturates(x: I16, y: I16)
    ensures y != I16_MIN ==> Sub(Centipawn(x), Centipawn(y)) == Centipawn(Utils.Clamp(I16_MIN, x - y, I16_MAX))
    ensures Sub(Centipawn(x), MIN) == Add(Centipawn(x), MIN)
    ensures Sub(ZERO, MIN) == MIN
  {
  }

  lemma AddCommutative(a: Score, b: Score)
    requires AddDefined(a, b)
    ensures AddDefined(b, a) && Add(a, b) == Add(b, a)
  {
  }

  /** Centipawn addition is the exact sum clamped to the `i16` range. */
  lemma AddSaturates(x: I16, y: I16)
    ensures Add(Centipawn(x), Centipawn(y)) == Centipawn(Utils.Clamp(I16_MIN, x + y, I16_MAX))
  {
  }

  /** A mate absorbs a centipawn operand on either side. */
  lemma MateAbsorbsCentipawn(n: I8, v: I16)
    ensures Add(Mate(n), Centipawn(v)) == Mate(n)
    ensures Add(Centipawn(v), Mate(n)) == Mate(n)
  {
  }

  lemma AddExamples()
    ensures Add(Centipawn(1), Centipawn(2)) == Centipawn(3) == Add(Centipawn(2), Centipawn(1))
    ensures Sub(Centipawn(1), Centipawn(2)) == Centipawn(-1)
    ensures Neg(Sub(Centipawn(2), Centipawn(1))) == Centipawn(-1)
    ensures Add(Centipawn(1), Mate(3)) == Mate(3) == Add(Mate(3), Centipawn(1))
    ensures Add(MAX, MAX) == MAX && Add(MIN, MIN) == MIN
  {
  }

  function Abs(x: int): nat
  {
    if x < 0 then -x else x
  }

  lemma QuotientBound(m: nat, k: nat)
    requires k >= 1
    ensures m / k <= m
    ensures k >= 2 ==> 2 * (m / k) <= m
  {
    var q := m / k;
    assert q * k <= m;
    assert q * k == q + q * (k - 1);
    if k >= 2 {
      assert q * k == 2 * q + q * (k - 2);
    }
  }

  /**
   * Rust's integer division, which rounds toward zero: the remainder is
   * smaller than the divisor in magnitude and is zero or has the sign of
   * the dividend.
   */
  function TruncDiv(a: int, b: int): (q: int)
    requires b != 0
    ensures Abs(a - q * b) < Abs(b)
    ensures a - q * b == 0 || (a - q * b < 0) == (a < 0)
    ensures Abs(q) <= Abs(a)
    ensures Abs(b) >= 2 ==> 2 * Abs(q) <= Abs(a)
    ensures q > 0 ==> (a < 0) == (b < 0)
    ensures q < 0 ==> (a < 0) != (b < 0)
  {
    TruncDivFacts(a, b);
    var m := Abs(a) / Abs(b);
    if (a < 0) == (b < 0) then m else -m
  }

  /** The facts TruncDiv promises, for the quotient of the magnitudes signed by the operands. */
  lemma TruncDivFacts(a: int, b: int)
    requires b != 0
    ensures var m := Abs(a) / Abs(b);
      var q := if (a < 0) == (b < 0) then m else -m;
      Abs(a - q * b) < Abs(b) &&
      (a - q * b == 0 || (a - q * b < 0) == (a < 0)) &&
      Abs(q) <= Abs(a) &&
      (Abs(b) >= 2 ==> 2 * Abs(q) <= Abs(a)) &&
      (q > 0 ==> (a < 0) == (b < 0)) &&
      (q < 0 ==> (a < 0) != (b < 0))
  {
    QuotientBound(Abs(a), Abs(b));
    TruncRemainder(a, b, Abs(a) / Abs(b), Abs(a) % Abs(b));
  }

  /** The remainder of the division rounding toward zero, for each combination of signs. */
  lemma TruncRemainder(a: int, b: int, m: int, r: int)
    requires b != 0 && m >= 0 && Abs(a) == m * Abs(b) + r && 0 <= r < Abs(b)
    ensures var q: int := if (a < 0) == (b < 0) then m else -m;
      Abs(a - q * b) < Abs(b) && (a - q * b == 0 || (a - q * b < 0) == (a < 0))
  {
    var q: int := if (a < 0) == (b < 0) then m else -m;
    SignedProduct(q, b, m, Abs(b), (a < 0) == (b < 0));
  }

  /** The product of two signed magnitudes is the product of the magnitudes, signed. */
  lemma SignedProduct(q: int, b: int, m: int, bm: int, same: bool)
    requires m >= 0 && bm == Abs(b) && q == (if same then m else -m)
    ensures q * b == (if same == (b < 0) then -(m * bm) else m * bm)
  {
    if b < 0 {
      assert b == -bm;
      if same {
        assert q * b == m * (-bm) == -(m * bm);
      } else {
        assert q * b == (-m) * (-bm) == m * bm;
      }
    } else {
      assert b == bm;
      if !same {
        assert q * b == (-m) * bm == -(m * bm);
      }
    }
  }

  /** The divisor fits the variant's width and the quotient does not overflow. */
  predicate DivDefined(s: Score, d: I16)
  {
    d != 0 &&
    match s
    case Centipawn(v) => !(v == I16_MIN && d == -1)
    case Mate(v) => I8_MIN <= d <= I8_MAX && !(v == I8_MIN && d == -1)
  }

  /** Division by a scalar: of the ply count for a mate, rounding toward zero. */
  function Div(s: Score, d: I16): (r: Score)
    requires DivDefined(s, d)
    ensures r.Mate? == s.Mate?
  {
    match s
    case Mate(v) => Mate(TruncDiv(v, d))
    case Centipawn(v) => Centipawn(TruncDiv(v, d))
  }

  /** The scalar fits the variant's width and the product does not overflow. */
  predicate MulDefined(s: Score, k: I16)
  {
    match s
    case Centipawn(v) => I16_MIN <= v * k <= I16_MAX
    case Mate(v) => I8_MIN <= k <= I8_MAX && I8_MIN <= v * k <= I8_MAX
  }

  /** Multiplication by a scalar: of the ply count for a mate. */
  function Mul(s: Score, k: I16): (r: Score)
    requires MulDefined(s, k)
    ensures r.Mate? == s.Mate?
  {
    match s
    case Mate(v) => Mate(v * k)
    case Centipawn(v) => Centipawn(v * k)
  }

  /** Multiplying by -1 is negation wherever the product does not overflow. */
  lemma MulByMinusOne(s: Score)
    requires MulDefined(s, -1)
    ensures Mul(s, -1) == Neg(s)
  {
  }

  /** A nonzero multiple of k is at least k in magnitude. */
  lemma MultipleAtLeast(x: int, k: int)
    requires x != 0
    ensures Abs(x * k) >= Abs(k)
  {
    var xm, km := Abs(x), Abs(k);
    SignedProduct(x, k, xm, km, x >= 0);
    assert Abs(x * k) == xm * km;
    assert xm * km == km + (xm - 1) * km;
  }

  /** Dividing an exact multiple of k by k, rounding toward zero, gives back the factor. */
  lemma TruncDivExact(v: int, k: int)
    requires k != 0
    ensures TruncDiv(v * k, k) == v
  {
    RemainderUnique(v * k, k, TruncDiv(v * k, k), v);
  }

  /** A quotient whose remainder is smaller than the divisor is the exact factor of a multiple. */
  lemma RemainderUnique(a: int, b: int, q: int, v: int)
    requires b != 0 && a == v * b && Abs(a - q * b) < Abs(b)
    ensures q == v
  {
    var d := v - q;
    assert a - q * b == d * b;
    if d != 0 {
      MultipleAtLeast(d, b);
    }
  }

  /** Dividing by the factor undoes a multiplication that does not overflow. */
  lemma MulThenDiv(s: Score, k: I16)
    requires k != 0 && MulDefined(s, k)
    ensures DivDefined(Mul(s, k), k)
    ensures Div(Mul(s, k), k) == s
  {
    match s
    case Mate(v) => TruncDivExact(v, k);
    case Centipawn(v) => TruncDivExact(v, k);
  }

  /** Half of `MAX`, either way round, as the source's windows use it. */
  lemma HalfMax()
    ensures Div(MAX, 2) == Centipawn(16383)
    ensures Div(Neg(MAX), 2) == Centipawn(-16383)
  {
  }

  // ---------------------------------------------------------------------
  // Text

  /** The evaluation field the engine prints for a score. */
  function Display(s: Score): (r: string)
    ensures |r| > 6 && r[..6] == "score "
  {
    if IsMax(s) then "score upperbound"
    else if IsMin(s) then "score lowerbound"
    else match s
      case Centipawn(v) => "score cp " + Decimal.IntToString(v)
      case Mate(v) => "score mate " + Decimal.IntToString(v)
  }

  /** The sentinels print as bounds, other scores with their raw payload. */
  lemma DisplayCases(s: Score)
    ensures IsMax(s) ==> Display(s) == "score upperbound"
    ensures IsMin(s) ==> Display(s) == "score lowerbound"
    ensures s.Centipawn? && !IsMax(s) && !IsMin(s) ==> Display(s) == "score cp " + Decimal.IntToString(s.cp)
    ensures s.Mate? ==> Display(s) == "score mate " + Decimal.IntToString(s.plies)
  {
  }

  /** Different scores print differently. */
  lemma DisplayInjective(a: Score, b: Score)
    requires Display(a) == Display(b)
    ensures a == b
  {
    var da, db := Display(a), Display(b);
    assert da[6] == db[6];
    if a.Centipawn? && !IsMax(a) && !IsMin(a) {
      assert da[..9] == "score cp ";
      assert b.Centipawn? && !IsMax(b) && !IsMin(b);
      assert da[9..] == Decimal.IntToString(a.cp) && db[9..] == Decimal.IntToString(b.cp);
      Decimal.IntToStringInjective(a.cp, b.cp);
    } else if a.Mate? {
      assert b.Mate?;
      assert da[11..] == Decimal.IntToString(a.plies) && db[11..] == Decimal.IntToString(b.plies);
      Decimal.IntToStringInjective(a.plies, b.plies);
    }
  }
}
