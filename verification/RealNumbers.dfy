/** `RealNumber`: a 64-bit whole part and a numerator over 65536, in wrapping machine arithmetic. */
module RealNumbers {
  import opened Arithmetic

  const PRECISION := 65536
  const WORD := 0x1_0000_0000_0000_0000

  type U64 = n: int | 0 <= n < WORD

  function Wrap(n: nat): U64 {
    n % WORD
  }

  datatype RealNumber = RealNumber(whole: U64, numerator: nat)

  predicate Proper(r: RealNumber) {
    r.numerator < PRECISION
  }

  /** The number in units of 1/65536. */
  function Scaled(r: RealNumber): nat {
    r.whole * PRECISION + r.numerator
  }

  /** The constructor from a ratio. */
  function Ratio(a: U64, b: U64): (r: RealNumber)
    requires b > 0
  {
    RealNumber(a / b, Quotient(Wrap(a % b * PRECISION), b))
  }

  function TimesInt(r: RealNumber, k: U64): (res: RealNumber)
    ensures Proper(res)
  {
    var frac := Wrap(Product(k, r.numerator));
    RealNumber(Wrap(Wrap(Product(k, r.whole)) + frac / PRECISION), frac % PRECISION)
  }

  /** The cross terms of a product, before they wrap; the 32-bit product of the numerators is
      exact (NumeratorsFit). */
  function Cross(a: RealNumber, b: RealNumber): nat {
    Product(a.whole, b.numerator) + Product(b.whole, a.numerator)
    + Product(a.numerator, b.numerator) % 0x1_0000_0000 / PRECISION
  }

  function Times(a: RealNumber, b: RealNumber): (res: RealNumber)
    ensures Proper(res)
  {
    var frac := Wrap(Cross(a, b));
    RealNumber(Wrap(Wrap(Product(a.whole, b.whole)) + frac / PRECISION), frac % PRECISION)
  }

  function AsInt(r: RealNumber): U64 {
    Wrap(r.whole + r.numerator / PRECISION)
  }

  lemma Shift(x: nat, k: nat)
    ensures Product(x * PRECISION, k) == Product(x, k) * PRECISION
  {
  }

  // ---------------------------------------------------------------- the ratio

  lemma RatioIsProper(a: U64, b: U64)
    requires b > 0
    ensures Proper(Ratio(a, b))
  {
    hide Product, Quotient;
    var x := Wrap(a % b * PRECISION);
    DivBounds(x, b);
    Shift(1, b);
    Distribute(1, 0, b);
    MulMono(a % b + 1, b, 1);
    Cancel(Quotient(x, b), PRECISION, b);
  }

  /** A ratio is rounded down to a multiple of 1/65536, unless the remainder has 49 bits or
      more, when it comes out strictly smaller. */
  lemma RatioIsFloor(a: U64, b: U64)
    requires b > 0
    ensures Scaled(Ratio(a, b)) <= Quotient(a * PRECISION, b)
    ensures Scaled(Ratio(a, b)) == Quotient(a * PRECISION, b) <==> a % b * PRECISION < WORD
  {
    hide Product, Quotient;
    var x := a % b * PRECISION;
    DivMod(a, b);
    RatioInParts(a, b, a / b, a % b);
    if x >= WORD {
      WrappedQuotientIsSmaller(x, b);
    }
  }

  lemma RatioInParts(a: nat, b: nat, q: nat, rem: nat)
    requires b > 0 && a == Product(q, b) + rem && rem < b
    ensures Quotient(a * PRECISION, b) == q * PRECISION + Quotient(rem * PRECISION, b)
  {
    hide Product, Quotient;
    var part := Quotient(rem * PRECISION, b);
    DivBounds(rem * PRECISION, b);
    Distribute(q * PRECISION, part, b);
    Shift(q, b);
    DivIs(a * PRECISION, b, q * PRECISION + part);
  }

  lemma WrappedQuotientIsSmaller(x: nat, b: U64)
    requires b > 0 && x >= WORD
    ensures Quotient(Wrap(x), b) < Quotient(x, b)
  {
    hide Product, Quotient;
    DivBounds(x, b);
    DivBounds(Wrap(x), b);
    Cancel(Quotient(Wrap(x), b), Quotient(x, b), b);
  }

  // ---------------------------------------------------------------- products

  /** Two 16-bit numerators multiply within 32 bits. */
  lemma NumeratorsFit(a: RealNumber, b: RealNumber)
    requires Proper(a) && Proper(b)
    ensures Product(a.numerator, b.numerator) < 0x1_0000_0000
  {
    MulMono(a.numerator, 65535, b.numerator);
  }

  /** How both products are put together: `whole` wraps, and so does `frac` before it is split. */
  function Assemble(whole: nat, frac: nat): RealNumber {
    RealNumber(Wrap(Wrap(whole) + Wrap(frac) / PRECISION), Wrap(frac) % PRECISION)
  }

  /** Assembling gives whole + frac/65536 exactly when the cross terms fit a word and so does
      the whole part of the result. */
  lemma AssembledExactly(whole: nat, frac: nat)
    ensures Scaled(Assemble(whole, frac)) == whole * PRECISION + frac
            <==> frac < WORD && whole + frac / PRECISION < WORD
  {
    assert Wrap(frac) / PRECISION == frac / PRECISION - frac / WORD * (WORD / PRECISION);
    assert Wrap(frac) % PRECISION == frac % PRECISION;
  }

  lemma TimesIntIsProper(r: RealNumber, k: U64)
    ensures Proper(TimesInt(r, k))
    ensures AsInt(TimesInt(r, k)) == Scaled(TimesInt(r, k)) / PRECISION
  {
    hide Product, Scaled, AsInt;
    ProperTruncates(TimesInt(r, k));
  }

  lemma ProperTruncates(r: RealNumber)
    requires Proper(r)
    ensures AsInt(r) == Scaled(r) / PRECISION
  {
  }

  /** As an integer the number is truncated, proper or not, and wraps. */
  lemma AsIntTruncates(r: RealNumber)
    ensures AsInt(r) == Wrap(Scaled(r) / PRECISION)
  {
  }

  /** Multiplying by an integer is exact, given the room. */
  lemma IntProductIsExact(r: RealNumber, k: U64)
    ensures Scaled(TimesInt(r, k)) == Product(Scaled(r), k)
            <==> Product(k, r.numerator) < WORD && Product(k, r.whole) + Product(k, r.numerator) / PRECISION < WORD
  {
    hide Product;
    AssembledExactly(Product(k, r.whole), Product(k, r.numerator));
    Distribute(r.whole * PRECISION, r.numerator, k);
    Shift(r.whole, k);
    Distribute(r.whole, 0, k);
    Distribute(r.numerator, 0, k);
  }

  /** The product of two numbers is the true product rounded down to a multiple of 1/65536,
      given the room: too small by less than 1/65536. */
  lemma ProductIsFloor(a: RealNumber, b: RealNumber)
    requires Proper(a) && Proper(b)
    ensures Scaled(Times(a, b)) == Product(Scaled(a), Scaled(b)) / PRECISION
            <==> Cross(a, b) < WORD && Product(a.whole, b.whole) + Cross(a, b) / PRECISION < WORD
  {
    hide Product, Wrap;
    NumeratorsFit(a, b);
    AssembledExactly(Product(a.whole, b.whole), Cross(a, b));
    ProductInParts(a.whole, a.numerator, b.whole, b.numerator);
    assert Times(a, b) == Assemble(Product(a.whole, b.whole), Cross(a, b));
  }

  lemma ProductInParts(w: nat, n: nat, x: nat, m: nat)
    ensures Product(w * PRECISION + n, x * PRECISION + m) / PRECISION
            == Product(w, x) * PRECISION + Product(w, m) + Product(x, n) + Product(n, m) / PRECISION
  {
    hide Product;
    var y := x * PRECISION + m;
    Distribute(w * PRECISION, n, y);
    Shift(w, y);
    Distribute(y, 0, w);
    Distribute(y, 0, n);
    Distribute(x * PRECISION, m, w);
    Distribute(x * PRECISION, m, n);
    Shift(x, w);
    Shift(x, n);
    Distribute(w, 0, x);
    Distribute(w, 0, m);
    Distribute(n, 0, m);
  }

  // ---------------------------------------------------------------- scaling by a ratio

  /** (a/b)*k, truncated, is never above floor(a*k/b) and below it by at most ceil(k/65536). */
  lemma ScalingByRatio(a: U64, b: U64, k: U64)
    requires b > 0 && a % b * PRECISION < WORD
    requires Product(k, Ratio(a, b).numerator) < WORD
    requires Product(k, Ratio(a, b).whole) + Product(k, Ratio(a, b).numerator) / PRECISION < WORD
    ensures var scaled := AsInt(TimesInt(Ratio(a, b), k)); var exact := Quotient(Product(a, k), b);
            exact - (k + PRECISION - 1) / PRECISION <= scaled <= exact
  {
    hide Ratio, TimesInt, Product, Quotient;
    RatioIsFloor(a, b);
    var r := Ratio(a, b);
    IntProductIsExact(r, k);
    DivBounds(a * PRECISION, b);
    FloorsAreClose(a, b, k, Scaled(r));
    TimesIntIsProper(r, k);
  }

  lemma FloorsAreClose(a: nat, b: nat, k: nat, s: nat)
    requires b > 0 && Product(s, b) <= a * PRECISION < Product(s, b) + b
    ensures Quotient(Product(a, k), b) - (k + PRECISION - 1) / PRECISION
            <= Product(s, k) / PRECISION <= Quotient(Product(a, k), b)
  {
    hide Product, Quotient;
    MulMono(Product(s, b), a * PRECISION, k);
    MulMono(a * PRECISION, Product(s, b) + b, k);
    Distribute(Product(s, b), b, k);
    Distribute(b, 0, k);
    Associate(s, b, k);
    Shift(a, k);
    FloorIsNotAbove(Product(s, k), Product(a, k), b);
    FloorIsNotFarBelow(Product(s, k), Product(a, k), b, k);
  }

  lemma FloorIsNotAbove(sk: nat, ak: nat, b: nat)
    requires b > 0 && Product(sk, b) <= ak * PRECISION
    ensures sk / PRECISION <= Quotient(ak, b)
  {
    hide Product, Quotient;
    var t, u := sk / PRECISION, Quotient(ak, b);
    DivBounds(ak, b);
    MulMono(t * PRECISION, sk, b);
    Shift(t, b);
    Distribute(u, 1, b);
    Cancel(t, u + 1, b);
  }

  lemma FloorIsNotFarBelow(sk: nat, ak: nat, b: nat, k: nat)
    requires b > 0 && ak * PRECISION <= Product(sk, b) + Product(k, b)
    ensures Quotient(ak, b) <= sk / PRECISION + (k + PRECISION - 1) / PRECISION
  {
    hide Product, Quotient;
    var t, u, c := sk / PRECISION, Quotient(ak, b), (k + PRECISION - 1) / PRECISION;
    DivBounds(ak, b);
    MulMono(sk + 1, (t + 1) * PRECISION, b);
    Distribute(sk, 1, b);
    Shift(t + 1, b);
    MulMono(k, c * PRECISION, b);
    Shift(c, b);
    Distribute(t, 1, b);
    Distribute(t + c, 1, b);
    Distribute(t, c, b);
    Cancel(u, t + c + 1, b);
  }

  // ---------------------------------------------------------------- when a word wraps

  const HALF := 0x8000_0000_0000_0000

  /** 2^48 over 2^49 is a half, and comes out as zero. */
  lemma RatioWraps()
    ensures Scaled(Ratio(0x1_0000_0000_0000, 0x2_0000_0000_0000)) == 0
    ensures Quotient(0x1_0000_0000_0000 * PRECISION, 0x2_0000_0000_0000) == 32768
  {
  }

  /** 2/65536 times 2^63 is 2^48, and comes out as zero. */
  lemma TimesIntWraps()
    ensures Scaled(TimesInt(RealNumber(0, 2), HALF)) == 0
    ensures Product(Scaled(RealNumber(0, 2)), HALF) == WORD
  {
  }

  /** 2^63 times 2/65536 is 2^48, and comes out as zero. */
  lemma TimesWraps()
    ensures Scaled(Times(RealNumber(HALF, 0), RealNumber(0, 2))) == 0
    ensures Product(Scaled(RealNumber(HALF, 0)), Scaled(RealNumber(0, 2))) / PRECISION == WORD
  {
  }
}
