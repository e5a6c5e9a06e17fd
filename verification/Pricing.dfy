/** Fixed-point prices and fractional amounts. Prices carry 24 fractional bits and 48
    bits in all; fractional amounts carry 10 fractional bits. */
module Pricing {

  const PRICE_ONE: nat := 0x100_0000
  const MAX_PRICE: nat := 0xFFFF_FFFF_FFFF
  const FRACTION_ONE: nat := 0x400
  const TWO_64: nat := 0x1_0000_0000_0000_0000
  const TWO_40: nat := 0x100_0000_0000

  // ---- fractional amounts ----

  function FromIntegral(n: nat): nat { n * FRACTION_ONE }

  function Floor(v: nat): nat { v / FRACTION_ONE }

  function Ceil(v: nat): nat {
    v / FRACTION_ONE + (if v % FRACTION_ONE != 0 then 1 else 0)
  }

  /** Rounding down and up, by what they must satisfy. */
  lemma RoundingExact(v: nat, n: nat)
    ensures n == Floor(v) <==> FromIntegral(n) <= v < FromIntegral(n + 1)
    ensures n == Ceil(v) <==> v <= FromIntegral(n) && (n > 0 ==> FromIntegral(n - 1) < v)
  {
  }

  function Pow2(n: nat): (p: nat)
    ensures p >= 1
  {
    if n == 0 then 1 else 2 * Pow2(n - 1)
  }

  /** The share of a value, rounded up. */
  function Tax(v: nat, share: nat): nat
    requires share >= 1
  {
    if v % share != 0 then v / share + 1 else v / share
  }

  /** Take off a tax of 2 to the minus rate, rounded up, and drop the fraction. */
  function TaxAndRound(v: nat, rate: nat): (r: nat)
    ensures r <= v
  {
    DivAtMost(v, Pow2(rate));
    (v - Tax(v, Pow2(rate))) / FRACTION_ONE
  }

  lemma DivAtMost(v: nat, d: nat)
    requires d >= 1
    ensures Tax(v, d) <= v
  {
    var q := v / d;
    assert v == q * d + v % d;
    MulAtLeast(q, d);
  }

  lemma MulAtLeast(q: nat, d: nat)
    requires d >= 1
    ensures q * d >= q
  {
    if d > 1 {
      MulAtLeast(q, d - 1);
      assert q * d == q * (d - 1) + q;
    }
  }

  // ---- exact products and quotients ----

  /** Divide first, then multiply, then add the part the division dropped. */
  function WideMultiply(value: nat, a: nat, b: nat): nat
    requires b > 0
  {
    (value / b) * a + ((value % b) * a) / b
  }

  lemma Distribute(a: nat, b: nat, c: nat)
    ensures (a + b) * c == a * c + b * c
  {
  }

  lemma Swap(a: nat, b: nat, c: nat)
    ensures (a * b) * c == (a * c) * b == a * (b * c)
  {
  }

  lemma MulLess(a: nat, b: nat, d: nat)
    requires a < b && d > 0
    ensures a * d + d <= b * d
  {
    MulAtLeast(d, b - a);
    Distribute(a, b - a, d);
  }

  function Div(x: nat, d: nat): nat
    requires d > 0
  {
    x / d
  }

  lemma DivBounds(x: nat, d: nat)
    requires d > 0
    ensures Div(x, d) * d <= x < Div(x, d) * d + d
  {
  }

  /** The quotient of x by d is the one number whose multiple reaches within d of x. */
  lemma QuotientIs(x: nat, d: nat, q: nat)
    requires d > 0 && q * d <= x < q * d + d
    ensures Div(x, d) == q
  {
    hide Div;
    var p := Div(x, d);
    DivBounds(x, d);
    if p < q { MulLess(p, q, d); }
    if q < p { MulLess(q, p, d); }
  }

  /** The split product is exact: it is the floor of value times a over b. */
  lemma WideMultiplyExact(value: nat, a: nat, b: nat)
    requires b > 0
    ensures WideMultiply(value, a, b) == Div(value * a, b)
  {
    SplitProduct(value / b, value % b, a, b);
    assert value == (value / b) * b + value % b;
  }

  lemma SplitProduct(q: nat, r: nat, a: nat, b: nat)
    requires b > 0
    ensures Div((q * b + r) * a, b) == q * a + Div(r * a, b)
  {
    hide Div;
    var ra, qa, s := r * a, q * a, Div(r * a, b);
    DivBounds(ra, b);
    Distribute(q * b, r, a);
    Swap(q, b, a);
    Distribute(qa, s, b);
    QuotientIs((q * b + r) * a, b, qa + s);
  }

  /** Dividing twice is dividing by the product. */
  lemma DivTwice(x: nat, b: nat, d: nat)
    requires b > 0 && d > 0
    ensures b * d > 0 && Div(Div(x, b), d) == Div(x, b * d)
  {
    hide Div;
    var p := Div(x, b);
    var q := Div(p, d);
    var qd := q * d;
    DivBounds(x, b);
    DivBounds(p, d);
    MulAtLeast(b, d);
    Swap(q, d, b);
    Swap(q, b, d);
    Distribute(qd, d, b);
    MulMono(qd, p, b);
    MulLess(p, qd + d, b);
    Commute(d, b);
    QuotientIs(x, b * d, q);
  }

  lemma Commute(a: nat, b: nat)
    ensures a * b == b * a
  {
  }

  /** The exchange rate used by the demand queries: shift up by 64, divide, shift down. */
  function ExchangeRate(sell: nat, buy: nat): nat
    requires buy > 0
  {
    ((sell * TWO_64) / buy / TWO_40) % TWO_64
  }

  /** The rate is the floor of the price ratio in price units exactly when that fits in 64
      bits, and never above it. */
  lemma ExchangeRateFloor(sell: nat, buy: nat)
    requires 0 < buy
    ensures ExchangeRate(sell, buy) == Div(sell * PRICE_ONE, buy) <==> sell < buy * TWO_40
    ensures ExchangeRate(sell, buy) <= Div(sell * PRICE_ONE, buy)
  {
    var x, q := sell * TWO_64, Div(sell * PRICE_ONE, buy);
    assert ExchangeRate(sell, buy) == Div(Div(x, buy), TWO_40) % TWO_64;
    RateQuotient(sell, buy);
    RateBound(sell, buy);
  }

  lemma RateQuotient(sell: nat, buy: nat)
    requires 0 < buy
    ensures Div(Div(sell * TWO_64, buy), TWO_40) == Div(sell * PRICE_ONE, buy)
  {
    hide Div;
    var x := sell * TWO_64;
    DivTwice(x, buy, TWO_40);
    DivTwice(x, TWO_40, buy);
    Commute(buy, TWO_40);
    assert x == (sell * PRICE_ONE) * TWO_40;
    QuotientIs(x, TWO_40, sell * PRICE_ONE);
  }

  lemma RateBound(sell: nat, buy: nat)
    requires 0 < buy
    ensures Div(sell * PRICE_ONE, buy) < TWO_64 <==> sell < buy * TWO_40
  {
    hide Div;
    var q := Div(sell * PRICE_ONE, buy);
    DivBounds(sell * PRICE_ONE, buy);
    if q >= TWO_64 {
      MulMono(TWO_64, q, buy);
    } else {
      MulLess(q, TWO_64, buy);
    }
  }

  lemma MulMono(a: nat, b: nat, d: nat)
    requires a <= b
    ensures a * d <= b * d
  {
    if a < b && d > 0 { MulLess(a, b, d); }
  }

  /** a over b is less than price c, without the division. */
  predicate RatioLess(a: nat, b: nat, c: nat) {
    a * PRICE_ONE < b * c
  }

  /** A limit price within the rounded-down rate is within the exact one. */
  lemma WithinRate(sell: nat, buy: nat, price: nat)
    requires 0 < buy && price <= ExchangeRate(sell, buy)
    ensures !RatioLess(sell, buy, price)
  {
    hide Div;
    ExchangeRateFloor(sell, buy);
    DivBounds(sell * PRICE_ONE, buy);
    MulMono(price, Div(sell * PRICE_ONE, buy), buy);
    Commute(price, buy);
  }

  // ---- what a trade is worth ----

  /** The exchanged value before tax is at least the limit price's worth, up to one unit of
      the value: sellers within the rate are not sold below their limit. */
  lemma LimitRespected(value: nat, sell: nat, buy: nat, price: nat)
    requires 0 < buy && price <= ExchangeRate(sell, buy)
    ensures value * price < (WideMultiply(value, sell, buy) + 1) * PRICE_ONE
  {
    hide Div, ExchangeRate, WideMultiply;
    WideMultiplyExact(value, sell, buy);
    ExchangeRateFloor(sell, buy);
    DivBounds(sell * PRICE_ONE, buy);
    DivBounds(value * sell, buy);
    var v, r := Div(value * sell, buy), Div(sell * PRICE_ONE, buy);
    MulMono(price, r, buy);
    LimitArithmetic(value, sell, buy, price, v);
  }

  lemma LimitArithmetic(value: nat, sell: nat, buy: nat, price: nat, v: nat)
    requires buy > 0 && price * buy <= sell * PRICE_ONE && value * sell < v * buy + buy
    ensures value * price < (v + 1) * PRICE_ONE
  {
    var x, y := value * price, (v + 1) * PRICE_ONE;
    Distribute(v, 1, buy);
    ProductOrder(value, price, buy, sell * PRICE_ONE);
    Swap(value, price, buy);
    assert (value * price) * buy <= value * (sell * PRICE_ONE) == (value * sell) * PRICE_ONE;
    assert (value * sell) * PRICE_ONE < ((v + 1) * buy) * PRICE_ONE;
    Swap(v + 1, buy, PRICE_ONE);
    if x >= y { MulMono(y, x, buy); }
  }

  lemma ProductOrder(value: nat, price: nat, buy: nat, top: nat)
    requires price * buy <= top
    ensures (value * price) * buy <= value * top
  {
    assert (value * price) * buy == value * (price * buy);
    MulMono(price * buy, top, value);
    Commute(value, price * buy);
    Commute(value, top);
  }

  /** After tax: what is left is within one unit of the value less its rounded-up share. */
  lemma TaxExact(v: nat, rate: nat)
    ensures var d := Pow2(rate);
      && Tax(v, d) <= v
      && (Tax(v, d) > 0 ==> (Tax(v, d) - 1) * d < v) && v <= Tax(v, d) * d
      && TaxAndRound(v, rate) * FRACTION_ONE <= v - Tax(v, d) < (TaxAndRound(v, rate) + 1) * FRACTION_ONE
  {
    var d := Pow2(rate);
    DivAtMost(v, d);
    TaxShare(v, d);
  }

  lemma TaxShare(v: nat, d: nat)
    requires d >= 1
    ensures Tax(v, d) > 0 ==> (Tax(v, d) - 1) * d < v
    ensures v <= Tax(v, d) * d
  {
    var q, r := v / d, v % d;
    assert v == q * d + r;
    Distribute(q, 1, d);
    if r == 0 && q > 0 { Distribute(q - 1, 1, d); }
  }
}
