/** What the demand query computes, offer by offer: an offer trades all of its amount up to the
    lower rate, nothing above the rate, and between them in proportion to how far the rate is
    above its limit. */
module DemandShares {
  import opened Clearing
  import opened Demand
  import opened Persistence
  import opened Pricing
  import opened Wrappers

  /** What one unit offered at a limit price trades, in parts of the price unit: its worth at the
      sell price up to the lower rate, nothing above the rate, and between them the part of its
      worth above the limit, scaled up by the smoothing. */
  function Share(sell: nat, buy: nat, smooth: nat, price: nat): int
    requires buy > 0
  {
    var (low, rate) := ExecutionPrices(sell, buy, smooth);
    if price <= low then sell * PRICE_ONE
    else if price <= rate then Times(sell * PRICE_ONE - Times(price, buy), Pow2(smooth))
    else 0
  }

  /** The shares of all offers below a key. */
  function Shares(b: Book, sell: nat, buy: nat, smooth: nat, k: Key): int
    requires buy > 0
  {
    if k == 0 then 0
    else
      Shares(b, sell, buy, smooth, k - 1) + Times(AmountAt(b, k - 1), Share(sell, buy, smooth, PriceOf(k - 1)))
  }

  // ---- the query is that sum ----

  lemma TimesSum(a: int, b: int, c: int)
    ensures Times(a + b, c) == Times(a, c) + Times(b, c)
  {
  }

  lemma TimesSwap(a: int, b: int, c: int)
    ensures Times(Times(a, b), c) == Times(a, Times(b, c)) == Times(Times(a, c), b)
  {
  }

  lemma {:induction false} SharesFull(b: Book, sell: nat, buy: nat, smooth: nat, k: Key)
    requires buy > 0 && k <= Past(ExecutionPrices(sell, buy, smooth).0)
    ensures Shares(b, sell, buy, smooth, k) == Times(EndowLt(b, k), sell * PRICE_ONE)
  {
    hide Times, ExchangeRate, Halved;
    if k == 0 {
      NoTimes(sell * PRICE_ONE);
    } else {
      SharesFull(b, sell, buy, smooth, k - 1);
      PastPrice(k - 1, ExecutionPrices(sell, buy, smooth).0);
      TimesSum(EndowLt(b, k - 1), AmountAt(b, k - 1), sell * PRICE_ONE);
    }
  }

  lemma NoTimes(x: int)
    ensures Times(0, x) == 0 == Times(x, 0)
  {
  }

  /** The part of a trie between two keys: how much it offers at what value, at these prices. */
  function Above(endow: int, value: int, sell: nat, buy: nat, power: nat): int {
    Times(Times(endow, sell * PRICE_ONE) - Times(value, buy), power)
  }

  lemma AboveMore(endow: int, value: int, a: int, price: nat, sell: nat, buy: nat, power: nat)
    ensures Above(endow + a, value + Times(a, price), sell, buy, power) ==
      Above(endow, value, sell, buy, power) + Times(a, Times(sell * PRICE_ONE - Times(price, buy), power))
  {
    hide Times;
    var x := sell * PRICE_ONE;
    TimesSum(endow, a, x);
    TimesSum(value, Times(a, price), buy);
    TimesSwap(a, price, buy);
    var y := Times(price, buy);
    TimesLess(a, x, y);
    TimesSwap(a, x - y, power);
    TimesSum(Times(endow, x) - Times(value, buy), Times(a, x - y), power);
  }

  lemma TimesLess(a: int, x: int, y: int)
    ensures Times(a, x - y) == Times(a, x) - Times(a, y)
  {
  }

  lemma {:induction false} SharesBetween(b: Book, sell: nat, buy: nat, smooth: nat, k: Key)
    requires buy > 0
    requires var (low, rate) := ExecutionPrices(sell, buy, smooth); Past(low) <= k <= Past(rate)
    ensures var s := Past(ExecutionPrices(sell, buy, smooth).0);
      Shares(b, sell, buy, smooth, k) ==
        Times(EndowLt(b, s), sell * PRICE_ONE) +
        Above(EndowLt(b, k) - EndowLt(b, s), ValueLt(b, k) - ValueLt(b, s), sell, buy, Pow2(smooth))
  {
    hide Times, ExchangeRate, Halved, Pow2, Above, Past, PriceOf, LowerPrice;
    var (low, rate) := ExecutionPrices(sell, buy, smooth);
    var s := Past(low);
    if k == s {
      SharesFull(b, sell, buy, smooth, k);
      NothingAbove(sell, buy, Pow2(smooth));
    } else {
      SharesBetween(b, sell, buy, smooth, k - 1);
      PastPrice(k - 1, low);
      PastPrice(k - 1, rate);
      AboveMore(EndowLt(b, k - 1) - EndowLt(b, s), ValueLt(b, k - 1) - ValueLt(b, s), AmountAt(b, k - 1),
                PriceOf(k - 1), sell, buy, Pow2(smooth));
    }
  }

  lemma NothingAbove(sell: nat, buy: nat, power: nat)
    ensures Above(0, 0, sell, buy, power) == 0
  {
  }

  lemma {:induction false} SharesNone(b: Book, sell: nat, buy: nat, smooth: nat, k: Key)
    requires buy > 0 && Past(ExecutionPrices(sell, buy, smooth).1) <= k
    ensures Shares(b, sell, buy, smooth, k) ==
      Shares(b, sell, buy, smooth, Past(ExecutionPrices(sell, buy, smooth).1))
  {
    hide Times, ExchangeRate, Halved;
    var (low, rate) := ExecutionPrices(sell, buy, smooth);
    if Past(rate) < k {
      SharesNone(b, sell, buy, smooth, k - 1);
      PastPrice(k - 1, rate);
      NoTimes(AmountAt(b, k - 1));
    }
  }

  /** The volume is the sum of the shares of all offers, rounded up by less than one unit before
      smoothing; without smoothing it is exact. */
  lemma VolumeIsShares(b: Book, sell: nat, buy: nat, smooth: nat, k: Key)
    requires buy > 0 && Past(ExchangeRate(sell, buy)) <= k
    ensures var x, v := Shares(b, sell, buy, smooth, k), ExactVolume(b, sell, buy, smooth);
      && x <= v * PRICE_ONE < x + PRICE_ONE * Pow2(smooth)
      && (smooth == 0 ==> x == v * PRICE_ONE)
  {
    hide Times, Pow2, Div, ExchangeRate, Halved, EndowLt, ValueLt;
    var (low, rate) := ExecutionPrices(sell, buy, smooth);
    PastMonotone(low, rate);
    TotalsMonotone(b, Past(low), Past(rate));
    SharesNone(b, sell, buy, smooth, k);
    SharesBetween(b, sell, buy, smooth, Past(rate));
    var full := EndowLt(b, Past(low));
    var e: nat, w: nat := EndowLt(b, Past(rate)) - full, ValueLt(b, Past(rate)) - ValueLt(b, Past(low));
    TimesUnits(sell, full);
    TimesSwap(full, sell, 1);
    TradeRounds(sell, buy, full, e, w, Pow2(smooth));
    if smooth == 0 { NothingAbove(sell, buy, Pow2(smooth)); }
  }

  /** The trade, scaled by the price unit, and the exact value it rounds. */
  lemma TradeRounds(sell: nat, buy: nat, full: nat, e: nat, w: nat, power: nat)
    requires power > 0
    ensures Times(full, sell) * PRICE_ONE == Times(full, sell * PRICE_ONE)
    ensures var part := Times(Times(sell, e) - Div(Times(w, buy), PRICE_ONE), power) * PRICE_ONE;
      Above(e, w, sell, buy, power) <= part < Above(e, w, sell, buy, power) + PRICE_ONE * power
  {
    hide Times, Div;
    TimesUnits(sell, full);
    TimesUnits(sell, e);
    TimesCommute(full, sell);
    var z := Times(w, buy);
    DivBounds(z, PRICE_ONE);
    RoundedPart(Times(sell, e), z, Div(z, PRICE_ONE), power);
  }

  lemma TimesCommute(a: int, b: int)
    ensures Times(a, b) == Times(b, a)
  {
  }

  lemma RoundedPart(x: int, z: nat, f: nat, power: nat)
    requires power > 0 && f * PRICE_ONE <= z < f * PRICE_ONE + PRICE_ONE
    ensures var part := Times(x - f, power) * PRICE_ONE;
      Times(x * PRICE_ONE - z, power) <= part < Times(x * PRICE_ONE - z, power) + PRICE_ONE * power
  {
    var gap: nat := z - f * PRICE_ONE;
    assert (x - f) * power * PRICE_ONE == ((x - f) * PRICE_ONE) * power;
    assert (x - f) * PRICE_ONE == (x * PRICE_ONE - z) + gap;
    assert ((x * PRICE_ONE - z) + gap) * power == (x * PRICE_ONE - z) * power + gap * power;
    MulLess(gap, PRICE_ONE, power);
  }

  // ---- the shares ----

  lemma {:induction false} HalvedBounds(x: nat, n: nat)
    ensures var h := Halved(x, n); h * Pow2(n) <= x < (h + 1) * Pow2(n)
  {
    if n > 0 {
      HalvedBounds(x, n - 1);
      var g, h, w := Halved(x, n - 1), Halved(x, n), Pow2(n - 1);
      assert 2 * h <= g <= 2 * h + 1 && Pow2(n) == 2 * w;
      MulMono(2 * h, g, w);
      MulMono(g + 1, 2 * h + 2, w);
      Swap(h, 2, w);
      Swap(h + 1, 2, w);
    }
  }

  /** The rate in the terms of the two prices, when it fits in 64 bits. */
  lemma RateBounds(sell: nat, buy: nat)
    requires 0 < buy && sell < buy * TWO_40
    ensures var rate := ExchangeRate(sell, buy); rate * buy <= sell * PRICE_ONE < rate * buy + buy
  {
    hide ExchangeRate, Div;
    ExchangeRateFloor(sell, buy);
    DivBounds(sell * PRICE_ONE, buy);
  }

  /** An offer between the two rates, h below the rate the lower one: its share of its worth is the
      distance of the rate to its limit over h, up to one unit of distance and one of the buy
      price; it is at least zero, and never more than all. */
  lemma ShareBetween(sell: nat, buy: nat, smooth: nat, price: nat)
    requires 0 < buy && sell < buy * TWO_40
    requires var (low, rate) := ExecutionPrices(sell, buy, smooth); low < price <= rate
    ensures var rate, h, s := ExchangeRate(sell, buy), Halved(ExchangeRate(sell, buy), smooth),
                              Share(sell, buy, smooth, price);
      && 0 <= s <= sell * PRICE_ONE
      && s * h <= (sell * PRICE_ONE) * (rate - price + 1)
      && (rate - price) * (sell * PRICE_ONE - buy) <= s * (h + 1)
  {
    hide ExchangeRate, Halved, Pow2;
    var rate := ExchangeRate(sell, buy);
    RateBounds(sell, buy);
    HalvedBounds(rate, smooth);
    ShareArithmetic(sell * PRICE_ONE, buy, rate, Halved(rate, smooth), Pow2(smooth), price);
  }

  lemma ShareArithmetic(x: nat, buy: nat, rate: nat, h: nat, power: nat, price: nat)
    requires 0 < buy && 0 < power && rate * buy <= x < rate * buy + buy
    requires h * power <= rate < (h + 1) * power && h <= rate && rate - h < price <= rate
    ensures var s := (x - price * buy) * power;
      && 0 <= s <= x
      && s * h <= x * (rate - price + 1)
      && (rate - price) * (x - buy) <= s * (h + 1)
  {
    MulMono(price, rate, buy);
    var y: nat, d: nat := x - price * buy, rate - price;
    assert y >= d * buy by { assert d * buy == rate * buy - price * buy; }
    AtMostAll(x, buy, rate, h, power, price, y);
    UpperShare(x, buy, rate, h, power, price, y);
    LowerShare(x, buy, rate, h, power, d, y);
  }

  lemma AtMostAll(x: nat, buy: nat, rate: nat, h: nat, power: nat, price: nat, y: nat)
    requires rate * buy <= x < rate * buy + buy && h * power <= rate && h <= rate
    requires rate - h < price <= rate && y == x - price * buy
    ensures y * power <= x
  {
    MulMono(rate - h + 1, price, buy);
    assert (rate - h + 1) * buy == rate * buy - h * buy + buy;
    assert y <= h * buy;
    MulMono(y, h * buy, power);
    Swap(h, buy, power);
    MulMono(h * power, rate, buy);
  }

  lemma UpperShare(x: nat, buy: nat, rate: nat, h: nat, power: nat, price: nat, y: nat)
    requires rate * buy <= x < rate * buy + buy && h * power <= rate && price <= rate && y == x - price * buy
    ensures (y * power) * h <= x * (rate - price + 1)
  {
    Swap(y, power, h);
    Commute(power, h);
    MulMono(h * power, rate, y);
    Commute(y, h * power);
    Commute(y, rate);
    assert (y * power) * h <= y * rate;
    var gap: nat := x - rate * buy;
    assert y * rate == x * rate - (price * buy) * rate;
    assert (price * buy) * rate == price * (rate * buy) by { Swap(price, buy, rate); Commute(buy, rate); }
    assert price * (rate * buy) == price * x - price * gap by { TimesLess(price, x, gap); }
    MulMono(gap, buy, price);
    Commute(gap, price);
    Commute(buy, price);
    MulMono(price, rate, buy);
    assert x * (rate - price + 1) == x * rate - x * price + x;
    Commute(price, x);
  }

  lemma LowerShare(x: nat, buy: nat, rate: nat, h: nat, power: nat, d: nat, y: nat)
    requires x < rate * buy + buy && rate < (h + 1) * power && y >= d * buy
    ensures d * (x - buy) <= (y * power) * (h + 1)
  {
    Swap(y, power, h + 1);
    Commute(power, h + 1);
    MulMono(rate, (h + 1) * power, y);
    Commute(y, rate);
    Commute(y, (h + 1) * power);
    assert y * rate <= (y * power) * (h + 1);
    MulMono(d * buy, y, rate);
    Swap(d, buy, rate);
    Commute(buy, rate);
    assert d * (rate * buy) <= y * rate;
    var least := x - buy;
    if least > 0 {
      MulMono(least, rate * buy, d);
      Commute(least, d);
      Commute(rate * buy, d);
    } else {
      assert d * least <= 0;
    }
  }

  /** The share does not grow with the limit: one unit up to the lower rate, none above the rate. */
  lemma ShareMonotone(sell: nat, buy: nat, smooth: nat, p: nat, q: nat)
    requires 0 < buy && sell < buy * TWO_40 && p <= q
    ensures Share(sell, buy, smooth, q) <= Share(sell, buy, smooth, p)
  {
    hide ExchangeRate, Halved, Pow2;
    var (low, rate) := ExecutionPrices(sell, buy, smooth);
    if low < p && q <= rate {
      MulMono(p, q, buy);
      LessTimes(sell * PRICE_ONE - q * buy, sell * PRICE_ONE - p * buy, Pow2(smooth));
    } else if low < q <= rate {
      ShareBetween(sell, buy, smooth, q);
    } else if low < p <= rate {
      ShareBetween(sell, buy, smooth, p);
    }
  }

  lemma LessTimes(a: int, b: int, power: nat)
    requires a <= b
    ensures Times(a, power) <= Times(b, power)
  {
    assert (b - a) * power >= 0;
  }
}
