/** What sellers are paid, from offer, prices and tax: each payment is one determined integer, it
    is worth at least the offer's limit up to tax and stated rounding, it goes to the offer's
    owner, and a block pays out its taxed supply up to a bounded rounding per offer. */
module Payouts {
  import opened BlockClearing
  import opened Clearing
  import opened OfferCategories
  import opened Orderbook
  import opened Persistence
  import opened Pricing

  // ---- one payment ----

  /** The payment p for a value v, by what it must satisfy: w is the whole part of v times sell
      over buy, t the share of w that is taxed, rounded up, and p the whole units of the rest. */
  ghost predicate PaysBy(r: Rates, v: nat, p: nat, w: nat, t: nat) {
    && w * r.buy <= v * r.sell < w * r.buy + r.buy
    && (t > 0 ==> (t - 1) * Pow2(r.taxRate) < w) && w <= t * Pow2(r.taxRate)
    && p * FRACTION_ONE <= w - t < (p + 1) * FRACTION_ONE
  }

  ghost predicate IsPayment(r: Rates, v: nat, p: nat) {
    exists w, t :: PaysBy(r, v, p, w, t)
  }

  lemma PaymentFits(r: Rates, v: nat)
    requires r.buy > 0
    ensures var w := WideMultiply(v, r.sell, r.buy);
      PaysBy(r, v, PartialPay(r, v), w, Tax(w, Pow2(r.taxRate)))
  {
    hide WideMultiply, TaxAndRound, Tax, Div;
    var w := WideMultiply(v, r.sell, r.buy);
    WideMultiplyExact(v, r.sell, r.buy);
    DivBounds(v * r.sell, r.buy);
    TaxExact(w, r.taxRate);
  }

  lemma OneShare(w: nat, d: nat, t: nat, u: nat)
    requires d > 0
    requires (t > 0 ==> (t - 1) * d < w) && w <= t * d
    requires (u > 0 ==> (u - 1) * d < w) && w <= u * d
    ensures t == u
  {
    if t < u { MulMono(t, u - 1, d); }
    if u < t { MulMono(u, t - 1, d); }
  }

  lemma OnePayment(r: Rates, v: nat, p: nat, w: nat, t: nat, p': nat, w': nat, t': nat)
    requires r.buy > 0 && PaysBy(r, v, p, w, t) && PaysBy(r, v, p', w', t')
    ensures p == p'
  {
    hide Div;
    QuotientIs(v * r.sell, r.buy, w);
    QuotientIs(v * r.sell, r.buy, w');
    OneShare(w, Pow2(r.taxRate), t, t');
  }

  /** What a seller is paid for a fractional amount is that one integer. */
  lemma PartialPayExact(r: Rates, v: nat, p: nat)
    requires r.buy > 0
    ensures p == PartialPay(r, v) <==> IsPayment(r, v, p)
  {
    hide PartialPay, PaysBy;
    PaymentFits(r, v);
    if IsPayment(r, v, p) {
      var w, t :| PaysBy(r, v, p, w, t);
      var w' := WideMultiply(v, r.sell, r.buy);
      OnePayment(r, v, p, w, t, PartialPay(r, v), w', Tax(w', Pow2(r.taxRate)));
    }
  }

  /** And for a whole amount. */
  lemma FullPayExact(r: Rates, amount: nat, p: nat)
    requires r.buy > 0
    ensures p == FullPay(r, amount) <==> IsPayment(r, amount * FRACTION_ONE, p)
  {
    hide PartialPay, FullPay, IsPayment;
    FullIsPart(r, amount);
    PartialPayExact(r, FromIntegral(amount), p);
  }

  // ---- in closed form ----

  lemma TaxedRest(w: nat, t: nat, d: nat)
    requires d > 0 && w <= t * d && t <= w && (t > 0 ==> (t - 1) * d < w)
    ensures (w - t) * d <= w * (d - 1) && w * (d - 1) <= (w - t) * d + (d - 1)
  {
    assert (w - t) * d == w * d - t * d;
    assert w * (d - 1) == w * d - w;
    if t > 0 { assert (t - 1) * d == t * d - d; }
  }

  lemma ScaleUp(a: nat, b: nat, c: nat)
    requires a <= b
    ensures a * c <= b * c
  {
    MulMono(a, b, c);
  }

  /** The payment lies between the taxed value and that less one unit and the rounding: w is the
      value before tax, e is d less one. */
  lemma PaymentBounds(vs: nat, buy: nat, d: nat, e: nat, w: nat, t: nat, p: nat)
    requires buy > 0 && d == e + 1
    requires w * buy <= vs < w * buy + buy && t <= w
    requires (w - t) * d <= w * e && w * e <= (w - t) * d + e
    requires p * FRACTION_ONE <= w - t < (p + 1) * FRACTION_ONE
    ensures (p * FRACTION_ONE * d) * buy <= vs * e
    ensures vs * e < (((p + 1) * FRACTION_ONE + 1) * d) * buy
  {
    var low, high := p * FRACTION_ONE, (p + 1) * FRACTION_ONE;
    ScaleUp(low, w - t, d);
    ScaleUp(low * d, w * e, buy);
    Swap(w, e, buy);
    ScaleUp(w * buy, vs, e);
    assert (low * d) * buy <= (w * e) * buy == (w * buy) * e <= vs * e;
    ScaleUp(w - t, high - 1, d);
    assert (high - 1) * d == high * d - d;
    assert (w + 1) * e == w * e + e;
    assert (w + 1) * e <= high * d - d + e + e <= (high + 1) * d - 2;
    ScaleUp(vs, (w + 1) * buy - 1, e) by { assert (w + 1) * buy == w * buy + buy; }
    Swap(w + 1, buy, e);
    ScaleUp((w + 1) * e, (high + 1) * d - 2, buy);
    LastStep(vs, buy, e, w, (high + 1) * d);
  }

  lemma LastStep(vs: nat, buy: nat, e: nat, w: nat, top: nat)
    requires buy > 0 && top >= 2
    requires vs * e <= ((w + 1) * buy - 1) * e && ((w + 1) * e) * buy <= (top - 2) * buy
    ensures vs * e < top * buy
  {
    assert ((w + 1) * buy - 1) * e == ((w + 1) * buy) * e - e;
    Swap(w + 1, buy, e);
    assert (top - 2) * buy == top * buy - 2 * buy;
  }

  /** What is paid for a value, between the exact taxed worth and one unit and the rounding below. */
  lemma PayWithin(r: Rates, v: nat)
    requires r.buy > 0
    ensures var p, d := PartialPay(r, v), Pow2(r.taxRate);
      && (p * FRACTION_ONE * d) * r.buy <= (v * r.sell) * (d - 1)
      && (v * r.sell) * (d - 1) < (((p + 1) * FRACTION_ONE + 1) * d) * r.buy
  {
    hide PartialPay, WideMultiply, Tax;
    PaymentFits(r, v);
    var d := Pow2(r.taxRate);
    var w := WideMultiply(v, r.sell, r.buy);
    var t := Tax(w, d);
    DivAtMost(w, d);
    TaxedRest(w, t, d);
    PaymentBounds(v * r.sell, r.buy, d, d - 1, w, t, PartialPay(r, v));
  }

  /** An offer within the rate is paid at least its limit's worth after tax, up to one unit and the
      rounding. */
  lemma SellerProtected(r: Rates, v: nat, price: nat)
    requires r.buy > 0 && !RatioLess(r.sell, r.buy, price)
    ensures var p, d := PartialPay(r, v), Pow2(r.taxRate);
      (v * price) * (d - 1) < (((p + 1) * FRACTION_ONE + 1) * d) * PRICE_ONE
  {
    hide PartialPay;
    PayWithin(r, v);
    var p, d := PartialPay(r, v), Pow2(r.taxRate);
    LimitWorth(v, price, r.sell, r.buy, d - 1, ((p + 1) * FRACTION_ONE + 1) * d);
  }

  lemma LimitWorth(v: nat, price: nat, sell: nat, buy: nat, e: nat, top: nat)
    requires buy > 0 && price * buy <= sell * PRICE_ONE && (v * sell) * e < top * buy
    ensures (v * price) * e < top * PRICE_ONE
  {
    var x, y := (v * price) * e, top * PRICE_ONE;
    var k := v * e;
    assert x == k * price && (v * sell) * e == k * sell by {
      Swap(v, price, e);
      Swap(v, sell, e);
    }
    ScaleUp(price * buy, sell * PRICE_ONE, k);
    assert x * buy == (k * price) * buy == (price * buy) * k by { Swap(k, price, buy); Commute(k, price * buy); }
    assert (sell * PRICE_ONE) * k == (k * sell) * PRICE_ONE by { Commute(k, sell); Swap(sell, PRICE_ONE, k); }
    assert (k * sell) * PRICE_ONE < (top * buy) * PRICE_ONE;
    assert (top * buy) * PRICE_ONE == y * buy by { Swap(top, buy, PRICE_ONE); }
    if y <= x { ScaleUp(y, x, buy); }
  }

  // ---- paying in parts loses a bounded rounding ----

  lemma FloorsFallShort(x: nat, y: nat, d: nat)
    requires d > 0
    ensures Div(x + y, d) <= Div(x, d) + Div(y, d) + 1
  {
    hide Div;
    DivBounds(x, d);
    DivBounds(y, d);
    DivBounds(x + y, d);
    var p, q := Div(x, d) + Div(y, d) + 2, Div(x + y, d);
    assert p * d == Div(x, d) * d + Div(y, d) * d + 2 * d;
    if p <= q { MulMono(p, q, d); }
  }

  lemma BoughtFallsShort(x: nat, y: nat, sell: nat, buy: nat)
    requires buy > 0
    ensures WideMultiply(x + y, sell, buy) <= WideMultiply(x, sell, buy) + WideMultiply(y, sell, buy) + 1
  {
    hide WideMultiply, Div;
    WideMultiplyExact(x, sell, buy);
    WideMultiplyExact(y, sell, buy);
    WideMultiplyExact(x + y, sell, buy);
    Distribute(x, y, sell);
    FloorsFallShort(x * sell, y * sell, buy);
  }

  lemma SharesAdd(x: nat, y: nat, z: nat, a: nat, b: nat, c: nat, d: nat)
    requires d > 0 && x + y <= z && z <= c * d
    requires (a > 0 ==> (a - 1) * d < x) && (b > 0 ==> (b - 1) * d < y)
    ensures a + b <= c + 1
  {
    if c + 2 <= a + b {
      if a > 0 && b > 0 {
        Distribute(a - 1, b - 1, d);
        MulMono(c, a + b - 2, d);
      } else {
        MulMono(c + 1, a + b - 1, d);
        Distribute(c, 1, d);
      }
    }
  }

  /** What tax leaves of two parts and one unit more is at most two units more than it leaves of
      each. */
  lemma RestFallsShort(x: nat, y: nat, more: nat, d: nat)
    requires d > 0 && more <= 1
    ensures Tax(x, d) <= x && Tax(y, d) <= y && Tax(x + y + more, d) <= x + y + more
    ensures (x + y + more) - Tax(x + y + more, d) <= (x - Tax(x, d)) + (y - Tax(y, d)) + 1 + more
  {
    hide Tax;
    var z := x + y + more;
    DivAtMost(x, d);
    DivAtMost(y, d);
    DivAtMost(z, d);
    TaxShare(x, d);
    TaxShare(y, d);
    TaxShare(z, d);
    SharesAdd(x, y, z, Tax(x, d), Tax(y, d), Tax(z, d), d);
  }

  lemma RoundFallsShort(x: nat, y: nat, more: nat, rate: nat)
    requires more <= 1
    ensures TaxAndRound(x + y + more, rate) <= TaxAndRound(x, rate) + TaxAndRound(y, rate) + 2
  {
    hide Tax;
    var d := Pow2(rate);
    RestFallsShort(x, y, more, d);
    var a, b, c := x - Tax(x, d), y - Tax(y, d), x + y + more - Tax(x + y + more, d);
    assert c / FRACTION_ONE <= a / FRACTION_ONE + b / FRACTION_ONE + 2;
  }

  lemma PayFallsShort(r: Rates, x: nat, y: nat)
    requires r.buy > 0
    ensures PartialPay(r, x + y) <= PartialPay(r, x) + PartialPay(r, y) + 2
  {
    hide WideMultiply, TaxAndRound;
    var u, v := WideMultiply(x, r.sell, r.buy), WideMultiply(y, r.sell, r.buy);
    var w := WideMultiply(x + y, r.sell, r.buy);
    BoughtFallsShort(x, y, r.sell, r.buy);
    TaxedRoundMonotone(w, u + v + 1, r.taxRate);
    RoundFallsShort(u, v, 1, r.taxRate);
  }

  /** The number of offers below a key. */
  function Count(b: Book, k: Key): nat {
    if k == 0 then 0 else Count(b, k - 1) + (if k - 1 in b then 1 else 0)
  }

  lemma {:induction false} CountKeys(keys: set<Key>, b: Book, k: Key)
    requires forall j: Key :: j in keys <==> j in b && j < k
    ensures Count(b, k) == |keys|
  {
    if k == 0 {
      assert keys == {};
    } else {
      CountKeys(keys - {k - 1}, b, k - 1);
      if k - 1 !in b { assert keys - {k - 1} == keys; }
    }
  }

  lemma CountAll(b: Book, k: Key)
    requires forall j :: j in b ==> j < k
    ensures Count(b, k) == |b|
  {
    CountKeys(b.Keys, b, k);
  }

  lemma PayNothing(r: Rates)
    requires r.buy > 0
    ensures PartialPay(r, 0) == 0 && WideMultiply(0, r.sell, r.buy) == 0 && TaxAndRound(0, r.taxRate) == 0
  {
    hide Div;
    WideMultiplyExact(0, r.sell, r.buy);
    QuotientIs(0, r.buy, 0);
  }

  /** The payments of a trie fall short of what its total is worth by at most two units an offer. */
  lemma {:induction false} PaymentsFallShort(r: Rates, b: Book, k: Key)
    requires r.buy > 0
    ensures PartialPay(r, FromIntegral(EndowLt(b, k))) <= Payments(r, b, k) + 2 * Count(b, k)
  {
    hide PartialPay, FullPay;
    if k == 0 {
      PayNothing(r);
    } else {
      PaymentsFallShort(r, b, k - 1);
      FullIsPart(r, AmountAt(b, k - 1));
      PayFallsShort(r, FromIntegral(EndowLt(b, k - 1)), FromIntegral(AmountAt(b, k - 1)));
      assert k - 1 !in b ==> EndowLt(b, k) == EndowLt(b, k - 1);
    }
  }

  /** The whole offers that an orderbook clears. */
  function Offers(m: Market, com: Commitment): nat {
    |OnArrival(m.news, com)| + |ClearingOf(m, com).cleared|
  }

  lemma TrieFallsShort(r: Rates, b: Book)
    requires r.buy > 0 && forall k :: k in b ==> k < MAX_KEY
    ensures PartialPay(r, FromIntegral(Total(b))) <= Payments(r, b, MAX_KEY) + 2 * |b|
  {
    hide PartialPay, FullPay, EndowLt, Payments, Count;
    CountAll(b, MAX_KEY);
    PaymentsFallShort(r, b, MAX_KEY);
  }

  lemma UnitsAdd(x: nat, y: nat)
    ensures FromIntegral(x + y) == FromIntegral(x) + FromIntegral(y)
  {
  }

  /** Two totals, each paid in parts, and a part of one offer more. */
  lemma PartsFallShort(r: Rates, a: nat, b: nat, paidA: nat, paidB: nat, offers: nat, more: bool, part: nat)
    requires r.buy > 0
    requires PartialPay(r, FromIntegral(a)) + PartialPay(r, FromIntegral(b)) <= paidA + paidB + 2 * offers
    ensures PartialPay(r, FromIntegral(a + b) + (if more then part else 0))
      <= paidA + paidB + (if more then PartialPay(r, part) else 0) + 2 * offers + 4
  {
    hide *;
    UnitsAdd(a, b);
    PayFallsShort(r, FromIntegral(a), FromIntegral(b));
    if more { PayFallsShort(r, FromIntegral(a + b), part); }
  }

  /** An orderbook pays out what its committed supply is worth after tax, less at most two units
      for each offer and four more. */
  lemma PaidAtLeast(m: Market, com: Commitment, r: Rates)
    requires r.buy > 0 && Passed(m, com)
    ensures PartialPay(r, com.supply) <= PaidOut(m, com, r) + 2 * Offers(m, com) + 4
  {
    hide Passed, OutcomeShape, PartialPay, Payments, Total, OnArrival, ClearingOf, ValidatorBook, FromIntegral;
    var early, o := OnArrival(m.news, com), ClearingOf(m, com);
    PassedSupply(m, com);
    ClearedKeys(m, com);
    TrieFallsShort(r, early);
    TrieFallsShort(r, o.cleared);
    PartsFallShort(r, Total(early), Total(o.cleared), Payments(r, early, MAX_KEY), Payments(r, o.cleared, MAX_KEY),
                   Offers(m, com), o.existsPartial, o.remaining);
  }

  lemma ClearedKeys(m: Market, com: Commitment)
    requires Passed(m, com)
    ensures forall k :: k in OnArrival(m.news, com) ==> k < MAX_KEY
    ensures forall k :: k in ClearingOf(m, com).cleared ==> k < MAX_KEY && k in m.prior + m.news
  {
    hide Validated, OutcomeOf, CheckStats, Total;
    PassedSupply(m, com);
    WaitingBook(m.prior, m.news, com);
    assert forall k :: k in OnArrival(m.news, com) ==> k in m.prior + m.news;
  }

  /** The rounding that the first k orderbooks may keep of an asset. */
  function Slack(h: Header, ms: seq<Market>, a: nat, k: nat): nat
    requires Sized(h) && |ms| == |h.coms| && k <= |ms|
  {
    if k == 0 then 0
    else
      Slack(h, ms, a, k - 1) +
      (if BuyOf(|h.prices|, k - 1) == a then 2 * Offers(ms[k - 1], h.coms[k - 1]) + 6 else 0)
  }

  /** A block pays out, of every asset, what is bought of it after tax, less at most two units for
      each offer and six for each orderbook. */
  lemma {:induction false} BlockPaysOut(h: Header, ms: seq<Market>, a: nat, k: nat)
    requires Priced(h) && AllPassed(h, ms) && k <= |ms|
    ensures TaxAndRound(Demanded(h, a, k), h.taxRate) <= AllPaidOut(h, ms, a, k) + Slack(h, ms, a, k)
  {
    hide Passed, PaidOut, TaxAndRound, BuyOf, SellOf, WideMultiply, Offers;
    if k == 0 {
      RoundNothing(h.taxRate);
    } else {
      BlockPaysOut(h, ms, a, k - 1);
      PaidAtLeast(ms[k - 1], h.coms[k - 1], RatesAt(h, k - 1));
      RoundFallsShort(Demanded(h, a, k - 1), Bought(h, k - 1), 0, h.taxRate);
    }
  }

  lemma RoundNothing(rate: nat)
    ensures TaxAndRound(0, rate) == 0
  {
  }

  // ---- the clearing check, by exact demand ----

  /** What the first k orderbooks sell for an asset, each amount times its price: over the asset's
      own price this is what they buy of it. */
  function Worth(h: Header, a: nat, k: nat): nat
    requires Sized(h) && k <= |h.coms|
  {
    if k == 0 then 0
    else
      Worth(h, a, k - 1) +
      (if BuyOf(|h.prices|, k - 1) == a then h.coms[k - 1].supply * RatesAt(h, k - 1).sell else 0)
  }

  /** How many of them buy it. */
  function Buyers(h: Header, a: nat, k: nat): nat
    requires Sized(h) && k <= |h.coms|
  {
    if k == 0 then 0 else Buyers(h, a, k - 1) + (if BuyOf(|h.prices|, k - 1) == a then 1 else 0)
  }

  lemma {:induction false} DemandedWorth(h: Header, a: nat, k: nat)
    requires Priced(h) && k <= |h.coms| && a < |h.prices|
    ensures Demanded(h, a, k) * h.prices[a] <= Worth(h, a, k)
    ensures Worth(h, a, k) <= (Demanded(h, a, k) + Buyers(h, a, k)) * h.prices[a]
    ensures h.prices[a] == 0 ==> Demanded(h, a, k) == 0
  {
    hide WideMultiply, BuyOf, SellOf, Div;
    if k > 0 {
      DemandedWorth(h, a, k - 1);
      if BuyOf(|h.prices|, k - 1) == a {
        RatesMean(h, k - 1);
        var b, x := h.prices[a], h.coms[k - 1].supply * RatesAt(h, k - 1).sell;
        WideMultiplyExact(h.coms[k - 1].supply, RatesAt(h, k - 1).sell, b);
        DivBounds(x, b);
        Distribute(Demanded(h, a, k - 1), Div(x, b), b);
        Distribute(Demanded(h, a, k - 1) + Buyers(h, a, k - 1), Div(x, b) + 1, b);
        Distribute(Div(x, b), 1, b);
      }
    }
  }

  /** Exactly what is bought of the asset, after tax, is at most what is sold of it. */
  ghost predicate ExactlySupplied(h: Header, a: nat)
    requires Sized(h) && a < |h.prices|
  {
    var d := Pow2(h.taxRate);
    Worth(h, a, |h.coms|) * (d - 1) <= ((Supplied(h, a, |h.coms|) * FRACTION_ONE) * d) * h.prices[a]
  }

  lemma RestBounds(p: nat, rest: nat, d: nat)
    requires d > 0 && p * FRACTION_ONE <= rest < (p + 1) * FRACTION_ONE
    ensures (p * FRACTION_ONE) * d <= rest * d && rest * d + d <= ((p + 1) * FRACTION_ONE) * d
  {
    ScaleUp(p * FRACTION_ONE, rest, d);
    MulLess(rest, (p + 1) * FRACTION_ONE, d);
  }

  lemma RoundedRest(w: nat, rate: nat)
    ensures var p, d := TaxAndRound(w, rate), Pow2(rate);
      (p * FRACTION_ONE) * d <= w * (d - 1) && w * (d - 1) < ((p + 1) * FRACTION_ONE) * d
  {
    hide Tax, TaxAndRound;
    var p, d := TaxAndRound(w, rate), Pow2(rate);
    TaxExact(w, rate);
    var t := Tax(w, d);
    TaxedRest(w, t, d);
    RestBounds(p, w - t, d);
  }

  /** A header whose exact demand after tax is supplied passes the check. */
  lemma SuppliedClears(h: Header)
    requires Priced(h) && forall a: nat :: a < |h.prices| ==> ExactlySupplied(h, a)
    ensures Clears(h)
  {
    hide ExactlySupplied, TaxAndRound, Demanded, Supplied;
    forall a: nat | a < |h.prices|
      ensures TaxAndRound(Demanded(h, a, |h.coms|), h.taxRate) <= Supplied(h, a, |h.coms|)
    {
      SuppliedAsset(h, a);
    }
  }

  lemma SuppliedAsset(h: Header, a: nat)
    requires Priced(h) && a < |h.prices| && ExactlySupplied(h, a)
    ensures TaxAndRound(Demanded(h, a, |h.coms|), h.taxRate) <= Supplied(h, a, |h.coms|)
  {
    hide TaxAndRound, Demanded, Supplied, Worth;
    var k, d := |h.coms|, Pow2(h.taxRate);
    var w, s, b := Demanded(h, a, k), Supplied(h, a, k), h.prices[a];
    DemandedWorth(h, a, k);
    if b == 0 {
      RoundNothing(h.taxRate);
    } else {
      RoundedRest(w, h.taxRate);
      CancelSupply(TaxAndRound(w, h.taxRate), s, w, Worth(h, a, k), d, b);
    }
  }

  lemma CancelSupply(p: nat, s: nat, w: nat, worth: nat, d: nat, b: nat)
    requires d > 0 && b > 0 && w * b <= worth
    requires (p * FRACTION_ONE) * d <= w * (d - 1)
    requires worth * (d - 1) <= ((s * FRACTION_ONE) * d) * b
    ensures p <= s
  {
    var e, x, y := d - 1, (p * FRACTION_ONE) * d, (s * FRACTION_ONE) * d;
    ScaleUp(x, w * e, b);
    Swap(w, e, b);
    ScaleUp(w * b, worth, e);
    assert x * b <= y * b;
    if s < p {
      MulLess(s * FRACTION_ONE, p * FRACTION_ONE, d);
      MulLess(y, x, b);
    }
  }

  /** And one that passes has its exact demand after tax supplied, up to one unit and the rounding
      of each orderbook. */
  lemma ClearsSupplied(h: Header, a: nat)
    requires Priced(h) && Clears(h) && a < |h.prices|
    ensures var d, s := Pow2(h.taxRate), Supplied(h, a, |h.coms|);
      Worth(h, a, |h.coms|) * (d - 1)
        <= (((s + 1) * FRACTION_ONE + Buyers(h, a, |h.coms|)) * d) * h.prices[a]
  {
    hide TaxAndRound, Demanded, Supplied, Worth, Buyers;
    var k, d := |h.coms|, Pow2(h.taxRate);
    var w, s, b, c := Demanded(h, a, k), Supplied(h, a, k), h.prices[a], Buyers(h, a, k);
    DemandedWorth(h, a, k);
    RoundedRest(w, h.taxRate);
    WorthWithin(TaxAndRound(w, h.taxRate), s, w, Worth(h, a, k), c, d, b);
  }

  lemma WorthWithin(p: nat, s: nat, w: nat, worth: nat, c: nat, d: nat, b: nat)
    requires d > 0 && p <= s && worth <= (w + c) * b
    requires w * (d - 1) < ((p + 1) * FRACTION_ONE) * d
    ensures worth * (d - 1) <= (((s + 1) * FRACTION_ONE + c) * d) * b
  {
    var e, top := d - 1, (s + 1) * FRACTION_ONE;
    ScaleUp((p + 1) * FRACTION_ONE, top, d);
    Distribute(w, c, e);
    assert c * e <= c * d by { Commute(c, e); Commute(c, d); ScaleUp(e, d, c); }
    Distribute(top, c, d);
    ScaleUp((w + c) * e, (top + c) * d, b);
    Swap(w + c, e, b);
    ScaleUp(worth, (w + c) * b, e);
  }

  // ---- to whom ----

  /** The offers of one owner. */
  function OffersOf(b: Book, owner: nat): Book {
    map k | k in b && OwnerOf(k) == owner :: b[k]
  }

  /** An owner is paid for its own offers, and for all of them. */
  lemma {:induction false} CreditIsOwn(r: Rates, b: Book, owner: nat, k: Key)
    requires r.buy > 0
    ensures Credit(r, b, owner, k) == Payments(r, OffersOf(b, owner), k)
  {
    hide FullPay, OwnerOf;
    if k > 0 { CreditIsOwn(r, b, owner, k - 1); }
  }

  lemma {:induction false} CreditsExact(r: Rates, b: Book, n: nat, k: Key)
    requires r.buy > 0 && n >= OWNER_SPAN
    ensures Credits(r, b, n, k) == Payments(r, b, k)
  {
    hide FullPay;
    if k == 0 {
      NoCredits(r, b, n);
    } else {
      CreditsExact(r, b, n, k - 1);
      CreditsStep(r, b, n, k);
    }
  }

  lemma {:induction false} NoCredit(r: Rates, b: Book, owner: nat, k: Key)
    requires r.buy > 0 && forall j :: j in b ==> OwnerOf(j) != owner
    ensures Credit(r, b, owner, k) == 0
  {
    hide FullPay, OwnerOf;
    if k > 0 { NoCredit(r, b, owner, k - 1); }
  }

  lemma {:induction false} PaidHeldExact(was: map<nat, int>, now: map<nat, int>, r: Rates, b: Book, n: nat)
    requires r.buy > 0 && Paid(was, now, r, b) && forall k :: k in b ==> OwnerOf(k) in was
    ensures Held(now, n) - Held(was, n) == Credits(r, b, n, MAX_KEY)
  {
    hide OwnerOf, FullPay;
    if n > 0 {
      PaidHeldExact(was, now, r, b, n - 1);
      if n - 1 !in was { NoCredit(r, b, n - 1, MAX_KEY); }
    }
  }

  lemma {:induction false} OneHeldExact(was: map<nat, int>, owner: nat, pay: nat, n: nat)
    requires owner in was
    ensures Held(was[owner := was[owner] + pay], n) == Held(was, n) + (if owner < n then pay else 0)
  {
    if n > 0 { OneHeldExact(was, owner, pay, n - 1); }
  }

  lemma AllPaidHeldExact(was: map<nat, int>, now: map<nat, int>, r: Rates, o: Outcome, n: nat)
    requires r.buy > 0 && AllPaid(was, now, r, o) && n >= OWNER_SPAN
    requires forall k :: k in o.cleared ==> OwnerOf(k) in was
    ensures Held(now, n) - Held(was, n)
      == Payments(r, o.cleared, MAX_KEY) + (if o.existsPartial then PartialPay(r, o.remaining) else 0)
  {
    hide Paid, FullPay, PartialPay, Held, Payments;
    var full :| Paid(was, full, r, o.cleared) &&
      (if o.existsPartial then
         OwnerOf(o.partialKey) in full &&
         now == full[OwnerOf(o.partialKey) := full[OwnerOf(o.partialKey)] + PartialPay(r, o.remaining)]
       else now == full);
    PaidHeldExact(was, full, r, o.cleared, n);
    CreditsExact(r, o.cleared, n, MAX_KEY);
    if o.existsPartial { OneHeldExact(full, OwnerOf(o.partialKey), PartialPay(r, o.remaining), n); }
  }

  /** When every owner has an account, the accounts together gain exactly what an orderbook pays
      out. */
  lemma SettledExact(m: Market, com: Commitment, r: Rates, was: map<nat, int>, now: map<nat, int>, n: nat)
    requires r.buy > 0 && Settled(m, com, r, was, now) && n >= OWNER_SPAN
    requires forall k :: k in OnArrival(m.news, com) ==> OwnerOf(k) in was
    requires forall k :: k in ClearingOf(m, com).cleared ==> OwnerOf(k) in was
    ensures Held(now, n) - Held(was, n) == PaidOut(m, com, r)
  {
    hide Paid, AllPaid, OnArrival, ClearingOf, FullPay, PartialPay, Held, Payments, OwnerOf;
    var mid :| Paid(was, mid, r, OnArrival(m.news, com)) && AllPaid(mid, now, r, ClearingOf(m, com));
    PaidAccounts(was, mid, r, OnArrival(m.news, com));
    PaidHeldExact(was, mid, r, OnArrival(m.news, com), n);
    CreditsExact(r, OnArrival(m.news, com), n, MAX_KEY);
    AllPaidHeldExact(mid, now, r, ClearingOf(m, com), n);
  }
}
