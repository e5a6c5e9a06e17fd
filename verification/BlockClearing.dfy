/** The clearing check on a block's header, over all orderbooks: whatever is committed, a block
    that passes it and whose orderbooks pass theirs pays out no more of any asset than the
    offers selling it give up. */
module BlockClearing {
  import opened Clearing
  import opened OfferCategories
  import opened Orderbook
  import opened Persistence
  import opened Pricing
  import opened Wrappers

  /** Prices, tax rate, and one commitment for every orderbook. */
  datatype Header = Header(prices: seq<nat>, taxRate: nat, coms: seq<Commitment>)

  predicate Sized(h: Header) { |h.coms| == NumOrderbooks(|h.prices|) }

  function RatesAt(h: Header, i: nat): Rates
    requires Sized(h) && i < |h.coms|
  {
    CategoryInverts(|h.prices|, i);
    Rates(h.prices[SellOf(|h.prices|, i)], h.prices[BuyOf(|h.prices|, i)], h.taxRate)
  }

  /** No orderbook buys an asset of price zero. */
  ghost predicate Priced(h: Header) {
    Sized(h) && forall i :: 0 <= i < |h.coms| ==> RatesAt(h, i).buy > 0
  }

  // ---- the check ----

  /** What the first k orderbooks sell of an asset, in whole units. */
  function Supplied(h: Header, a: nat, k: nat): nat
    requires Sized(h) && k <= |h.coms|
  {
    if k == 0 then 0
    else Supplied(h, a, k - 1) + (if SellOf(|h.prices|, k - 1) == a then Ceil(h.coms[k - 1].supply) else 0)
  }

  /** What the first k orderbooks buy of an asset before tax. */
  function Demanded(h: Header, a: nat, k: nat): nat
    requires Sized(h) && k <= |h.coms|
  {
    if k == 0 then 0
    else Demanded(h, a, k - 1) + (if BuyOf(|h.prices|, k - 1) == a then Bought(h, k - 1) else 0)
  }

  function Bought(h: Header, i: nat): nat
    requires Sized(h) && i < |h.coms|
  {
    var r := RatesAt(h, i);
    if r.buy == 0 then 0 else WideMultiply(h.coms[i].supply, r.sell, r.buy)
  }

  /** Of every asset at least as much is sold as is bought after tax. */
  ghost predicate Clears(h: Header)
    requires Sized(h)
  {
    forall a: nat :: a < |h.prices| ==>
      TaxAndRound(Demanded(h, a, |h.coms|), h.taxRate) <= Supplied(h, a, |h.coms|)
  }

  /** One more orderbook in the sums. */
  lemma SumsStep(h: Header, i: nat, a: nat)
    requires Sized(h) && i < |h.coms|
    ensures Supplied(h, a, i + 1) ==
      Supplied(h, a, i) + (if SellOf(|h.prices|, i) == a then Ceil(h.coms[i].supply) else 0)
    ensures Demanded(h, a, i + 1) == Demanded(h, a, i) + (if BuyOf(|h.prices|, i) == a then Bought(h, i) else 0)
  {
  }

  lemma RatesMean(h: Header, i: nat)
    requires Sized(h) && i < |h.coms|
    ensures SellOf(|h.prices|, i) < |h.prices| && BuyOf(|h.prices|, i) < |h.prices|
    ensures RatesAt(h, i) == Rates(h.prices[SellOf(|h.prices|, i)], h.prices[BuyOf(|h.prices|, i)], h.taxRate)
  {
    CategoryInverts(|h.prices|, i);
  }

  /** The sums for every asset after the first k orderbooks. */
  ghost predicate Summed(h: Header, k: nat, supplies: seq<nat>, demands: seq<nat>)
    requires Sized(h) && k <= |h.coms|
  {
    && |supplies| == |demands| == |h.prices|
    && forall a: nat :: a < |h.prices| ==>
         supplies[a] == FromIntegral(Supplied(h, a, k)) && demands[a] == Demanded(h, a, k)
  }

  lemma SummedStep(h: Header, i: nat, supplies: seq<nat>, demands: seq<nat>)
    requires Sized(h) && i < |h.coms| && Summed(h, i, supplies, demands)
    requires SellOf(|h.prices|, i) < |h.prices| && BuyOf(|h.prices|, i) < |h.prices|
    ensures var sell, buy := SellOf(|h.prices|, i), BuyOf(|h.prices|, i);
      Summed(h, i + 1, supplies[sell := supplies[sell] + FromIntegral(Ceil(h.coms[i].supply))],
             demands[buy := demands[buy] + Bought(h, i)])
  {
    hide Ceil, SellOf, BuyOf, Supplied, Demanded, Bought;
    forall a: nat { SumsStep(h, i, a); }
  }

  /** The two sums for every asset; false is the division by a price of zero. */
  method AddUp(h: Header) returns (ok: bool, supplies: array<nat>, demands: array<nat>)
    requires Sized(h)
    ensures fresh(supplies) && fresh(demands)
    ensures ok <==> Priced(h)
    ensures ok ==> Summed(h, |h.coms|, supplies[..], demands[..])
  {
    hide WideMultiply, Ceil, SellOf, BuyOf, Summed, RatesAt, FromIntegral;
    var n := |h.prices|;
    supplies, demands := new nat[n](_ => 0), new nat[n](_ => 0);
    NothingSummed(h, supplies[..], demands[..]);
    for i := 0 to |h.coms|
      invariant forall j :: 0 <= j < i ==> RatesAt(h, j).buy > 0
      invariant Summed(h, i, supplies[..], demands[..])
    {
      RatesMean(h, i);
      var sell, buy, supply := SellOf(n, i), BuyOf(n, i), h.coms[i].supply;
      if h.prices[buy] == 0 { return false, supplies, demands; }
      SummedStep(h, i, supplies[..], demands[..]);
      supplies[sell] := supplies[sell] + FromIntegral(Ceil(supply));
      demands[buy] := demands[buy] + WideMultiply(supply, h.prices[sell], h.prices[buy]);
    }
    ok := true;
  }

  lemma NothingSummed(h: Header, supplies: seq<nat>, demands: seq<nat>)
    requires Sized(h) && |supplies| == |demands| == |h.prices|
    requires forall a :: 0 <= a < |h.prices| ==> supplies[a] == demands[a] == 0
    ensures Summed(h, 0, supplies, demands)
  {
  }

  /** The check; None is the division by a price of zero. */
  method CheckClearing(h: Header) returns (res: Option<bool>)
    requires Sized(h)
    ensures res.None? <==> !Priced(h)
    ensures res.Some? ==> (res.value <==> Clears(h))
  {
    hide TaxAndRound, Priced, Supplied, Demanded;
    var ok, supplies, demands := AddUp(h);
    if !ok { return None; }
    assert forall a: nat :: a < |h.prices| ==>
      supplies[a] == supplies[..][a] && demands[a] == demands[..][a];
    for i := 0 to |h.prices|
      invariant forall a: nat :: a < i ==>
        TaxAndRound(Demanded(h, a, |h.coms|), h.taxRate) <= Supplied(h, a, |h.coms|)
    {
      var taxed := TaxAndRound(demands[i], h.taxRate);
      if supplies[i] < FromIntegral(taxed) { return Some(false); }
    }
    return Some(true);
  }

  // ---- rounding down gives the traders no more together than alone ----

  lemma FloorsAdd(x: nat, y: nat, d: nat)
    requires d > 0
    ensures Div(x, d) + Div(y, d) <= Div(x + y, d)
  {
    hide Div;
    DivBounds(x, d);
    DivBounds(y, d);
    DivBounds(x + y, d);
    var p, q := Div(x, d) + Div(y, d), Div(x + y, d);
    Distribute(Div(x, d), Div(y, d), d);
    if q < p { MulLess(q, p, d); }
  }

  lemma BoughtAdds(x: nat, y: nat, sell: nat, buy: nat)
    requires buy > 0
    ensures WideMultiply(x, sell, buy) + WideMultiply(y, sell, buy) <= WideMultiply(x + y, sell, buy)
  {
    hide WideMultiply, Div;
    WideMultiplyExact(x, sell, buy);
    WideMultiplyExact(y, sell, buy);
    WideMultiplyExact(x + y, sell, buy);
    Distribute(x, y, sell);
    FloorsAdd(x * sell, y * sell, buy);
  }

  /** The tax on a sum is at most the taxes on its parts. */
  lemma TaxedAdds(x: nat, y: nat, d: nat)
    requires d > 0
    ensures Tax(x + y, d) <= Tax(x, d) + Tax(y, d)
  {
    hide Tax;
    TaxShare(x, d);
    TaxShare(y, d);
    TaxShare(x + y, d);
    var s, t := Tax(x, d) + Tax(y, d), Tax(x + y, d);
    Distribute(Tax(x, d), Tax(y, d), d);
    if s < t { MulMono(s, t - 1, d); }
  }

  lemma TaxedRoundAdds(x: nat, y: nat, rate: nat)
    ensures TaxAndRound(x, rate) + TaxAndRound(y, rate) <= TaxAndRound(x + y, rate)
  {
    hide Tax;
    var d := Pow2(rate);
    TaxedAdds(x, y, d);
    DivAtMost(x, d);
    DivAtMost(y, d);
    DivAtMost(x + y, d);
    var a, b, c := x - Tax(x, d), y - Tax(y, d), x + y - Tax(x + y, d);
    assert a / FRACTION_ONE + b / FRACTION_ONE <= c / FRACTION_ONE;
  }

  lemma TaxedRoundMonotone(x: nat, y: nat, rate: nat)
    requires x <= y
    ensures TaxAndRound(x, rate) <= TaxAndRound(y, rate)
  {
    TaxedRoundAdds(x, y - x, rate);
  }

  /** Paid for a fractional amount at these rates. */
  lemma PayAdds(r: Rates, x: nat, y: nat)
    requires r.buy > 0
    ensures PartialPay(r, x) + PartialPay(r, y) <= PartialPay(r, x + y)
  {
    hide WideMultiply, TaxAndRound;
    var u, v := WideMultiply(x, r.sell, r.buy), WideMultiply(y, r.sell, r.buy);
    BoughtAdds(x, y, r.sell, r.buy);
    TaxedRoundAdds(u, v, r.taxRate);
    TaxedRoundMonotone(u + v, WideMultiply(x + y, r.sell, r.buy), r.taxRate);
  }

  // ---- one orderbook ----

  /** The offers of an orderbook before the block, and the block's new ones. */
  datatype Market = Market(prior: Book, news: Book)

  function Arrived(m: Market, com: Commitment): nat { FromIntegral(Total(OnArrival(m.news, com))) }

  function ClearingOf(m: Market, com: Commitment): Outcome {
    OutcomeOf(ValidatorBook(m.prior, m.news, com), com, Arrived(m, com))
  }

  /** The validator's clearing is accepted, and its statistics match. */
  ghost predicate Passed(m: Market, com: Commitment) {
    && m.prior.Keys !! m.news.Keys && LiveBook(m.prior + m.news)
    && var v := Validated(ValidatorBook(m.prior, m.news, com), com, Arrived(m, com));
    v.Accepted? && CheckStats(com, v.activated)
  }

  /** What the offers give up. */
  function GivenUp(m: Market, com: Commitment): int {
    Total(m.prior + m.news) - Total(ClearingOf(m, com).book)
  }

  /** All payments for the offers of a trie below a key. */
  function Payments(r: Rates, b: Book, k: Key): nat
    requires r.buy > 0
  {
    if k == 0 then 0 else Payments(r, b, k - 1) + (if k - 1 in b then FullPay(r, b[k - 1]) else 0)
  }

  /** All payments of an orderbook. */
  function PaidOut(m: Market, com: Commitment, r: Rates): nat
    requires r.buy > 0
  {
    var o := ClearingOf(m, com);
    Payments(r, OnArrival(m.news, com), MAX_KEY) + Payments(r, o.cleared, MAX_KEY) +
    (if o.existsPartial then PartialPay(r, o.remaining) else 0)
  }

  lemma ShrinkTotal(b: Book, t: Key, sold: nat)
    requires t in b && t < MAX_KEY && sold <= b[t]
    ensures Total(Shrink(b, t, sold)) == Total(b) - sold
  {
    hide EndowLt;
    var rest := b - {t};
    var last: Book := map[t := b[t] - sold];
    assert b == rest + map[t := b[t]];
    EndowUnion(rest, map[t := b[t]], MAX_KEY);
    OneTotal(t, b[t], MAX_KEY);
    if sold < b[t] {
      assert Shrink(b, t, sold) == rest + last;
      EndowUnion(rest, last, MAX_KEY);
      OneTotal(t, b[t] - sold, MAX_KEY);
    }
  }

  /** What a clearing of this shape takes out of a book. */
  lemma ShapeTotal(w: Book, o: Outcome)
    requires LiveBook(w) && OutcomeShape(w, o)
    ensures Total(w) - Total(o.book) == Total(o.cleared) + (if o.existsPartial then Ceil(o.remaining) else 0)
    ensures Total(o.cleared) == if o.existsPartial then EndowLt(w, o.partialKey) else Total(w)
  {
    hide EndowLt, Ceil, Shrink;
    if o.existsPartial {
      var t := o.partialKey;
      assert w == Below(w, t) + From(w, t);
      EndowUnion(Below(w, t), From(w, t), MAX_KEY);
      EndowBelow(w, t, MAX_KEY);
      ShrinkTotal(From(w, t), t, Ceil(o.remaining));
    } else {
      EmptyTotal(MAX_KEY);
    }
  }

  lemma WholeAndPart(n: nat, part: nat)
    ensures Ceil(FromIntegral(n) + part) == n + Ceil(part)
  {
  }

  /** The committed supply is what cleared in full, on arrival or from the book, and in part. */
  lemma PassedSupply(m: Market, com: Commitment)
    requires Passed(m, com)
    ensures var o := ClearingOf(m, com);
      && com.supply == FromIntegral(Total(OnArrival(m.news, com)) + Total(o.cleared)) +
                       (if o.existsPartial then o.remaining else 0)
      && OutcomeShape(ValidatorBook(m.prior, m.news, com), o)
  {
    hide LiveBook, Split, Minus, Shrink, Total;
    var w := ValidatorBook(m.prior, m.news, com);
    WaitingBook(m.prior, m.news, com);
    AcceptedShape(w, com, Arrived(m, com));
    ShapeTotal(w, ClearingOf(m, com));
  }

  lemma SplitNews(m: Market, com: Commitment)
    requires m.prior.Keys !! m.news.Keys
    ensures var early, w := OnArrival(m.news, com), ValidatorBook(m.prior, m.news, com);
      m.prior + m.news == w + early && w.Keys !! early.Keys
  {
  }

  /** The offers give up exactly the ceiling of the committed supply. */
  lemma GivenUpIsCeiling(m: Market, com: Commitment)
    requires Passed(m, com)
    ensures GivenUp(m, com) == Ceil(com.supply)
  {
    hide LiveBook, Validated, OutcomeOf, OutcomeShape, EndowLt, Ceil, FromIntegral, CheckStats, Minus;
    var early, w, o := OnArrival(m.news, com), ValidatorBook(m.prior, m.news, com), ClearingOf(m, com);
    PassedSupply(m, com);
    WaitingBook(m.prior, m.news, com);
    ShapeTotal(w, o);
    assert m.prior + m.news == w + early && w.Keys !! early.Keys by { SplitNews(m, com); }
    EndowUnion(w, early, MAX_KEY);
    WholeAndPart(Total(early) + Total(o.cleared), if o.existsPartial then o.remaining else 0);
    assert Ceil(0) == 0 by { CeilZero(); }
  }

  lemma CeilZero()
    ensures Ceil(0) == 0
  {
  }

  lemma FullIsPart(r: Rates, amount: nat)
    requires r.buy > 0
    ensures FullPay(r, amount) == PartialPay(r, FromIntegral(amount))
  {
  }

  lemma {:induction false} PaymentsWithin(r: Rates, b: Book, k: Key)
    requires r.buy > 0
    ensures Payments(r, b, k) <= PartialPay(r, FromIntegral(EndowLt(b, k)))
  {
    hide PartialPay, FullPay;
    if k > 0 {
      PaymentsWithin(r, b, k - 1);
      FullIsPart(r, AmountAt(b, k - 1));
      PayAdds(r, FromIntegral(EndowLt(b, k - 1)), FromIntegral(AmountAt(b, k - 1)));
    }
  }

  /** An orderbook pays out at most what its committed supply is worth after tax. */
  lemma PaidWithin(m: Market, com: Commitment, r: Rates)
    requires r.buy > 0 && Passed(m, com)
    ensures PaidOut(m, com, r) <= PartialPay(r, com.supply)
  {
    hide LiveBook, Validated, OutcomeOf, OutcomeShape, EndowLt, PartialPay, FullPay, Passed;
    var early, o := OnArrival(m.news, com), ClearingOf(m, com);
    PassedSupply(m, com);
    PaymentsWithin(r, early, MAX_KEY);
    PaymentsWithin(r, o.cleared, MAX_KEY);
    PayAdds(r, FromIntegral(Total(early)), FromIntegral(Total(o.cleared)));
    PayAdds(r, FromIntegral(Total(early) + Total(o.cleared)), if o.existsPartial then o.remaining else 0);
  }

  // ---- all orderbooks ----

  /** What the offers that sell an asset give up, in the first k orderbooks. */
  function AllGivenUp(h: Header, ms: seq<Market>, a: nat, k: nat): int
    requires Sized(h) && |ms| == |h.coms| && k <= |ms|
  {
    if k == 0 then 0
    else
      AllGivenUp(h, ms, a, k - 1) +
      (if SellOf(|h.prices|, k - 1) == a then GivenUp(ms[k - 1], h.coms[k - 1]) else 0)
  }

  /** What the first k orderbooks pay out of an asset. */
  ghost function AllPaidOut(h: Header, ms: seq<Market>, a: nat, k: nat): nat
    requires Priced(h) && |ms| == |h.coms| && k <= |ms|
  {
    if k == 0 then 0
    else
      AllPaidOut(h, ms, a, k - 1) +
      (if BuyOf(|h.prices|, k - 1) == a then PaidOut(ms[k - 1], h.coms[k - 1], RatesAt(h, k - 1)) else 0)
  }

  ghost predicate AllPassed(h: Header, ms: seq<Market>) {
    |ms| == |h.coms| && forall i :: 0 <= i < |ms| ==> Passed(ms[i], h.coms[i])
  }

  lemma {:induction false} GivenUpIsSupplied(h: Header, ms: seq<Market>, a: nat, k: nat)
    requires Sized(h) && AllPassed(h, ms) && k <= |ms|
    ensures AllGivenUp(h, ms, a, k) == Supplied(h, a, k)
  {
    hide Passed, GivenUp, Ceil, SellOf;
    if k > 0 {
      GivenUpIsSupplied(h, ms, a, k - 1);
      GivenUpIsCeiling(ms[k - 1], h.coms[k - 1]);
    }
  }

  lemma {:induction false} PaidOutWithin(h: Header, ms: seq<Market>, a: nat, k: nat)
    requires Priced(h) && AllPassed(h, ms) && k <= |ms|
    ensures AllPaidOut(h, ms, a, k) <= TaxAndRound(Demanded(h, a, k), h.taxRate)
  {
    hide Passed, PaidOut, TaxAndRound, BuyOf, SellOf, WideMultiply;
    if k > 0 {
      PaidOutWithin(h, ms, a, k - 1);
      PaidWithin(ms[k - 1], h.coms[k - 1], RatesAt(h, k - 1));
      TaxedRoundAdds(Demanded(h, a, k - 1), Bought(h, k - 1), h.taxRate);
    }
  }

  /** A block that passes the clearing check, and whose orderbooks are accepted with matching
      statistics, pays out no more of any asset than the offers that sell it give up. */
  lemma BlockSolvent(h: Header, ms: seq<Market>, a: nat)
    requires Priced(h) && Clears(h) && AllPassed(h, ms) && a < |h.prices|
    ensures AllPaidOut(h, ms, a, |ms|) <= AllGivenUp(h, ms, a, |ms|)
  {
    hide TaxAndRound, Passed, Demanded, Supplied, AllPaidOut, AllGivenUp;
    GivenUpIsSupplied(h, ms, a, |ms|);
    PaidOutWithin(h, ms, a, |ms|);
  }

  // ---- what the accounts gain ----

  /** The balances of the accounts with an id below a bound. */
  function Held(balances: map<nat, int>, n: nat): int {
    if n == 0 then 0 else Held(balances, n - 1) + (if n - 1 in balances then balances[n - 1] else 0)
  }

  /** What the owners with an id below a bound are paid for the cleared offers below a key. */
  function Credits(r: Rates, cleared: Book, n: nat, k: Key): nat
    requires r.buy > 0
  {
    if n == 0 then 0 else Credits(r, cleared, n - 1, k) + Credit(r, cleared, n - 1, k)
  }

  lemma {:induction false} CreditsStep(r: Rates, cleared: Book, n: nat, k: Key)
    requires r.buy > 0 && k > 0
    ensures Credits(r, cleared, n, k) == Credits(r, cleared, n, k - 1) +
      (if k - 1 in cleared && OwnerOf(k - 1) < n then FullPay(r, cleared[k - 1]) else 0)
  {
    hide FullPay, OwnerOf;
    if n > 0 { CreditsStep(r, cleared, n - 1, k); }
  }

  lemma {:induction false} NoCredits(r: Rates, cleared: Book, n: nat)
    requires r.buy > 0
    ensures Credits(r, cleared, n, 0) == 0
  {
    if n > 0 { NoCredits(r, cleared, n - 1); }
  }

  lemma {:induction false} CreditsWithin(r: Rates, cleared: Book, n: nat, k: Key)
    requires r.buy > 0
    ensures Credits(r, cleared, n, k) <= Payments(r, cleared, k)
  {
    hide FullPay, OwnerOf;
    if k == 0 {
      NoCredits(r, cleared, n);
    } else {
      CreditsWithin(r, cleared, n, k - 1);
      CreditsStep(r, cleared, n, k);
    }
  }

  lemma {:induction false} PaidHeld(was: map<nat, int>, now: map<nat, int>, r: Rates, cleared: Book, n: nat)
    requires r.buy > 0 && Paid(was, now, r, cleared)
    ensures Held(now, n) - Held(was, n) <= Credits(r, cleared, n, MAX_KEY)
  {
    if n > 0 { PaidHeld(was, now, r, cleared, n - 1); }
  }

  lemma {:induction false} OneHeld(was: map<nat, int>, owner: nat, pay: nat, n: nat)
    requires owner in was
    ensures Held(was[owner := was[owner] + pay], n) <= Held(was, n) + pay
    ensures n <= owner ==> Held(was[owner := was[owner] + pay], n) == Held(was, n)
  {
    if n > 0 { OneHeld(was, owner, pay, n - 1); }
  }

  /** One orderbook's payments: on arrival, and when the book clears. */
  ghost predicate Settled(m: Market, com: Commitment, r: Rates, was: map<nat, int>, now: map<nat, int>)
    requires r.buy > 0
  {
    exists mid :: Paid(was, mid, r, OnArrival(m.news, com)) && AllPaid(mid, now, r, ClearingOf(m, com))
  }

  lemma AllPaidHeld(was: map<nat, int>, now: map<nat, int>, r: Rates, o: Outcome, n: nat)
    requires r.buy > 0 && AllPaid(was, now, r, o)
    ensures Held(now, n) - Held(was, n)
      <= Payments(r, o.cleared, MAX_KEY) + (if o.existsPartial then PartialPay(r, o.remaining) else 0)
  {
    hide Paid, FullPay, PartialPay, OwnerOf, Held, Payments;
    var full :| Paid(was, full, r, o.cleared) &&
      (if o.existsPartial then
         OwnerOf(o.partialKey) in full &&
         now == full[OwnerOf(o.partialKey) := full[OwnerOf(o.partialKey)] + PartialPay(r, o.remaining)]
       else now == full);
    PaidHeld(was, full, r, o.cleared, n);
    CreditsWithin(r, o.cleared, n, MAX_KEY);
    if o.existsPartial { OneHeld(full, OwnerOf(o.partialKey), PartialPay(r, o.remaining), n); }
  }

  /** The accounts together gain at most what an orderbook pays out. */
  lemma SettledHeld(m: Market, com: Commitment, r: Rates, was: map<nat, int>, now: map<nat, int>, n: nat)
    requires r.buy > 0 && Settled(m, com, r, was, now)
    ensures Held(now, n) - Held(was, n) <= PaidOut(m, com, r)
  {
    hide Paid, AllPaid, OnArrival, ClearingOf, FullPay, PartialPay, Held, Payments;
    var mid :| Paid(was, mid, r, OnArrival(m.news, com)) && AllPaid(mid, now, r, ClearingOf(m, com));
    PaidHeld(was, mid, r, OnArrival(m.news, com), n);
    CreditsWithin(r, OnArrival(m.news, com), n, MAX_KEY);
    AllPaidHeld(mid, now, r, ClearingOf(m, com), n);
  }

  /** The balances of an asset while the orderbooks settle one after the other. */
  ghost predicate Settles(h: Header, ms: seq<Market>, a: nat, balances: seq<map<nat, int>>)
    requires Priced(h) && |ms| == |h.coms|
  {
    && |balances| == |ms| + 1
    && forall i :: 0 <= i < |ms| ==>
         if BuyOf(|h.prices|, i) == a then Settled(ms[i], h.coms[i], RatesAt(h, i), balances[i], balances[i + 1])
         else balances[i + 1] == balances[i]
  }

  lemma {:induction false} SettlesHeld(h: Header, ms: seq<Market>, a: nat, balances: seq<map<nat, int>>, n: nat, k: nat)
    requires Priced(h) && |ms| == |h.coms| && Settles(h, ms, a, balances) && k <= |ms|
    ensures Held(balances[k], n) - Held(balances[0], n) <= AllPaidOut(h, ms, a, k)
  {
    hide Settled, PaidOut, BuyOf, Held;
    if k > 0 {
      SettlesHeld(h, ms, a, balances, n, k - 1);
      if BuyOf(|h.prices|, k - 1) == a {
        SettledHeld(ms[k - 1], h.coms[k - 1], RatesAt(h, k - 1), balances[k - 1], balances[k], n);
      }
    }
  }

  /** Over a block that is accepted, the accounts together gain no more of any asset than the
      offers selling it give up: clearing makes no asset. */
  lemma BlockConserves(h: Header, ms: seq<Market>, a: nat, balances: seq<map<nat, int>>, n: nat)
    requires Priced(h) && Clears(h) && AllPassed(h, ms) && a < |h.prices|
    requires Settles(h, ms, a, balances)
    ensures Held(balances[|ms|], n) - Held(balances[0], n) <= AllGivenUp(h, ms, a, |ms|)
  {
    hide Clears, Passed, Settles, Held;
    SettlesHeld(h, ms, a, balances, n, |ms|);
    BlockSolvent(h, ms, a);
  }
}
