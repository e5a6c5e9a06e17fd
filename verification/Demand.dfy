/** Demand queries on one orderbook: the binary search in the cumulative index, the split
    128-bit product, the traded volumes, and the largest feasible smoothing. */
module Demand {
  import opened Persistence
  import opened Pricing
  import opened Clearing
  import opened Wrappers

  const TWO_128: nat := 0x1_0000_0000_0000_0000_0000_0000_0000_0000
  /** Smoothing factors up to this keep the volumes within 128 bits. */
  const MAX_SMOOTH: nat := 15

  /** Total amount, and total amount times limit price, of some offers. */
  datatype EndowAccumulator = EndowAccumulator(endow: nat, endowTimesPrice: nat)

  /** A product, named so that proofs can treat it as such. */
  function Times(a: int, b: int): (p: int)
    ensures a >= 0 && b >= 0 ==> p >= 0
  {
    a * b
  }

  /** Sum of amount times price over the offers below a key. */
  function ValueLt(b: Book, k: Key): nat {
    if k == 0 then 0 else ValueLt(b, k - 1) + Times(AmountAt(b, k - 1), PriceOf(k - 1))
  }

  /** The first key past a price. */
  function Past(p: nat): Key { (p + 1) * PRICE_SPAN }

  /** The offers whose limit price is at most p. */
  function UpTo(b: Book, p: nat): EndowAccumulator {
    EndowAccumulator(EndowLt(b, Past(p)), ValueLt(b, Past(p)))
  }

  lemma PastPrice(k: Key, p: nat)
    ensures k < Past(p) <==> PriceOf(k) <= p
  {
  }

  lemma PastMonotone(p: nat, q: nat)
    requires p <= q
    ensures Past(p) <= Past(q)
  {
  }

  // ---- the index ----

  datatype Indexed = Indexed(key: nat, metadata: EndowAccumulator)

  /** What the traversal of the trie leaves: after an empty entry, one entry for every limit
      price, in order, with the totals up to it. */
  ghost predicate IndexOk(index: seq<Indexed>, b: Book) {
    && |index| > 0 && index[0].metadata == EndowAccumulator(0, 0)
    && (forall i, j :: 1 <= i < j < |index| ==> index[i].key < index[j].key)
    && (forall i :: 1 <= i < |index| ==> index[i].metadata == UpTo(b, index[i].key))
    && (forall k :: k in b ==> HasPrice(index, PriceOf(k)))
  }

  ghost predicate HasPrice(index: seq<Indexed>, p: nat) {
    exists i :: 1 <= i < |index| && index[i].key == p
  }

  lemma {:induction false} NoneBetween(b: Book, s: Key, t: Key)
    requires s <= t && forall k :: k in b ==> k < s || t <= k
    ensures EndowLt(b, t) == EndowLt(b, s) && ValueLt(b, t) == ValueLt(b, s)
  {
    hide PriceOf;
    if s < t { NoneBetween(b, s, t - 1); }
  }

  /** Between two entries the totals are those of the lower one. */
  lemma EntryTotals(index: seq<Indexed>, b: Book, i: nat, p: nat)
    requires IndexOk(index, b) && i < |index|
    requires i > 0 ==> index[i].key <= p
    requires i + 1 < |index| ==> p < index[i + 1].key
    ensures UpTo(b, p) == index[i].metadata
  {
    var s := if i == 0 then 0 else Past(index[i].key);
    if i > 0 { PastMonotone(index[i].key, p); }
    forall k | k in b ensures k < s || Past(p) <= k {
      assert HasPrice(index, PriceOf(k));
      var j :| 1 <= j < |index| && index[j].key == PriceOf(k);
      PastPrice(k, p);
      if i > 0 { PastPrice(k, index[i].key); }
      if j > i + 1 { assert index[i + 1].key < index[j].key; }
      if 0 < j < i { assert index[j].key < index[i].key; }
    }
    NoneBetween(b, s, Past(p));
  }

  /** Totals of the offers at or below a price, by binary search. */
  method GetMetadata(index: seq<Indexed>, p: nat, ghost b: Book) returns (m: EndowAccumulator)
    requires IndexOk(index, b)
    ensures m == UpTo(b, p)
  {
    hide UpTo, IndexOk;
    Ordered(index, b);
    var start, end := 1, |index| - 1;
    if end <= 0 {
      EntryTotals(index, b, 0, p);
      return EndowAccumulator(0, 0);
    }
    if p >= index[end].key {
      EntryTotals(index, b, end, p);
      return index[end].metadata;
    }
    var mp := (end + start) / 2;
    while end != start
      invariant 1 <= start <= end < |index| && mp == (end + start) / 2
      invariant p < index[end].key && (start > 1 ==> index[start - 1].key <= p)
      decreases end - start
    {
      if p >= index[mp].key {
        start := mp + 1;
      } else {
        end := mp;
      }
      mp := (end + start) / 2;
    }
    EntryTotals(index, b, end - 1, p);
    return index[end - 1].metadata;
  }

  lemma Ordered(index: seq<Indexed>, b: Book)
    requires IndexOk(index, b)
    ensures |index| > 0 && index[0].metadata == EndowAccumulator(0, 0)
    ensures forall i, j :: 1 <= i < j < |index| ==> index[i].key < index[j].key
  {
  }

  // ---- prices ----

  /** The rate below which offers execute fully, and the rate up to which they execute. */
  function ExecutionPrices(sell: nat, buy: nat, smooth: nat): (nat, nat)
    requires buy > 0
  {
    var upper := ExchangeRate(sell, buy);
    (if smooth > 0 then LowerPrice(upper, smooth) else upper, upper)
  }

  function LowerPrice(upper: nat, smooth: nat): (p: nat)
    ensures p <= upper
  {
    upper - Halved(upper, smooth)
  }

  /** A number shifted right. */
  function Halved(x: nat, n: nat): (h: nat)
    ensures h <= x
  {
    if n == 0 then x else Halved(x, n - 1) / 2
  }

  // ---- volumes ----

  function Wrap(x: nat): (w: nat)
    ensures w < TWO_128
  {
    x % TWO_128
  }

  /** x times price over the price unit, in two halves so as not to overflow. */
  function WideMultiplySafe(x: nat, price: nat): nat {
    var upper, lower := Wrap(Times(x / TWO_64, price)), Wrap(Times(x % TWO_64, price));
    Wrap(Wrap(upper * TWO_40) + lower / PRICE_ONE)
  }

  lemma SplitCore(up: nat, lp: nat, whole: nat)
    requires whole == up * TWO_64 + lp && lp < TWO_128 && Div(whole, PRICE_ONE) < TWO_128
    ensures Wrap(Wrap(up * TWO_40) + lp / PRICE_ONE) == Div(whole, PRICE_ONE)
  {
    hide Div;
    var q := up * TWO_40 + lp / PRICE_ONE;
    assert lp == (lp / PRICE_ONE) * PRICE_ONE + lp % PRICE_ONE;
    QuotientIs(whole, PRICE_ONE, q);
  }

  lemma SplitWhole(u: nat, l: nat, price: nat)
    ensures (u * TWO_64 + l) * price == (u * price) * TWO_64 + l * price
  {
    Distribute(u * TWO_64, l, price);
    Swap(u, TWO_64, price);
  }

  /** The split product is the floor of the whole one whenever that fits. */
  lemma SplitProductExact(x: nat, price: nat)
    requires x < TWO_128 && price < TWO_64 && Div(Times(x, price), PRICE_ONE) < TWO_128
    ensures WideMultiplySafe(x, price) == Div(Times(x, price), PRICE_ONE)
  {
    hide Div, Wrap;
    var u, l := x / TWO_64, x % TWO_64;
    assert x == u * TWO_64 + l && u < TWO_64 && l < TWO_64;
    Products(u, price);
    Products(l, price);
    SplitWhole(u, l, price);
    WrapSmall(u * price);
    WrapSmall(l * price);
    SplitCore(u * price, l * price, x * price);
  }

  lemma WrapSmall(x: nat)
    requires x < TWO_128
    ensures Wrap(x) == x
  {
  }

  lemma Products(a: nat, b: nat)
    requires a < TWO_64 && b < TWO_64
    ensures a * b < TWO_128
  {
    MulMono(a, TWO_64, b);
    MulMono(b, TWO_64, TWO_64);
    Commute(TWO_64, b);
  }

  /** Traded volume times price; None where the source throws. */
  method VolumesTimesPrices(sell: nat, buy: nat, smooth: nat, partial: EndowAccumulator, full: EndowAccumulator)
    returns (volume: Option<nat>)
    requires full.endow <= partial.endow
    ensures volume == VolumeOf(sell, buy, smooth, partial, full)
    ensures Priced(sell, buy, smooth, partial, full) ==>
      volume == Some(TradeOf(sell, buy, smooth, full.endow, partial.endow - full.endow,
                             partial.endowTimesPrice - full.endowTimesPrice))
  {
    hide Div, WideMultiplySafe, Pow2, TradeOf, Times, Wrap;
    if Priced(sell, buy, smooth, partial, full) { VolumeExact(sell, buy, smooth, partial, full); }
    if full.endowTimesPrice > partial.endowTimesPrice { return None; }
    var partialEndow := partial.endow - full.endow;
    var partialValue := partial.endowTimesPrice - full.endowTimesPrice;
    var fullVolume := Wrap(Times(full.endow, sell));
    var partialVolume := 0;
    if smooth > 0 {
      var part1 := Wrap(Times(sell, partialEndow));
      var part2 := WideMultiplySafe(partialValue, buy);
      if part1 < part2 { return None; }
      partialVolume := Wrap(Times(part1 - part2, Pow2(smooth)));
    }
    volume := Some(Wrap(fullVolume + partialVolume));
  }

  function VolumeOf(sell: nat, buy: nat, smooth: nat, partial: EndowAccumulator, full: EndowAccumulator): Option<nat>
    requires full.endow <= partial.endow
  {
    if full.endowTimesPrice > partial.endowTimesPrice then None
    else
      var endow, value := partial.endow - full.endow, partial.endowTimesPrice - full.endowTimesPrice;
      var part1, part2 := Wrap(Times(sell, endow)), WideMultiplySafe(value, buy);
      if smooth > 0 && part1 < part2 then None
      else Some(Wrap(Wrap(Times(full.endow, sell))
        + (if smooth > 0 then Wrap(Times(part1 - part2, Pow2(smooth))) else 0)))
  }

  /** The volume in whole numbers: full offers trade all they sell, and those between the two
      rates trade in proportion to how far the rate is above their limit. */
  function ExactVolume(b: Book, sell: nat, buy: nat, smooth: nat): int
    requires buy > 0
  {
    var (low, high) := ExecutionPrices(sell, buy, smooth);
    var full, partial := UpTo(b, low), UpTo(b, high);
    PastMonotone(low, high);
    TotalsMonotone(b, Past(low), Past(high));
    TradeOf(sell, buy, smooth, full.endow, partial.endow - full.endow, partial.endowTimesPrice - full.endowTimesPrice)
  }

  /** Volume of an amount that trades in full, and of one that is worth this much at its
      limit prices and trades in part. */
  function TradeOf(sell: nat, buy: nat, smooth: nat, full: nat, endow: nat, value: nat): int {
    Times(full, sell)
      + (if smooth > 0 then Times(Times(sell, endow) - Div(Times(value, buy), PRICE_ONE), Pow2(smooth)) else 0)
  }

  lemma {:induction false} TotalsMonotone(b: Book, s: Key, t: Key)
    requires s <= t
    ensures EndowLt(b, s) <= EndowLt(b, t) && ValueLt(b, s) <= ValueLt(b, t)
  {
    hide PriceOf, Times;
    if s < t { TotalsMonotone(b, s, t - 1); }
  }

  /** Offers within a rate: what they sell at their limits is at most what it is worth at
      the rate. */
  lemma {:induction false} ValueWithin(b: Book, s: Key, t: Key, buy: nat, r: nat)
    requires s <= t && forall k :: s <= k < t && k in b ==> Times(PriceOf(k), buy) <= r
    ensures ValueLt(b, s) <= ValueLt(b, t) && EndowLt(b, s) <= EndowLt(b, t)
    ensures Times(ValueLt(b, t) - ValueLt(b, s), buy) <= Times(EndowLt(b, t) - EndowLt(b, s), r)
  {
    hide PriceOf, Times;
    TotalsMonotone(b, s, t);
    if s < t {
      ValueWithin(b, s, t - 1, buy, r);
      var a, p := AmountAt(b, t - 1), PriceOf(t - 1);
      var v, e: nat := ValueLt(b, t - 1) - ValueLt(b, s), EndowLt(b, t - 1) - EndowLt(b, s);
      if t - 1 in b { OneMore(v, e, a, p, buy, r); } else { TimesNone(p); }
      assert ValueLt(b, t) - ValueLt(b, s) == v + Times(a, p);
      assert EndowLt(b, t) - EndowLt(b, s) == e + a;
    } else {
      TimesZero(buy, r);
    }
  }

  lemma TimesNone(p: nat)
    ensures Times(0, p) == 0
  {
  }

  lemma TimesZero(x: nat, y: nat)
    ensures Times(0, x) <= Times(0, y)
  {
  }

  lemma OneMore(v: nat, e: nat, a: nat, p: nat, buy: nat, r: nat)
    requires Times(v, buy) <= Times(e, r) && Times(p, buy) <= r
    ensures Times(v + Times(a, p), buy) <= Times(e + a, r)
  {
    OfferWithinRate(a, p, buy, r);
    Distribute(v, a * p, buy);
    Distribute(e, a, r);
  }

  lemma OfferWithinRate(a: nat, p: nat, buy: nat, r: nat)
    requires p * buy <= r
    ensures (a * p) * buy <= a * r
  {
    Swap(a, p, buy);
    assert (a * p) * buy == a * (p * buy);
    MulMono(p * buy, r, a);
    Commute(a, p * buy);
    Commute(a, r);
  }

  /** A price within the rounded-down rate, times the buy price. */
  lemma RatePrice(sell: nat, buy: nat, p: nat)
    requires 0 < buy && p <= ExchangeRate(sell, buy)
    ensures Times(p, buy) <= sell * PRICE_ONE
  {
    hide Div, ExchangeRate;
    ExchangeRateFloor(sell, buy);
    DivBounds(sell * PRICE_ONE, buy);
    MulMono(p, Div(sell * PRICE_ONE, buy), buy);
  }

  /** What the callers guarantee: prices of 48 bits, and amounts that add up to 64 bits. */
  ghost predicate InRange(b: Book, sell: nat, buy: nat, smooth: nat) {
    && sell <= MAX_PRICE && 0 < buy <= MAX_PRICE && smooth <= MAX_SMOOTH
    && (forall k: Key :: EndowLt(b, k) < TWO_64) && forall k :: k in b ==> k < MAX_KEY
  }

  lemma PriceSmall(sell: nat, endow: nat)
    requires sell <= MAX_PRICE && endow < TWO_64
    ensures sell * endow <= 0xFFFF_FFFF_FFFF * 0xFFFF_FFFF_FFFF_FFFF
  {
    MulMono(sell, MAX_PRICE, endow);
    MulMono(endow, TWO_64 - 1, MAX_PRICE);
    Commute(MAX_PRICE, endow);
  }

  lemma SmoothPower(smooth: nat)
    requires smooth <= MAX_SMOOTH
    ensures 1 <= Pow2(smooth) <= 0x8000
  {
    assert Pow2(15) == 0x8000;
    PowMonotone(smooth, 15);
    PowMonotone(0, smooth);
  }

  lemma {:induction false} PowMonotone(m: nat, n: nat)
    requires m <= n
    ensures Pow2(m) <= Pow2(n)
  {
    if m < n { PowMonotone(m, n - 1); }
  }

  /** The floors and products of a query fit in 128 bits. */
  lemma VolumeFits(sell: nat, endow: nat, full: nat, part2: nat, smooth: nat)
    requires sell <= MAX_PRICE && endow + full < TWO_64 && smooth <= MAX_SMOOTH && part2 <= Times(sell, endow)
    ensures Times(full, sell) < TWO_128 && Times(sell, endow) < TWO_128
    ensures Times(Times(sell, endow) - part2, Pow2(smooth)) < TWO_128
    ensures Times(full, sell) + Times(Times(sell, endow) - part2, Pow2(smooth)) < TWO_128
  {
    PriceSmall(sell, endow);
    PriceSmall(sell, full);
    Commute(sell, full);
    SmoothPower(smooth);
    var x: nat := sell * endow - part2;
    MulMono(Pow2(smooth), 0x8000, x);
    Commute(Pow2(smooth), x);
  }

  /** The totals between the two rates: in order, worth no more than the rate, and within
      the largest price. */
  lemma BetweenRates(b: Book, sell: nat, buy: nat, low: nat, high: nat)
    requires 0 < buy && low <= high == ExchangeRate(sell, buy)
    requires forall k :: k in b ==> k < MAX_KEY
    ensures UpTo(b, low).endow <= UpTo(b, high).endow && UpTo(b, low).endowTimesPrice <= UpTo(b, high).endowTimesPrice
    ensures Times(UpTo(b, high).endowTimesPrice - UpTo(b, low).endowTimesPrice, buy)
      <= Times(UpTo(b, high).endow - UpTo(b, low).endow, sell * PRICE_ONE)
    ensures Times(UpTo(b, high).endowTimesPrice - UpTo(b, low).endowTimesPrice, 1)
      <= Times(UpTo(b, high).endow - UpTo(b, low).endow, MAX_PRICE)
  {
    hide ExchangeRate, PriceOf, Times, Past;
    PastMonotone(low, high);
    forall k | Past(low) <= k < Past(high) && k in b
      ensures Times(PriceOf(k), buy) <= sell * PRICE_ONE && Times(PriceOf(k), 1) <= MAX_PRICE
    {
      PastPrice(k, high);
      RatePrice(sell, buy, PriceOf(k));
      TopPrice(k);
    }
    ValueWithin(b, Past(low), Past(high), buy, sell * PRICE_ONE);
    ValueWithin(b, Past(low), Past(high), 1, MAX_PRICE);
  }

  lemma TopPrice(k: Key)
    requires k < MAX_KEY
    ensures Times(PriceOf(k), 1) <= MAX_PRICE
  {
  }

  /** A demand query on totals taken at the two rates never throws, and is the exact sum
      over the offers. */
  lemma DemandExact(b: Book, sell: nat, buy: nat, smooth: nat)
    requires InRange(b, sell, buy, smooth)
    ensures var (low, high) := ExecutionPrices(sell, buy, smooth);
      && UpTo(b, low).endow <= UpTo(b, high).endow
      && var v := VolumeOf(sell, buy, smooth, UpTo(b, high), UpTo(b, low));
         v.Some? && v.value == ExactVolume(b, sell, buy, smooth)
  {
    hide Div, ExchangeRate, WideMultiplySafe, Pow2, UpTo, Times, VolumeOf, TradeOf;
    var (low, high) := ExecutionPrices(sell, buy, smooth);
    BetweenRates(b, sell, buy, low, high);
    SmallTotals(b, high);
    VolumeExact(sell, buy, smooth, UpTo(b, high), UpTo(b, low));
  }

  lemma SmallTotals(b: Book, p: nat)
    requires forall k: Key :: EndowLt(b, k) < TWO_64
    ensures UpTo(b, p).endow < TWO_64
  {
  }

  /** Totals of offers within the rate: worth at their limits no more than at the rate, and
      no more than at the largest price. */
  ghost predicate Priced(sell: nat, buy: nat, smooth: nat, partial: EndowAccumulator, full: EndowAccumulator) {
    && sell <= MAX_PRICE && 0 < buy <= MAX_PRICE && smooth <= MAX_SMOOTH
    && full.endow <= partial.endow < TWO_64 && full.endowTimesPrice <= partial.endowTimesPrice
    && Times(partial.endowTimesPrice - full.endowTimesPrice, buy)
         <= Times(partial.endow - full.endow, sell * PRICE_ONE)
    && Times(partial.endowTimesPrice - full.endowTimesPrice, 1) <= Times(partial.endow - full.endow, MAX_PRICE)
  }

  lemma VolumeExact(sell: nat, buy: nat, smooth: nat, partial: EndowAccumulator, full: EndowAccumulator)
    requires Priced(sell, buy, smooth, partial, full)
    ensures var v := VolumeOf(sell, buy, smooth, partial, full);
      && v.Some?
      && v.value == TradeOf(sell, buy, smooth, full.endow, partial.endow - full.endow,
                            partial.endowTimesPrice - full.endowTimesPrice)
  {
    hide Div, WideMultiplySafe, Pow2, Wrap, Times;
    var endow: nat := partial.endow - full.endow;
    var value: nat := partial.endowTimesPrice - full.endowTimesPrice;
    PartWithin(sell, buy, endow, value);
    var part2 := Div(Times(value, buy), PRICE_ONE);
    VolumeFits(sell, endow, full.endow, part2, smooth);
    WrapSmall(Times(sell, endow));
    WrapSmall(Times(full.endow, sell));
    var rest := Times(Times(sell, endow) - part2, Pow2(smooth));
    WrapSmall(rest);
    WrapSmall(Times(full.endow, sell) + (if smooth > 0 then rest else 0));
  }

  /** The second part is exact and at most the first. */
  lemma PartWithin(sell: nat, buy: nat, endow: nat, value: nat)
    requires sell <= MAX_PRICE && 0 < buy <= MAX_PRICE && endow < TWO_64
    requires Times(value, buy) <= Times(endow, sell * PRICE_ONE) && Times(value, 1) <= Times(endow, MAX_PRICE)
    ensures WideMultiplySafe(value, buy) == Div(Times(value, buy), PRICE_ONE) <= Times(sell, endow)
  {
    hide Div, WideMultiplySafe, Times;
    SmallProduct(sell, endow);
    FloorWithin(Times(value, buy), sell, endow);
    SmallValue(value, endow);
    SplitProductExact(value, buy);
  }

  lemma SmallProduct(sell: nat, endow: nat)
    requires sell <= MAX_PRICE && endow < TWO_64
    ensures Times(sell, endow) < TWO_128
  {
    PriceSmall(sell, endow);
  }

  lemma FloorWithin(x: nat, sell: nat, endow: nat)
    requires x <= Times(endow, sell * PRICE_ONE)
    ensures Div(x, PRICE_ONE) <= Times(sell, endow)
  {
    TimesUnits(sell, endow);
  }

  lemma TimesUnits(sell: nat, endow: nat)
    ensures Times(endow, sell * PRICE_ONE) == Times(sell, endow) * PRICE_ONE
  {
    Swap(sell, endow, PRICE_ONE);
    Commute(endow, sell * PRICE_ONE);
    Swap(sell, PRICE_ONE, endow);
  }

  lemma SmallValue(value: nat, endow: nat)
    requires Times(value, 1) <= Times(endow, MAX_PRICE) && endow < TWO_64
    ensures value < TWO_128
  {
  }

  /** The query itself: two searches and the volumes. */
  method DemandTimesPrices(index: seq<Indexed>, sell: nat, buy: nat, smooth: nat, ghost b: Book)
    returns (volume: Option<nat>)
    requires IndexOk(index, b) && InRange(b, sell, buy, smooth)
    ensures volume.Some? && volume.value == ExactVolume(b, sell, buy, smooth)
  {
    hide IndexOk, InRange, UpTo, VolumeOf, ExactVolume;
    DemandExact(b, sell, buy, smooth);
    PositiveBuy(b, sell, buy, smooth);
    var (fullP, partialP) := ExecutionPrices(sell, buy, smooth);
    var partial := GetMetadata(index, partialP, b);
    var full := partial;
    if smooth > 0 { full := GetMetadata(index, fullP, b); }
    volume := VolumesTimesPrices(sell, buy, smooth, partial, full);
  }

  lemma PositiveBuy(b: Book, sell: nat, buy: nat, smooth: nat)
    requires InRange(b, sell, buy, smooth)
    ensures buy > 0
  {
  }

  // ---- the largest feasible smoothing ----

  const UNLIMITED: nat := 255

  /** The least price at which the offers up to it amount to more than this. */
  ghost predicate IsThreshold(b: Book, amount: nat, p: nat) {
    UpTo(b, p).endow > amount && forall q: nat :: q < p ==> UpTo(b, q).endow <= amount
  }

  lemma UpToMonotone(b: Book, p: nat, q: nat)
    requires p <= q
    ensures UpTo(b, p).endow <= UpTo(b, q).endow
  {
    PastMonotone(p, q);
    TotalsMonotone(b, Past(p), Past(q));
  }

  /** Below the first entry that exceeds the amount, no price does. */
  lemma EntryThreshold(index: seq<Indexed>, b: Book, amount: nat, i: nat)
    requires IndexOk(index, b) && 1 <= i <= |index|
    requires i < |index| ==> index[i].metadata.endow > amount
    requires forall j :: 1 <= j < i ==> index[j].metadata.endow <= amount
    ensures if i < |index| then IsThreshold(b, amount, index[i].key) else forall q: nat :: UpTo(b, q).endow <= amount
  {
    hide UpTo;
    forall q: nat | i == |index| || q < index[i].key ensures UpTo(b, q).endow <= amount {
      BelowEntry(index, b, amount, i, q);
    }
  }

  lemma BelowEntry(index: seq<Indexed>, b: Book, amount: nat, i: nat, q: nat)
    requires IndexOk(index, b) && 1 <= i <= |index| && (i == |index| || q < index[i].key)
    requires forall j :: 1 <= j < i ==> index[j].metadata.endow <= amount
    ensures UpTo(b, q).endow <= amount
  {
    hide UpTo;
    if i == 1 || index[i - 1].key <= q {
      EntryTotals(index, b, i - 1, q);
    } else {
      BelowEntry(index, b, amount, i - 1, q);
    }
  }

  /** The search for the threshold among the entries. */
  method Threshold(index: seq<Indexed>, amount: nat, ghost b: Book) returns (p: Option<nat>)
    requires IndexOk(index, b)
    ensures p.Some? ==> IsThreshold(b, amount, p.value)
    ensures p.None? ==> forall q: nat :: UpTo(b, q).endow <= amount
  {
    hide UpTo, IsThreshold, HasPrice;
    EndowsOrdered(index, b);
    var start, end := 1, |index| - 1;
    if end <= 0 || amount > index[end].metadata.endow {
      EntryThreshold(index, b, amount, |index|);
      return None;
    }
    var mp := (end + start) / 2;
    while end != start
      invariant 1 <= start <= end < |index| && mp == (end + start) / 2
      invariant forall j :: 1 <= j < start ==> index[j].metadata.endow <= amount
      invariant end + 1 < |index| ==> index[end].metadata.endow > amount
      decreases end - start
    {
      if amount >= index[mp].metadata.endow {
        start := mp + 1;
      } else {
        end := mp;
      }
      mp := (start + end) / 2;
    }
    if index[end].metadata.endow > amount {
      EntryThreshold(index, b, amount, end);
      return Some(index[end].key);
    }
    // Only the last entry can be left without exceeding the amount.
    assert end + 1 == |index|;
    EntryThreshold(index, b, amount, |index|);
    return None;
  }

  lemma EndowsOrdered(index: seq<Indexed>, b: Book)
    requires IndexOk(index, b)
    ensures forall i, j :: 1 <= i < j < |index| ==> index[i].metadata.endow <= index[j].metadata.endow
  {
    hide UpTo;
    forall i, j | 1 <= i < j < |index| ensures index[i].metadata.endow <= index[j].metadata.endow {
      UpToMonotone(b, index[i].key, index[j].key);
    }
  }

  /** The answer m for a rate, when the threshold is at p. */
  ghost predicate IsSmoothing(rate: nat, p: nat, m: nat) {
    p < rate && Halved(rate, m + 1) < rate - p <= Halved(rate, m)
  }

  /** How strongly prices can be smoothed with this supply: 255 stands for no limit. */
  method MaxFeasibleSmoothMult(index: seq<Indexed>, amount: nat, sell: nat, buy: nat, ghost b: Book)
    returns (m: nat)
    requires IndexOk(index, b) && buy > 0
    ensures var rate := ExchangeRate(sell, buy);
      if m == UNLIMITED then forall q: nat :: q < rate ==> UpTo(b, q).endow <= amount
      else m < 64 && exists p: nat :: IsThreshold(b, amount, p) && IsSmoothing(rate, p, m)
    ensures Feasible(b, amount, sell, buy, m) <==> Attained(b, amount, ExchangeRate(sell, buy), m)
  {
    hide UpTo, IndexOk, ExchangeRate, Feasible, Attained;
    var rate := ExchangeRate(sell, buy);
    RateFits(sell, buy);
    var found := Threshold(index, amount, b);
    if found.None? || rate <= found.value {
      UnlimitedExact(b, amount, sell, buy);
      return UNLIMITED;
    }
    var maxActivated := found.value;
    var difference := rate - maxActivated;
    var out := 0;
    while difference <= Halved(rate, out)
      invariant out <= 64 && (out > 0 ==> difference <= Halved(rate, out - 1))
      decreases 64 - out
    {
      HalvedSmall(rate, out);
      out := out + 1;
    }
    m := out - 1;
    SmoothingExact(b, amount, sell, buy, maxActivated, m);
  }

  lemma RateFits(sell: nat, buy: nat)
    requires buy > 0
    ensures ExchangeRate(sell, buy) < TWO_64
  {
  }

  lemma {:induction false} HalvedBound(x: nat, n: nat)
    ensures Halved(x, n) > 0 ==> x >= Pow2(n)
    decreases n
  {
    if n > 0 {
      HalvedHead(x, n);
      HalvedBound(x / 2, n - 1);
    }
  }

  lemma {:induction false} HalvedHead(x: nat, n: nat)
    requires n > 0
    ensures Halved(x, n) == Halved(x / 2, n - 1)
    decreases n
  {
    if n > 1 { HalvedHead(x, n - 1); }
  }

  lemma {:induction false} PowSum(m: nat, n: nat)
    ensures Pow2(m + n) == Pow2(m) * Pow2(n)
  {
    if n > 0 {
      PowSum(m, n - 1);
      assert Pow2(m + n) == 2 * Pow2(m + n - 1) && Pow2(n) == 2 * Pow2(n - 1);
      Swap(Pow2(m), Pow2(n - 1), 2);
    }
  }

  lemma PowDouble(n: nat, v: nat)
    requires Pow2(n) == v
    ensures Pow2(n + n) == v * v
  {
    PowSum(n, n);
  }

  lemma Pow64()
    ensures Pow2(64) == TWO_64
  {
    assert Pow2(4) == 0x10;
    hide Pow2;
    PowDouble(4, 0x10);
    PowDouble(8, 0x100);
    PowDouble(16, 0x1_0000);
    PowDouble(32, 0x1_0000_0000);
  }

  lemma HalvedSmall(x: nat, n: nat)
    requires x < TWO_64 && Halved(x, n) > 0
    ensures n < 64
  {
    HalvedBound(x, n);
    if n >= 64 {
      PowMonotone(64, n);
      Pow64();
    }
  }

  lemma {:induction false} HalvedLess(x: nat, m: nat, n: nat)
    requires m <= n
    ensures Halved(x, n) <= Halved(x, m) && (m < n && Halved(x, n) > 0 ==> Halved(x, n) < Halved(x, m))
    decreases n
  {
    if m < n { HalvedLess(x, m, n - 1); }
  }

  /** The supply that must sell at this smoothing is within the amount. */
  ghost predicate Feasible(b: Book, amount: nat, sell: nat, buy: nat, m: nat)
    requires buy > 0
  {
    UpTo(b, ExecutionPrices(sell, buy, m).0).endow <= amount
  }

  /** A smoothing is feasible exactly when it is not zero and moves the lower rate below a
      threshold within the rate. */
  lemma FeasibleBelow(b: Book, amount: nat, sell: nat, buy: nat, p: nat, m: nat)
    requires buy > 0 && IsThreshold(b, amount, p) && p <= ExchangeRate(sell, buy)
    ensures var rate := ExchangeRate(sell, buy);
      Feasible(b, amount, sell, buy, m) <==> m > 0 && Halved(rate, m) > rate - p
  {
    hide UpTo, ExchangeRate;
    var low := ExecutionPrices(sell, buy, m).0;
    if low >= p { UpToMonotone(b, p, low); }
  }

  /** What makes the answer m feasible: for no limit, that all supply up to the rate fits; for
      another, that the distance from the rate to the threshold is at most half the rate and
      no halving of it. */
  ghost predicate Attained(b: Book, amount: nat, rate: nat, m: nat) {
    if m == UNLIMITED then UpTo(b, rate).endow <= amount
    else exists p: nat :: IsThreshold(b, amount, p) && Reaches(rate, p)
  }

  ghost predicate Reaches(rate: nat, p: nat) {
    && p <= rate && rate - p <= Halved(rate, 1)
    && forall n: nat :: Halved(rate, n) != rate - p
  }

  lemma ThresholdUnique(b: Book, amount: nat, p: nat, q: nat)
    requires IsThreshold(b, amount, p) && IsThreshold(b, amount, q)
    ensures p == q
  {
    hide UpTo;
  }

  /** The answer is feasible exactly when the distance from the rate to the threshold is at most
      half the rate and no halving of it. Every smaller factor but zero is feasible, zero is
      not, and no larger one is. */
  lemma SmoothingExact(b: Book, amount: nat, sell: nat, buy: nat, p: nat, m: nat)
    requires buy > 0 && IsThreshold(b, amount, p) && IsSmoothing(ExchangeRate(sell, buy), p, m)
    ensures Feasible(b, amount, sell, buy, m) <==> Reaches(ExchangeRate(sell, buy), p)
    ensures m != UNLIMITED ==>
      (Feasible(b, amount, sell, buy, m) <==> Attained(b, amount, ExchangeRate(sell, buy), m))
    ensures forall n: nat :: 0 < n < m ==> Feasible(b, amount, sell, buy, n)
    ensures forall n: nat :: n == 0 || n > m ==> !Feasible(b, amount, sell, buy, n)
  {
    hide UpTo, IsThreshold, Feasible, ExchangeRate;
    var rate := ExchangeRate(sell, buy);
    FeasibleBelow(b, amount, sell, buy, p, m);
    if m > 0 { HalvedLess(rate, 1, m); }
    forall n: nat | Halved(rate, m) > rate - p ensures Halved(rate, n) != rate - p {
      if n <= m { HalvedLess(rate, n, m); } else { HalvedLess(rate, m + 1, n); }
    }
    forall q: nat | IsThreshold(b, amount, q) ensures q == p {
      ThresholdUnique(b, amount, p, q);
    }
    forall n: nat | 0 < n < m ensures Feasible(b, amount, sell, buy, n) {
      FeasibleBelow(b, amount, sell, buy, p, n);
      HalvedLess(rate, n, m);
    }
    forall n: nat | n == 0 || n > m ensures !Feasible(b, amount, sell, buy, n) {
      FeasibleBelow(b, amount, sell, buy, p, n);
      if n > m { HalvedLess(rate, m + 1, n); }
    }
  }

  /** When no price below the rate exceeds the amount, every factor is feasible if the supply up
      to the rate fits too; if not, those are that still take something off the rate, and the
      answer 255 is none of them. */
  lemma UnlimitedExact(b: Book, amount: nat, sell: nat, buy: nat)
    requires buy > 0 && forall q: nat :: q < ExchangeRate(sell, buy) ==> UpTo(b, q).endow <= amount
    ensures var rate := ExchangeRate(sell, buy);
      && (forall n: nat ::
            Feasible(b, amount, sell, buy, n) <==> UpTo(b, rate).endow <= amount || (n > 0 && Halved(rate, n) > 0))
      && (Feasible(b, amount, sell, buy, UNLIMITED) <==> Attained(b, amount, rate, UNLIMITED))
  {
    hide UpTo, ExchangeRate;
    var rate := ExchangeRate(sell, buy);
    RateFits(sell, buy);
    if Halved(rate, UNLIMITED) > 0 { HalvedSmall(rate, UNLIMITED); }
  }

  lemma HalvedTwice(x: nat)
    ensures Halved(x, 1) == x / 2 && Halved(x, 2) == x / 2 / 2
  {
    assert Halved(x, 1) == Halved(x, 0) / 2;
  }

  lemma OneOffer(k: Key)
    ensures EndowLt(map[k := 1], k + 1) >= 1
  {
    assert AmountAt(map[k := 1], k) == 1;
  }

  /** One offer at price one: with no supply to spare the threshold is there. */
  lemma OneThreshold()
    ensures IsThreshold(map[PRICE_ONE * PRICE_SPAN := 1], 0, PRICE_ONE)
  {
    var k := PRICE_ONE * PRICE_SPAN;
    var b: Book := map[k := 1];
    OneOffer(k);
    TotalsMonotone(b, k + 1, Past(PRICE_ONE));
    forall q: nat | q < PRICE_ONE ensures UpTo(b, q).endow <= 0 {
      PastMonotone(q, PRICE_ONE - 1);
      NoneBetween(b, 0, Past(q));
    }
  }

  /** Three answers that are not feasible for this book: at a rate of two the threshold is met
      with equality, at a rate of four it is further away than any factor but zero goes, which
      takes nothing off the rate, and at a rate of one it is the rate itself. */
  lemma SmoothingCanOvershoot()
    ensures var b: Book := map[PRICE_ONE * PRICE_SPAN := 1];
      && IsThreshold(b, 0, PRICE_ONE)
      && IsSmoothing(ExchangeRate(2, 1), PRICE_ONE, 1) && !Feasible(b, 0, 2, 1, 1)
      && IsSmoothing(ExchangeRate(4, 1), PRICE_ONE, 0) && !Feasible(b, 0, 4, 1, 0)
      && (forall q: nat :: q < ExchangeRate(1, 1) ==> UpTo(b, q).endow <= 0) && !Feasible(b, 0, 1, 1, UNLIMITED)
  {
    hide UpTo, IsThreshold, Feasible;
    var b: Book := map[PRICE_ONE * PRICE_SPAN := 1];
    OneThreshold();
    assert ExchangeRate(1, 1) == PRICE_ONE && ExchangeRate(2, 1) == 2 * PRICE_ONE;
    assert ExchangeRate(4, 1) == 4 * PRICE_ONE;
    HalvedTwice(2 * PRICE_ONE);
    HalvedTwice(4 * PRICE_ONE);
    FeasibleBelow(b, 0, 2, 1, PRICE_ONE, 1);
    FeasibleBelow(b, 0, 4, 1, PRICE_ONE, 0);
    FeasibleBelow(b, 0, 1, 1, PRICE_ONE, UNLIMITED);
    if Halved(PRICE_ONE, UNLIMITED) > 0 { HalvedSmall(PRICE_ONE, UNLIMITED); }
    assert forall q: nat :: q < PRICE_ONE ==> UpTo(b, q).endow <= 0 by { ThresholdMeans(b, 0, PRICE_ONE); }
  }

  lemma ThresholdMeans(b: Book, amount: nat, p: nat)
    requires IsThreshold(b, amount, p)
    ensures forall q: nat :: q < p ==> UpTo(b, q).endow <= amount
  {
    hide UpTo;
  }
}
