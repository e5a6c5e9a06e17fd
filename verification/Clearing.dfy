/** Clearing one orderbook, as functions of the book: the producer splits it by
    endowment, the validator by the committed threshold key, and both come to the
    same book, the same cleared offers and the same payments. */
module Clearing {
  import opened Persistence
  import opened Pricing

  /** A book maps the trie key of an offer to its amount. */
  type Book = map<Key, nat>

  const OWNER_SPAN: nat := TWO_64

  function OwnerOf(k: Key): nat { (k / OWNER_SPAN) % OWNER_SPAN }

  /** Open offers have an amount, and a key of positive price below the all-ones key. */
  ghost predicate LiveBook(b: Book) {
    forall k :: k in b ==> b[k] > 0 && 0 < PriceOf(k) && k < MAX_KEY
  }

  function AmountAt(b: Book, k: Key): nat {
    if k in b then b[k] else 0
  }

  /** Total amount for sale strictly below a key. */
  function EndowLt(b: Book, k: Key): nat {
    if k == 0 then 0 else EndowLt(b, k - 1) + AmountAt(b, k - 1)
  }

  function Total(b: Book): nat { EndowLt(b, MAX_KEY) }

  function Below(b: Book, t: Key): Book { map k | k in b && k < t :: b[k] }

  /** The longest key-order prefix of the book with total at most x. */
  function Split(b: Book, x: nat): Book { map k | k in b && EndowLt(b, k + 1) <= x :: b[k] }

  function Minus(b: Book, c: Book): Book { map k | k in b && k !in c :: b[k] }

  ghost predicate IsLowest(b: Book, t: Key) {
    t in b && forall k :: k in b ==> t <= k
  }

  lemma {:induction false} LowestExists(b: Book, bound: Key)
    requires exists k :: k in b && k < bound
    ensures exists t :: IsLowest(b, t)
  {
    if exists k :: k in b && k < bound - 1 {
      LowestExists(b, bound - 1);
    } else {
      var k :| k in b && k < bound;
      assert IsLowest(b, k);
    }
  }

  ghost function Lowest(b: Book): (t: Key)
    requires b != map[]
    ensures IsLowest(b, t)
  {
    var k :| k in b;
    LowestExists(b, k + 1);
    var t :| IsLowest(b, t);
    t
  }

  // ---- sums in key order ----

  lemma {:induction false} EndowMonotone(b: Book, j: Key, k: Key)
    requires j <= k
    ensures EndowLt(b, j) <= EndowLt(b, k)
  {
    if j < k { EndowMonotone(b, j, k - 1); }
  }

  lemma {:induction false} EndowAgrees(a: Book, b: Book, k: Key)
    requires forall j: Key :: j < k ==> AmountAt(a, j) == AmountAt(b, j)
    ensures EndowLt(a, k) == EndowLt(b, k)
  {
    if k > 0 { EndowAgrees(a, b, k - 1); }
  }

  lemma {:induction false} EndowUnion(a: Book, b: Book, k: Key)
    requires a.Keys !! b.Keys
    ensures EndowLt(a + b, k) == EndowLt(a, k) + EndowLt(b, k)
  {
    if k > 0 { EndowUnion(a, b, k - 1); }
  }

  lemma {:induction false} EndowAbove(b: Book, t: Key, k: Key)
    requires t <= k && forall j :: j in b ==> j < t
    ensures EndowLt(b, k) == EndowLt(b, t)
  {
    if t < k { EndowAbove(b, t, k - 1); }
  }

  lemma EndowBelow(b: Book, t: Key, k: Key)
    requires t <= k
    ensures EndowLt(Below(b, t), k) == EndowLt(b, t)
  {
    EndowAgrees(Below(b, t), b, t);
    EndowAbove(Below(b, t), t, k);
  }

  /** If every offer below t is within x, so is their total. */
  lemma {:induction false} PrefixWithin(b: Book, x: nat, t: Key)
    requires forall k :: k in b && k < t ==> EndowLt(b, k + 1) <= x
    ensures EndowLt(b, t) <= x
  {
    if t > 0 && t - 1 !in b { PrefixWithin(b, x, t - 1); }
  }

  /** What is left of a split starts at the first offer that would exceed x. */
  lemma SplitAtLowest(b: Book, x: nat)
    requires LiveBook(b)
    ensures Minus(b, Split(b, x)) == map[] ==> Split(b, x) == b && Total(b) <= x
    ensures Minus(b, Split(b, x)) != map[] ==>
      var t := Lowest(Minus(b, Split(b, x)));
      && t in b && Split(b, x) == Below(b, t)
      && EndowLt(b, t) <= x < EndowLt(b, t) + b[t]
  {
    var rest := Minus(b, Split(b, x));
    if rest == map[] {
      forall k | k in b ensures k in Split(b, x) {
        assert k in Split(b, x) || k in rest;
      }
      PrefixWithin(b, x, MAX_KEY);
    } else {
      var t := Lowest(rest);
      forall k | k in b ensures k in Split(b, x) <==> k < t {
        if k < t {
          assert k in Split(b, x) || k in rest;
        } else {
          EndowMonotone(b, t + 1, k + 1);
        }
      }
      PrefixWithin(b, x, t);
    }
  }

  /** Splitting by the total below a key is splitting at that key. */
  lemma SplitByEndow(b: Book, t: Key)
    requires LiveBook(b)
    ensures Split(b, EndowLt(b, t)) == Below(b, t)
  {
    forall k | k in b ensures k in Split(b, EndowLt(b, t)) <==> k < t {
      if k < t {
        EndowMonotone(b, k + 1, t);
      } else {
        EndowMonotone(b, t, k);
      }
    }
  }

  // ---- payments ----

  datatype Rates = Rates(sell: nat, buy: nat, taxRate: nat)

  function FullPay(r: Rates, amount: nat): nat
    requires r.buy > 0
  {
    TaxAndRound(WideMultiply(FromIntegral(amount), r.sell, r.buy), r.taxRate)
  }

  function PartialPay(r: Rates, remaining: nat): nat
    requires r.buy > 0
  {
    TaxAndRound(WideMultiply(remaining, r.sell, r.buy), r.taxRate)
  }

  function PayAt(r: Rates, cleared: Book, owner: nat, k: Key): nat
    requires r.buy > 0
  {
    if k in cleared && OwnerOf(k) == owner then FullPay(r, cleared[k]) else 0
  }

  /** What an owner is paid for the cleared offers below a key. */
  function Credit(r: Rates, cleared: Book, owner: nat, k: Key): nat
    requires r.buy > 0
  {
    if k == 0 then 0 else Credit(r, cleared, owner, k - 1) + PayAt(r, cleared, owner, k - 1)
  }

  lemma {:induction false} CreditUnion(r: Rates, a: Book, b: Book, owner: nat, k: Key)
    requires r.buy > 0 && a.Keys !! b.Keys
    ensures Credit(r, a + b, owner, k) == Credit(r, a, owner, k) + Credit(r, b, owner, k)
  {
    if k > 0 { CreditUnion(r, a, b, owner, k - 1); }
  }

  lemma {:induction false} CreditOne(r: Rates, key: Key, amount: nat, owner: nat, k: Key)
    requires r.buy > 0
    ensures Credit(r, map[key := amount], owner, k) ==
      if key < k && OwnerOf(key) == owner then FullPay(r, amount) else 0
  {
    if k > 0 { CreditOne(r, key, amount, owner, k - 1); }
  }

  lemma {:induction false} CreditNone(r: Rates, owner: nat, k: Key)
    requires r.buy > 0
    ensures Credit(r, map[], owner, k) == 0
  {
    if k > 0 { CreditNone(r, owner, k - 1); }
  }

  // ---- the outcome of clearing ----

  /** What is left of the book, what cleared in full, and the offer that clears in part
      with the fractional amount left to clear. */
  datatype Outcome = Outcome(book: Book, cleared: Book, existsPartial: bool, partialKey: Key, remaining: nat)

  /** Take the sold part off the partially executed offer; a sold-out offer goes. */
  function Shrink(b: Book, t: Key, sold: nat): Book
    requires t in b && sold <= b[t]
  {
    if sold == b[t] then b - {t} else b[t := b[t] - sold]
  }

  /** The lowest key not fully cleared takes the rest of the activated supply. */
  ghost function Produced(b: Book, supply: nat): Outcome
    requires LiveBook(b)
  {
    var cleared := Split(b, Floor(supply));
    var rest := Minus(b, cleared);
    if rest == map[] then Outcome(map[], b, false, 0, 0)
    else
      var t := Lowest(rest);
      SplitAtLowest(b, Floor(supply));
      var remaining := supply - FromIntegral(EndowLt(b, t));
      CeilFits(supply, EndowLt(b, t), b[t]);
      Outcome(Shrink(rest, t, Ceil(remaining)), cleared, true, t, remaining)
  }

  /** If the floor of the supply falls inside an offer, so does the ceiling of its rest,
      and the whole deducted amount is the ceiling of the supply. */
  lemma CeilFits(supply: nat, below: nat, amount: nat)
    requires below <= Floor(supply) < below + amount
    ensures FromIntegral(below) <= supply
    ensures Ceil(supply - FromIntegral(below)) <= amount
    ensures below + Ceil(supply - FromIntegral(below)) == Ceil(supply)
  {
    var rest := supply - below * FRACTION_ONE;
    assert supply == Floor(supply) * FRACTION_ONE + supply % FRACTION_ONE;
    assert rest / FRACTION_ONE == Floor(supply) - below && rest % FRACTION_ONE == supply % FRACTION_ONE;
  }

  /** What the producer writes into the block header. */
  datatype Commitment = Commitment(supply: nat, partialAmount: nat, thresholdKey: Key, isNull: bool)

  function CommitmentOf(o: Outcome, supply: nat): Commitment {
    Commitment(supply, o.remaining, o.partialKey, !o.existsPartial)
  }

  /** The new offers the validator clears the moment they arrive. */
  function OnArrival(news: Book, com: Commitment): Book {
    map k | k in news && (com.isNull || k < com.thresholdKey) :: news[k]
  }

  /** Validation fails, or has this outcome and total of fully cleared offers. */
  datatype Validation = Rejected | Accepted(outcome: Outcome, activated: nat)

  /** The validator's clearing of the book it has once the arrivals are in. */
  function Validated(b: Book, com: Commitment, arrived: nat): Validation {
    var below := EndowLt(b, com.thresholdKey);
    if com.thresholdKey !in b then
      if com.thresholdKey != 0 || com.partialAmount != 0 then Rejected
      else Accepted(Outcome(map[], b, false, 0, 0), arrived + FromIntegral(below) + FromIntegral(Total(b)))
    else if Ceil(com.partialAmount) > b[com.thresholdKey] then Rejected
    else
      var cleared := Split(b - {com.thresholdKey}, below);
      Accepted(Outcome(Shrink(Minus(b, cleared), com.thresholdKey, Ceil(com.partialAmount)), cleared, true,
                       com.thresholdKey, com.partialAmount),
               arrived + FromIntegral(below))
  }

  /** The header check: the cleared total and the partial amount make up the supply, and
      the null flag is set exactly with the zero key. */
  predicate CheckStats(com: Commitment, activated: nat) {
    && activated + com.partialAmount == com.supply
    && (if com.thresholdKey != 0 then !com.isNull else com.isNull)
  }

  // ---- producer and validator agree ----

  /** The supply the price computation activates is at most what the prices allow. */
  ghost predicate SupplyAllowed(b: Book, supply: nat, rate: nat) {
    supply <= FromIntegral(EndowLt(b, (rate + 1) * PRICE_SPAN))
  }

  lemma PriceBelow(k: Key, rate: nat)
    ensures k < (rate + 1) * PRICE_SPAN <==> PriceOf(k) <= rate
  {
  }

  /** With no more supply than the rate allows, every offer that trades, in full or in
      part, asks at most the rate; and nothing is left over once the book is empty. */
  lemma TradesWithinRate(b: Book, supply: nat, rate: nat)
    requires LiveBook(b) && SupplyAllowed(b, supply, rate)
    ensures var o := Produced(b, supply);
      && (forall k :: k in o.cleared ==> PriceOf(k) <= rate)
      && (o.existsPartial && o.remaining > 0 ==> PriceOf(o.partialKey) <= rate)
      && (!o.existsPartial ==> supply == FromIntegral(Total(b)))
  {
    var x, top := Floor(supply), (rate + 1) * PRICE_SPAN;
    SplitAtLowest(b, x);
    forall k | k in b && EndowLt(b, k + 1) <= x ensures PriceOf(k) <= rate {
      OfferWithin(b, supply, rate, k);
    }
    var rest := Minus(b, Split(b, x));
    if rest == map[] {
      EndowAtTop(b, top);
    } else {
      var t := Lowest(rest);
      if top <= t {
        EndowMonotone(b, top, t);
        assert supply <= FromIntegral(EndowLt(b, t));
      }
      PriceBelow(t, rate);
    }
  }

  lemma OfferWithin(b: Book, supply: nat, rate: nat, k: Key)
    requires LiveBook(b) && SupplyAllowed(b, supply, rate) && k in b && EndowLt(b, k + 1) <= Floor(supply)
    ensures PriceOf(k) <= rate
  {
    PriceBelow(k, rate);
    var top := (rate + 1) * PRICE_SPAN;
    if top <= k { EndowMonotone(b, top, k); }
  }

  lemma EndowAtTop(b: Book, top: Key)
    requires LiveBook(b)
    ensures EndowLt(b, top) <= Total(b)
  {
    if top <= MAX_KEY {
      EndowMonotone(b, top, MAX_KEY);
    } else {
      EndowAbove(b, MAX_KEY, top);
    }
  }

  /** Exactly the ceiling of the activated supply is taken from sellers. */
  lemma DeductedIsCeiling(b: Book, supply: nat)
    requires LiveBook(b)
    ensures var o := Produced(b, supply);
      && (o.existsPartial ==>
            o.partialKey in b && Total(o.cleared) + Ceil(o.remaining) == Ceil(supply)
              && Ceil(o.remaining) <= b[o.partialKey])
      && (!o.existsPartial && supply == FromIntegral(Total(b)) ==> Total(o.cleared) == Ceil(supply))
  {
    SplitAtLowest(b, Floor(supply));
    var o := Produced(b, supply);
    if o.existsPartial {
      CeilFits(supply, EndowLt(b, o.partialKey), b[o.partialKey]);
      EndowBelow(b, o.partialKey, MAX_KEY);
    } else {
      assert Ceil(FromIntegral(Total(b))) == Total(b);
    }
  }

  lemma KeyPositive(b: Book, k: Key)
    requires LiveBook(b) && k in b
    ensures k > 0
  {
  }

  /** The validator's book once arrivals are split off: the old offers, and the new ones
      from the threshold up. */
  function ValidatorBook(prior: Book, news: Book, com: Commitment): Book {
    prior + Minus(news, OnArrival(news, com))
  }

  lemma SplitWithout(b: Book, t: Key)
    requires LiveBook(b) && t in b
    ensures Split(b - {t}, EndowLt(b, t)) == Below(b, t)
  {
    var c := b - {t};
    EndowAgrees(c, b, t);
    SplitByEndow(c, t);
    assert Below(c, t) == Below(b, t);
  }

  /** A validator given the producer's commitment accepts it, clears the same offers,
      leaves the same book, and its statistics add up. */
  lemma ValidatorAgrees(prior: Book, news: Book, supply: nat)
    requires prior.Keys !! news.Keys && LiveBook(prior + news)
    requires Produced(prior + news, supply).existsPartial || supply == FromIntegral(Total(prior + news))
    ensures var p := Produced(prior + news, supply);
      var com := CommitmentOf(p, supply);
      var arrived := FromIntegral(Total(OnArrival(news, com)));
      var v := Validated(ValidatorBook(prior, news, com), com, arrived);
      && v.Accepted? && CheckStats(com, v.activated)
      && v.outcome.book == p.book
      && v.outcome.cleared + OnArrival(news, com) == p.cleared
      && v.outcome.cleared.Keys !! OnArrival(news, com).Keys
      && v.outcome.existsPartial == p.existsPartial
      && v.outcome.partialKey == p.partialKey && v.outcome.remaining == p.remaining
  {
    var b := prior + news;
    var p := Produced(b, supply);
    SplitAtLowest(b, Floor(supply));
    if p.existsPartial {
      AgreesAtKey(prior, news, supply);
    } else {
      AgreesNull(prior, news, supply);
    }
  }

  lemma AgreesNull(prior: Book, news: Book, supply: nat)
    requires prior.Keys !! news.Keys && LiveBook(prior + news)
    requires !Produced(prior + news, supply).existsPartial && supply == FromIntegral(Total(prior + news))
    ensures var com := Commitment(supply, 0, 0, true);
      && OnArrival(news, com) == news && ValidatorBook(prior, news, com) == prior
      && Validated(prior, com, FromIntegral(Total(news))) ==
         Accepted(Outcome(map[], prior, false, 0, 0), supply)
  {
    var com := Commitment(supply, 0, 0, true);
    assert OnArrival(news, com) == news;
    assert ValidatorBook(prior, news, com) == prior;
    EndowUnion(prior, news, MAX_KEY);
    assert forall k :: k in prior ==> k in prior + news;
    assert 0 !in prior by {
      if 0 in prior { KeyPositive(prior + news, 0); }
    }
  }

  /** The books on the two sides, for a threshold at t. */
  lemma ArrivalBooks(prior: Book, news: Book, t: Key, com: Commitment)
    requires prior.Keys !! news.Keys && LiveBook(prior + news)
    requires com.thresholdKey == t && !com.isNull
    ensures var b, w := prior + news, ValidatorBook(prior, news, com);
      && OnArrival(news, com) == Below(news, t)
      && LiveBook(w) && Below(w, t) == Below(prior, t) && (t in b ==> t in w && w[t] == b[t])
      && Minus(w, Below(prior, t)) == Minus(b, Below(b, t))
      && Below(b, t) == Below(prior, t) + Below(news, t)
      && (forall j: Key :: j < t ==> AmountAt(w, j) == AmountAt(prior, j))
  {
    var w := prior + From(news, t);
    assert OnArrival(news, com) == Below(news, t);
    assert Minus(news, Below(news, t)) == From(news, t);
    RestBooks(prior, news, t);
    SplitBooks(prior, news, t);
    assert forall k :: k in w ==> k in prior + news && (prior + news)[k] == w[k];
  }

  lemma RestBooks(prior: Book, news: Book, t: Key)
    requires prior.Keys !! news.Keys
    ensures Minus(prior + From(news, t), Below(prior, t)) == Minus(prior + news, Below(prior + news, t))
  {
    assert Minus(prior + news, Below(prior + news, t)) == From(prior + news, t);
    assert Minus(prior + From(news, t), Below(prior, t)) == From(prior + news, t);
  }

  lemma SplitBooks(prior: Book, news: Book, t: Key)
    requires prior.Keys !! news.Keys
    ensures Below(prior + news, t) == Below(prior, t) + Below(news, t)
    ensures Below(prior + From(news, t), t) == Below(prior, t)
  {
    assert Below(prior + news, t) == Below(prior, t) + Below(news, t);
    assert Below(prior + From(news, t), t) == Below(prior, t);
  }

  lemma AgreesAtKey(prior: Book, news: Book, supply: nat)
    requires prior.Keys !! news.Keys && LiveBook(prior + news)
    requires Produced(prior + news, supply).existsPartial
    ensures var b := prior + news;
      var p := Produced(b, supply);
      var com := CommitmentOf(p, supply);
      var v := Validated(ValidatorBook(prior, news, com), com, FromIntegral(Total(OnArrival(news, com))));
      && v == Accepted(Outcome(p.book, Below(prior, p.partialKey), true, p.partialKey, p.remaining),
                       FromIntegral(EndowLt(b, p.partialKey)))
      && OnArrival(news, com) == Below(news, p.partialKey)
      && p.cleared == Below(prior, p.partialKey) + Below(news, p.partialKey)
      && CheckStats(com, v.activated)
  {
    hide ValidatorBook, OnArrival, LiveBook, Below, Minus, Split, AmountAt;
    var b := prior + news;
    var p := Produced(b, supply);
    var t, com := p.partialKey, CommitmentOf(p, supply);
    SplitAtLowest(b, Floor(supply));
    KeyPositive(b, t);
    CeilFits(supply, EndowLt(b, t), b[t]);
    ArrivalBooks(prior, news, t, com);
    var w := ValidatorBook(prior, news, com);
    EndowAgrees(w, prior, t);
    EndowUnion(prior, news, t);
    EndowBelow(news, t, MAX_KEY);
    SplitWithout(w, t);
  }
}
