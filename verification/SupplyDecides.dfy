/** Of all the commitments a validator accepts with matching statistics, the committed supply alone
    decides: the book and the payments are those of a producer that activates this supply. */
module SupplyDecides {
  import opened Clearing
  import opened Orderbook
  import opened Payouts
  import opened Persistence
  import opened Pricing
  import opened Validation

  /** Accepted, with matching statistics. */
  ghost predicate Matches(prior: Book, news: Book, com: Commitment) {
    && prior.Keys !! news.Keys && LiveBook(prior + news)
    && var v := Validated(ValidatorBook(prior, news, com), com, FromIntegral(Total(OnArrival(news, com))));
    v.Accepted? && CheckStats(com, v.activated)
  }

  function OutcomeIn(prior: Book, news: Book, com: Commitment): Outcome {
    OutcomeOf(ValidatorBook(prior, news, com), com, FromIntegral(Total(OnArrival(news, com))))
  }

  /** With the null flag the whole book clears, arrivals and all. */
  lemma NullMatch(prior: Book, news: Book, com: Commitment)
    requires Matches(prior, news, com) && com.thresholdKey !in ValidatorBook(prior, news, com)
    ensures OnArrival(news, com) == news && com.supply == FromIntegral(Total(prior + news))
    ensures OutcomeIn(prior, news, com) == Outcome(map[], prior, false, 0, 0)
    ensures var p := Produced(prior + news, com.supply);
      p == Outcome(map[], prior + news, false, 0, 0)
  {
    hide Split;
    assert OnArrival(news, com) == news;
    assert ValidatorBook(prior, news, com) == prior;
    EndowUnion(prior, news, MAX_KEY);
    var b := prior + news;
    ProducedAll(b);
  }

  lemma ProducedAll(b: Book)
    requires LiveBook(b)
    ensures Produced(b, FromIntegral(Total(b))) == Outcome(map[], b, false, 0, 0)
  {
    assert Floor(FromIntegral(Total(b))) == Total(b);
    SplitByEndow(b, MAX_KEY);
    assert Below(b, MAX_KEY) == b && Minus(b, b) == map[];
  }

  /** The parts of a book at a threshold, and what the statistics say of the supply. */
  lemma KeyMatch(prior: Book, news: Book, com: Commitment)
    requires Matches(prior, news, com) && com.thresholdKey in ValidatorBook(prior, news, com)
    ensures var b, t, o := prior + news, com.thresholdKey, OutcomeIn(prior, news, com);
      && t in b && t < MAX_KEY && Ceil(com.partialAmount) <= b[t]
      && com.supply == FromIntegral(EndowLt(b, t)) + com.partialAmount
      && o.existsPartial && o.partialKey == t && o.remaining == com.partialAmount
      && o.book == Shrink(From(b, t), t, Ceil(com.partialAmount))
      && o.cleared.Keys !! OnArrival(news, com).Keys && o.cleared + OnArrival(news, com) == Below(b, t)
  {
    hide LiveBook, Shrink, Ceil, Split;
    var b, t, w := prior + news, com.thresholdKey, ValidatorBook(prior, news, com);
    assert t > 0 && !com.isNull by { ThresholdPositive(prior, news, com); }
    ArrivalBooks(prior, news, t, com);
    EndowAgrees(w, prior, t);
    EndowUnion(prior, news, t);
    EndowBelow(news, t, MAX_KEY);
    SplitWithout(w, t);
    assert Minus(w, Below(w, t)) == From(w, t);
    assert Minus(b, Below(b, t)) == From(b, t);
    assert Below(prior, t) + Below(news, t) == Below(b, t);
  }

  lemma ThresholdPositive(prior: Book, news: Book, com: Commitment)
    requires Matches(prior, news, com) && com.thresholdKey in ValidatorBook(prior, news, com)
    ensures com.thresholdKey > 0 && com.thresholdKey < MAX_KEY && !com.isNull
    ensures com.thresholdKey in prior + news
  {
    hide Validated, Total;
    assert com.thresholdKey in prior + news;
    KeyPositive(prior + news, com.thresholdKey);
  }

  /** A threshold offer that clears in part, or not at all, is the producer's. */
  lemma InsideOffer(b: Book, t: Key, part: nat)
    requires LiveBook(b) && t in b && Floor(part) < b[t]
    ensures var p := Produced(b, FromIntegral(EndowLt(b, t)) + part);
      && p.existsPartial && p.partialKey == t && p.remaining == part && p.cleared == Below(b, t)
      && Ceil(part) <= b[t] && p.book == Shrink(From(b, t), t, Ceil(part))
  {
    hide Shrink, Ceil, LiveBook, Lowest, Split, EndowLt;
    var supply := FromIntegral(EndowLt(b, t)) + part;
    var x := Floor(supply);
    assert x == EndowLt(b, t) + Floor(part);
    SplitInside(b, t, x);
    assert Minus(b, Below(b, t)) == From(b, t);
    LowestFrom(b, t);
    ProducedIs(b, supply);
  }

  lemma LowestFrom(b: Book, t: Key)
    requires t in b
    ensures From(b, t) != map[] && Lowest(From(b, t)) == t && From(b, t)[t] == b[t]
  {
    assert t in From(b, t);
    assert IsLowest(From(b, t), t);
  }

  lemma SplitInside(b: Book, t: Key, x: nat)
    requires LiveBook(b) && t in b && EndowLt(b, t) <= x < EndowLt(b, t) + b[t]
    ensures Split(b, x) == Below(b, t)
  {
    assert EndowLt(b, t + 1) == EndowLt(b, t) + b[t];
    forall k | k in b ensures k in Split(b, x) <==> k < t {
      if k < t { EndowMonotone(b, k + 1, t); } else { EndowMonotone(b, t + 1, k + 1); }
    }
  }

  /** One that clears in whole leaves the producer at the next offer, with nothing to take of it. */
  lemma WholeOffer(b: Book, t: Key)
    requires LiveBook(b) && t in b
    ensures var p := Produced(b, FromIntegral(EndowLt(b, t)) + FromIntegral(b[t]));
      && p.cleared == Below(b, t)[t := b[t]] && p.book == From(b, t) - {t}
      && (p.existsPartial ==> p.remaining == 0 && p.partialKey in b)
  {
    hide LiveBook, Split, Lowest;
    var supply := FromIntegral(EndowLt(b, t)) + FromIntegral(b[t]);
    assert EndowLt(b, t + 1) == EndowLt(b, t) + b[t];
    assert Floor(supply) == EndowLt(b, t + 1);
    SplitByEndow(b, t + 1);
    assert Below(b, t + 1) == Below(b, t)[t := b[t]];
    var rest := Minus(b, Below(b, t + 1));
    assert rest == From(b, t) - {t};
    ProducedIs(b, supply);
    LivePositive(b);
    if rest != map[] { NextOffer(b, t, rest); }
  }

  lemma NextOffer(b: Book, t: Key, rest: Book)
    requires rest != map[] && LiveBook(b)
    requires forall k :: k in rest <==> k in b && t < k
    ensures var n := Lowest(rest); n in b && EndowLt(b, n) == EndowLt(b, t + 1)
  {
    hide EndowLt, LiveBook, Lowest;
    var n := Lowest(rest);
    assert IsLowest(rest, n);
    forall k | k in b ensures k < t + 1 || n <= k {
      if k >= t + 1 { assert k in rest; }
    }
    NoneUntil(b, t + 1, n);
  }

  lemma {:induction false} NoneUntil(b: Book, s: Key, t: Key)
    requires s <= t && forall k :: k in b ==> k < s || t <= k
    ensures EndowLt(b, t) == EndowLt(b, s)
  {
    if s < t { NoneUntil(b, s, t - 1); }
  }

  /** Whatever the commitment, the book is the one a producer of its supply comes to. */
  lemma SupplyDecidesBook(prior: Book, news: Book, com: Commitment)
    requires Matches(prior, news, com)
    ensures OutcomeIn(prior, news, com).book == Produced(prior + news, com.supply).book
  {
    hide Matches, Produced, OutcomeIn, LiveBook, Ceil, Floor, FromIntegral;
    var b, t := prior + news, com.thresholdKey;
    assert LiveBook(b) by { MatchesLive(prior, news, com); }
    if t !in ValidatorBook(prior, news, com) {
      NullMatch(prior, news, com);
    } else {
      KeyMatch(prior, news, com);
      WholeOrInside(com.partialAmount, b[t]);
      if Floor(com.partialAmount) < b[t] {
        InsideOffer(b, t, com.partialAmount);
      } else {
        WholeOffer(b, t);
      }
    }
  }

  lemma MatchesLive(prior: Book, news: Book, com: Commitment)
    requires Matches(prior, news, com)
    ensures LiveBook(prior + news) && prior.Keys !! news.Keys
  {
  }

  lemma WholeOrInside(part: nat, amount: nat)
    requires Ceil(part) <= amount
    ensures Floor(part) < amount || (part == FromIntegral(amount) && Ceil(part) == amount)
  {
  }

  /** And so are the payments, when every owner has an account. */
  lemma SupplyDecidesPayments(prior: Book, news: Book, com: Commitment, r: Rates, was: map<nat, int>,
                              mid: map<nat, int>, now: map<nat, int>)
    requires Matches(prior, news, com) && r.buy > 0
    requires Paid(was, mid, r, OnArrival(news, com)) && AllPaid(mid, now, r, OutcomeIn(prior, news, com))
    requires forall k :: k in prior + news ==> OwnerOf(k) in was
    ensures LiveBook(prior + news) && AllPaid(was, now, r, Produced(prior + news, com.supply))
  {
    hide Matches, Produced, OutcomeIn, LiveBook, Ceil, Floor, FromIntegral, Paid, AllPaid, OnArrival, PartialPay,
      OwnerOf;
    var b, t := prior + news, com.thresholdKey;
    var o, early := OutcomeIn(prior, news, com), OnArrival(news, com);
    assert LiveBook(b) && prior.Keys !! news.Keys by { MatchesLive(prior, news, com); }
    if t !in ValidatorBook(prior, news, com) {
      NullMatch(prior, news, com);
      AllPaidJoined(was, mid, now, r, early, o, Produced(b, com.supply));
    } else {
      KeyMatch(prior, news, com);
      WholeOrInside(com.partialAmount, b[t]);
      if Floor(com.partialAmount) < b[t] {
        InsideOffer(b, t, com.partialAmount);
        AllPaidJoined(was, mid, now, r, early, o, Produced(b, com.supply));
      } else {
        WholeOffer(b, t);
        WholePaid(was, mid, now, r, early, o, Produced(b, com.supply), b[t]);
      }
    }
  }

  /** Paying the threshold offer in part for all of it is paying it in full. */
  lemma WholePaid(was: map<nat, int>, mid: map<nat, int>, now: map<nat, int>, r: Rates, early: Book, o: Outcome,
                  p: Outcome, amount: nat)
    requires r.buy > 0 && Paid(was, mid, r, early) && AllPaid(mid, now, r, o) && o.existsPartial
    requires o.cleared.Keys !! early.Keys && o.remaining == FromIntegral(amount) && o.partialKey < MAX_KEY
    requires o.partialKey !in o.cleared + early && p.cleared == (o.cleared + early)[o.partialKey := amount]
    requires p.existsPartial ==> p.remaining == 0 && OwnerOf(p.partialKey) in was
    ensures AllPaid(was, now, r, p)
  {
    hide Paid, OwnerOf, PartialPay, FullPay;
    var k := o.partialKey;
    var full :| Paid(mid, full, r, o.cleared) && OwnerOf(k) in full &&
      now == full[OwnerOf(k) := full[OwnerOf(k)] + PartialPay(r, o.remaining)];
    PaidBoth(was, mid, full, r, early, o.cleared);
    assert early + o.cleared == o.cleared + early;
    FullPart(r, amount);
    PaidMore(was, full, now, r, o.cleared + early, k, amount);
    PaidAccounts(was, now, r, p.cleared);
    PayNothing(r);
    if p.existsPartial { assert now == now[OwnerOf(p.partialKey) := now[OwnerOf(p.partialKey)] + 0]; }
  }

  lemma FullPart(r: Rates, amount: nat)
    requires r.buy > 0
    ensures FullPay(r, amount) == PartialPay(r, FromIntegral(amount))
  {
  }
}
