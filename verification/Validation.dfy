/** A validator's whole block on one orderbook: receive the new offers, commit them, clear. The
    honest commitment is accepted and comes to the producer's book and balances; for any other
    that is accepted, which offers may trade beyond their limit. */
module Validation {
  import opened Accounts
  import opened Clearing
  import opened Orderbook
  import opened Persistence
  import opened Pricing

  // ---- the honest commitment ----

  /** What arrived before counts in the statistics alone. */
  lemma ArrivedApart(w: Book, com: Commitment, arrived: nat)
    ensures Validated(w, com, arrived).Accepted? <==> Validated(w, com, 0).Accepted?
    ensures OutcomeOf(w, com, arrived) == OutcomeOf(w, com, 0)
    ensures OutcomeOf(w, com, arrived).existsPartial ==> OutcomeOf(w, com, arrived).remaining == com.partialAmount
  {
    hide EndowLt, Split, Minus, Shrink;
  }

  /** Clearing the producer's own commitment meets no throw. */
  lemma HonestAllowed(prior: Book, news: Book, supply: nat, accounts: set<nat>, r: Rates)
    requires r.buy > 0 && prior.Keys !! news.Keys && LiveBook(prior + news)
    requires ClearingAllowed(prior + news, accounts, supply, r)
    ensures var com := CommitmentOf(Produced(prior + news, supply), supply);
      ValidationAllowed(ValidatorBook(prior, news, com), accounts, com, r)
  {
    hide LiveBook, Produced, Split, Minus, Total, Floor, Ceil, Shrink, Validated, OutcomeOf, Clearable, OwnerOf,
      ClearingAllowed, CheckStats, FromIntegral, EndowLt;
    var b := prior + news;
    var p := Produced(b, supply);
    var com := CommitmentOf(p, supply);
    var w := ValidatorBook(prior, news, com);
    var arrived := FromIntegral(Total(OnArrival(news, com)));
    AllowedClears(b, accounts, supply, r);
    ValidatorAgrees(prior, news, supply);
    ProducedIs(b, supply);
    SplitKeys(b, Floor(supply));
    WaitingBook(prior, news, com);
    ArrivedApart(w, com, arrived);
    AcceptedOutcome(w, com, arrived);
    AcceptedShape(w, com, arrived);
    var o := OutcomeOf(w, com, 0);
    forall k | k in o.cleared ensures Clearable(accounts, r, k, w[k]) {
      assert k in p.cleared;
    }
  }

  /** Producer and validator are paid the same, stated of the balances they start from. */
  lemma AllPaidJoined(was: map<nat, int>, mid: map<nat, int>, now: map<nat, int>, r: Rates, early: Book,
                      v: Outcome, p: Outcome)
    requires r.buy > 0 && Paid(was, mid, r, early) && AllPaid(mid, now, r, v)
    requires v.cleared.Keys !! early.Keys && v.cleared + early == p.cleared
    requires v.existsPartial == p.existsPartial && v.partialKey == p.partialKey && v.remaining == p.remaining
    ensures AllPaid(was, now, r, p)
  {
    hide Paid, PartialPay;
    var full :| Paid(mid, full, r, v.cleared) &&
      (if v.existsPartial then OwnerOf(v.partialKey) in full &&
         now == full[OwnerOf(v.partialKey) := full[OwnerOf(v.partialKey)] + PartialPay(r, v.remaining)]
         else now == full);
    PaidBoth(was, mid, full, r, early, v.cleared);
    assert early + v.cleared == p.cleared;
  }

  /** The payments of an outcome determine the balances. */
  lemma AllPaidUnique(was: map<nat, int>, a: map<nat, int>, b: map<nat, int>, r: Rates, o: Outcome)
    requires r.buy > 0 && AllPaid(was, a, r, o) && AllPaid(was, b, r, o)
    ensures a == b
  {
    hide Paid, PartialPay;
    PaidNothing(was, r);
    assert o.cleared + map[] == o.cleared;
    PaymentsMatch(was, was, a, b, r, map[], o, o);
  }

  // ---- any commitment ----

  /** The offer asks no more than the exact rate. */
  predicate InLimit(r: Rates, k: Key) { !RatioLess(r.sell, r.buy, PriceOf(k)) }

  /** Every offer that trades, on arrival, in full or in part, does so within its limit. */
  ghost predicate LimitsKept(r: Rates, early: Book, o: Outcome) {
    && (forall k :: k in early ==> InLimit(r, k))
    && (forall k :: k in o.cleared ==> InLimit(r, k))
    && (o.existsPartial && o.remaining > 0 ==> InLimit(r, o.partialKey))
  }

  /** The offers whose limit nothing compares with the rate are within it all the same: the new
      ones that clear on arrival, and the threshold offer when some of it trades. */
  ghost predicate UncheckedInLimit(r: Rates, prior: Book, news: Book, com: Commitment) {
    && (forall k :: k in news && (com.isNull || k < com.thresholdKey) ==> InLimit(r, k))
    && (com.thresholdKey in ValidatorBook(prior, news, com) && com.partialAmount > 0 ==> InLimit(r, com.thresholdKey))
  }

  /** A clearing that is accepted without a throw keeps every limit exactly when the offers that
      nothing compares are within theirs. */
  lemma LimitsExact(prior: Book, news: Book, com: Commitment, arrived: nat, accounts: set<nat>, r: Rates)
    requires r.buy > 0 && prior.Keys !! news.Keys && LiveBook(prior + news)
    requires ValidationAllowed(ValidatorBook(prior, news, com), accounts, com, r)
    ensures LimitsKept(r, OnArrival(news, com), OutcomeOf(ValidatorBook(prior, news, com), com, arrived))
      <==> UncheckedInLimit(r, prior, news, com)
  {
    hide LiveBook, Validated, OutcomeOf, Minus, OwnerOf, RatioLess, EndowLt, Shrink;
    var w := ValidatorBook(prior, news, com);
    WaitingBook(prior, news, com);
    ArrivedApart(w, com, arrived);
    AcceptedShape(w, com, arrived);
    forall k | k in OutcomeOf(w, com, 0).cleared ensures InLimit(r, k) {
      assert Clearable(accounts, r, k, w[k]);
    }
  }

  lemma AllowedSupply(b: Book, accounts: set<nat>, supply: nat, r: Rates)
    requires r.buy > 0 && ClearingAllowed(b, accounts, supply, r)
    ensures SupplyAllowed(b, supply, ExchangeRate(r.sell, r.buy))
  {
  }

  /** The producer's own commitment keeps every limit. */
  lemma HonestInLimit(prior: Book, news: Book, supply: nat, accounts: set<nat>, r: Rates)
    requires r.buy > 0 && prior.Keys !! news.Keys && LiveBook(prior + news)
    requires ClearingAllowed(prior + news, accounts, supply, r)
    ensures UncheckedInLimit(r, prior, news, CommitmentOf(Produced(prior + news, supply), supply))
  {
    hide RatioLess, ExchangeRate, LiveBook, Produced, ClearingAllowed, Validated, CheckStats, PriceOf, FromIntegral,
      Total, Clearable, Split, Floor, EndowLt;
    AllowedSupply(prior + news, accounts, supply, r);
    var p := Produced(prior + news, supply);
    var com := CommitmentOf(p, supply);
    TradesWithinRate(prior + news, supply, ExchangeRate(r.sell, r.buy));
    AllowedClears(prior + news, accounts, supply, r);
    ValidatorAgrees(prior, news, supply);
    var w, arrived := ValidatorBook(prior, news, com), FromIntegral(Total(OnArrival(news, com)));
    WaitingBook(prior, news, com);
    AcceptedOutcome(w, com, arrived);
    AcceptedShape(w, com, arrived);
    forall k | k in p.cleared ensures InLimit(r, k) { WithinRate(r.sell, r.buy, PriceOf(k)); }
    if p.existsPartial && p.remaining > 0 { WithinRate(r.sell, r.buy, PriceOf(p.partialKey)); }
  }

  /** A commitment that is accepted, with matching statistics, although a new offer that asks
      twice the rate clears on arrival: its threshold is an offer there before that asks more. */
  lemma LimitCanBeMissed()
    ensures var r, prior, news :=
        Rates(1, 1, 0), map[3 * PRICE_ONE * PRICE_SPAN := 1], map[2 * PRICE_ONE * PRICE_SPAN := 1];
      var com := Commitment(FRACTION_ONE, 0, 3 * PRICE_ONE * PRICE_SPAN, false);
      var w, arrived := ValidatorBook(prior, news, com), FromIntegral(Total(OnArrival(news, com)));
      && prior.Keys !! news.Keys && LiveBook(prior + news)
      && ValidationAllowed(w, {0}, com, r) && CheckStats(com, Validated(w, com, arrived).activated)
      && 2 * PRICE_ONE * PRICE_SPAN in OnArrival(news, com) && !InLimit(r, 2 * PRICE_ONE * PRICE_SPAN)
  {
    var k, t := 2 * PRICE_ONE * PRICE_SPAN, 3 * PRICE_ONE * PRICE_SPAN;
    var prior, news: Book := map[t := 1], map[k := 1];
    var com := Commitment(FRACTION_ONE, 0, t, false);
    assert k < t < MAX_KEY && PriceOf(k) == 2 * PRICE_ONE && PriceOf(t) == 3 * PRICE_ONE && OwnerOf(t) == 0;
    assert OnArrival(news, com) == news;
    assert ValidatorBook(prior, news, com) == prior;
    OneTotal(k, 1, MAX_KEY);
    OneTotal(t, 1, t);
    assert prior - {t} == map[];
  }

  /** A validator receives the new offers of a block, commits them, and clears against the
      header's commitment. What it accepts keeps every limit exactly when the offers that
      nothing compares are within theirs. */
  method ValidateBlock(book: Orderbook, block: nat, arrivals: seq<Offer>, com: Commitment, r: Rates,
                       db: AccountDb)
    returns (res: Verdict)
    requires r.buy > 0 && book.uncommitted == map[]
    requires book.thunks == [] || book.thunks[|book.thunks| - 1].block < block
    requires forall i :: 0 <= i < |arrivals| ==> OwnerOf(arrivals[i].key) in db.balances && arrivals[i].key < MAX_KEY
    requires forall i, j :: 0 <= i < j < |arrivals| ==> arrivals[i].key != arrivals[j].key
    requires book.committed.Keys !! AddedMap(arrivals).Keys
    requires LiveBook(Without(book.committed, book.marked) + AddedMap(arrivals))
    modifies book, db
    ensures var prior, news := Without(old(book.committed), old(book.marked)), AddedMap(arrivals);
      var w, arrived := ValidatorBook(prior, news, com), FromIntegral(Total(OnArrival(news, com)));
      var o := OutcomeOf(w, com, arrived);
      && (res.Valid? <==> ValidationAllowed(w, old(db.balances).Keys, com, r))
      && (res.Valid? ==>
            && Validated(w, com, arrived) == Accepted(o, res.activated) && book.committed == o.book
            && (LimitsKept(r, OnArrival(news, com), o) <==> UncheckedInLimit(r, prior, news, com))
            && exists mid :: Paid(old(db.balances), mid, r, OnArrival(news, com)) && AllPaid(mid, db.balances, r, o))
  {
    hide LiveBook, Paid, AllPaid, OnArrival, Minus, Total, OwnerOf, FromIntegral, AddedMap, Validated,
      ValidationAllowed, LimitsKept, UncheckedInLimit, ClearedThunk, OutcomeOf;
    ghost var prior, news := Without(book.committed, book.marked), AddedMap(arrivals);
    ghost var was, w := db.balances, ValidatorBook(prior, news, com);
    WaitingBook(prior, news, com);
    var arrived := ReceiveBlock(book, arrivals, com, r, db);
    ghost var mid := db.balances;
    PaidAccounts(was, mid, r, OnArrival(news, com));
    assert book.committed.Keys !! book.uncommitted.Keys by { WaitingApart(book.committed, news, com); }
    var ok := book.TentativeCommitForValidation(block);
    assert book.committed == w;
    res := book.TentativeClearOffersForValidation(com, r, db, arrived);
    if res.Valid? { LimitsExact(prior, news, com, arrived, was.Keys, r); }
  }

  lemma WaitingApart(book: Book, news: Book, com: Commitment)
    requires book.Keys !! news.Keys
    ensures book.Keys !! Minus(news, OnArrival(news, com)).Keys
  {
  }

  /** Given the producer's own commitment the validator accepts, its statistics match, and it
      comes to the producer's book and balances with every limit kept. */
  method ValidateHonestBlock(book: Orderbook, block: nat, arrivals: seq<Offer>, ghost supply: nat,
                             com: Commitment, r: Rates, db: AccountDb)
    returns (res: Verdict)
    requires r.buy > 0 && book.uncommitted == map[]
    requires book.thunks == [] || book.thunks[|book.thunks| - 1].block < block
    requires forall i :: 0 <= i < |arrivals| ==> OwnerOf(arrivals[i].key) in db.balances && arrivals[i].key < MAX_KEY
    requires forall i, j :: 0 <= i < j < |arrivals| ==> arrivals[i].key != arrivals[j].key
    requires book.committed.Keys !! AddedMap(arrivals).Keys
    requires var b := Without(book.committed, book.marked) + AddedMap(arrivals);
      && LiveBook(b) && ClearingAllowed(b, db.balances.Keys, supply, r)
      && com == CommitmentOf(Produced(b, supply), supply)
    modifies book, db
    ensures var p := Produced(Without(old(book.committed), old(book.marked)) + AddedMap(arrivals), supply);
      && res.Valid? && CheckStats(com, res.activated)
      && book.committed == p.book && AllPaid(old(db.balances), db.balances, r, p)
      && LimitsKept(r, map[], p)
  {
    hide LiveBook, Paid, AllPaid, OnArrival, Minus, Total, OwnerOf, FromIntegral, AddedMap, Validated,
      ValidationAllowed, LimitsKept, UncheckedInLimit, ClearedThunk, OutcomeOf, Produced, ClearingAllowed, CheckStats;
    ghost var prior, news := Without(book.committed, book.marked), AddedMap(arrivals);
    ghost var was := db.balances;
    assert prior.Keys !! news.Keys;
    HonestAllowed(prior, news, supply, was.Keys, r);
    HonestInLimit(prior, news, supply, was.Keys, r);
    AllowedClears(prior + news, was.Keys, supply, r);
    ValidatorAgrees(prior, news, supply);
    res := ValidateBlock(book, block, arrivals, com, r, db);
    ghost var p := Produced(prior + news, supply);
    ghost var v := OutcomeOf(ValidatorBook(prior, news, com), com, FromIntegral(Total(OnArrival(news, com))));
    AcceptedOutcome(ValidatorBook(prior, news, com), com, FromIntegral(Total(OnArrival(news, com))));
    ghost var mid :| Paid(was, mid, r, OnArrival(news, com)) && AllPaid(mid, db.balances, r, v);
    AllPaidJoined(was, mid, db.balances, r, OnArrival(news, com), v, p);
    LimitsTogether(r, OnArrival(news, com), v, p);
  }

  lemma LimitsTogether(r: Rates, early: Book, v: Outcome, p: Outcome)
    requires LimitsKept(r, early, v) && v.cleared + early == p.cleared
    requires v.existsPartial == p.existsPartial && v.partialKey == p.partialKey && v.remaining == p.remaining
    ensures LimitsKept(r, map[], p)
  {
    forall k | k in p.cleared ensures InLimit(r, k) {
      assert k in v.cleared + early;
    }
  }

  /** A producer makes a block, and a validator with the same book, the same balances and the same
      new offers, in any order, checks it: it accepts, and both hold the same book and balances. */
  method ProduceAndValidate(ours: Orderbook, theirs: Orderbook, block: nat, arrivals: seq<Offer>, supply: nat,
                            r: Rates, db: AccountDb, dbTheirs: AccountDb)
    requires ours != theirs && db != dbTheirs && r.buy > 0
    requires ours.committed == theirs.committed && ours.marked == theirs.marked && db.balances == dbTheirs.balances
    requires ours.uncommitted == AddedMap(arrivals) && theirs.uncommitted == map[]
    requires ours.thunks == [] || ours.thunks[|ours.thunks| - 1].block < block
    requires theirs.thunks == [] || theirs.thunks[|theirs.thunks| - 1].block < block
    requires forall i :: 0 <= i < |arrivals| ==> OwnerOf(arrivals[i].key) in db.balances && arrivals[i].key < MAX_KEY
    requires forall i, j :: 0 <= i < j < |arrivals| ==> arrivals[i].key != arrivals[j].key
    requires ours.committed.Keys !! AddedMap(arrivals).Keys
    requires var b := Without(ours.committed, ours.marked) + AddedMap(arrivals);
      LiveBook(b) && ClearingAllowed(b, db.balances.Keys, supply, r)
    modifies ours, theirs, db, dbTheirs
    ensures ours.committed == theirs.committed && db.balances == dbTheirs.balances
  {
    hide LiveBook, AllPaid, OwnerOf, AddedMap, ClearingAllowed, Produced, CheckStats, LimitsKept;
    ghost var was := db.balances;
    ghost var p := Produced(Without(ours.committed, ours.marked) + AddedMap(arrivals), supply);
    var com := ProduceBlock(ours, block, supply, r, db);
    var res := ValidateHonestBlock(theirs, block, arrivals, supply, com.value, r, dbTheirs);
    AllPaidUnique(was, db.balances, dbTheirs.balances, r, p);
  }
}
