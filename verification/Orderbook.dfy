/** One orderbook over a block: commit the new offers, clear as producer or as
    validator, and undo the newest block. Tries are modelled as maps by key. */
module Orderbook {
  import opened Accounts
  import opened Clearing
  import opened Persistence
  import opened Pricing
  import opened Wrappers

  const MAX_ENDOW: nat := 0x7fff_ffff_ffff_ffff

  /** Every owner has been paid for the cleared offers, and nothing else has moved. */
  ghost predicate Paid(was: map<nat, int>, now: map<nat, int>, r: Rates, cleared: Book)
    requires r.buy > 0
  {
    now.Keys == was.Keys && forall o :: o in was ==> now[o] == was[o] + Credit(r, cleared, o, MAX_KEY)
  }

  /** The offer may be cleared at these prices: it asks no more than the rate, it is not
      empty, and its owner exists. */
  predicate Clearable(accounts: set<nat>, r: Rates, k: Key, amount: nat) {
    !RatioLess(r.sell, r.buy, PriceOf(k)) && amount != 0 && OwnerOf(k) in accounts
  }

  lemma PaidMore(was: map<nat, int>, mid: map<nat, int>, now: map<nat, int>, r: Rates, cleared: Book, k: Key,
                 amount: nat)
    requires r.buy > 0 && Paid(was, mid, r, cleared) && k !in cleared && k < MAX_KEY
    requires OwnerOf(k) in mid && now == mid[OwnerOf(k) := mid[OwnerOf(k)] + FullPay(r, amount)]
    ensures Paid(was, now, r, cleared[k := amount])
  {
    assert cleared[k := amount] == cleared + map[k := amount];
    forall o | o in was ensures now[o] == was[o] + Credit(r, cleared[k := amount], o, MAX_KEY) {
      CreditUnion(r, cleared, map[k := amount], o, MAX_KEY);
      CreditOne(r, k, amount, o, MAX_KEY);
    }
  }

  lemma PaidBoth(was: map<nat, int>, mid: map<nat, int>, now: map<nat, int>, r: Rates, a: Book, b: Book)
    requires r.buy > 0 && Paid(was, mid, r, a) && Paid(mid, now, r, b) && a.Keys !! b.Keys
    ensures Paid(was, now, r, a + b)
  {
    forall o | o in was ensures now[o] == was[o] + Credit(r, a + b, o, MAX_KEY) {
      CreditUnion(r, a, b, o, MAX_KEY);
    }
  }

  lemma PaidNothing(was: map<nat, int>, r: Rates)
    requires r.buy > 0
    ensures Paid(was, was, r, map[])
  {
    forall o | o in was ensures Credit(r, map[], o, MAX_KEY) == 0 {
      CreditNone(r, o, MAX_KEY);
    }
  }

  /** Clear every offer of a trie in key order; false is the throw at one that may not be
      cleared. */
  method ApplyClear(cleared: Book, r: Rates, db: AccountDb) returns (ok: bool)
    requires r.buy > 0 && forall k :: k in cleared ==> k < MAX_KEY
    modifies db
    ensures ok <==> forall k :: k in cleared ==> Clearable(old(db.balances).Keys, r, k, cleared[k])
    ensures ok ==> Paid(old(db.balances), db.balances, r, cleared)
  {
    hide Paid, FullPay, OwnerOf, PriceOf, RatioLess;
    var rest := cleared;
    ghost var done: Book := map[];
    PaidNothing(db.balances, r);
    while rest != map[]
      invariant forall k :: k in rest ==> k in cleared && rest[k] == cleared[k] && k !in done
      invariant forall k :: k in cleared ==> k in rest || k in done
      invariant forall k :: k in done ==> k in cleared && done[k] == cleared[k]
      invariant forall k :: k in done ==> Clearable(old(db.balances).Keys, r, k, cleared[k])
      invariant db.balances.Keys == old(db.balances).Keys
      invariant Paid(old(db.balances), db.balances, r, done)
      decreases |rest|
    {
      ghost var low := Lowest(rest);
      var k :| k in rest && forall j :: j in rest ==> k <= j;
      var amount := rest[k];
      if RatioLess(r.sell, r.buy, PriceOf(k)) { return false; }
      if amount == 0 { return false; }
      if OwnerOf(k) !in db.balances { return false; }
      ghost var mid := db.balances;
      db.TransferAvailable(OwnerOf(k), FullPay(r, amount));
      PaidMore(old(db.balances), mid, db.balances, r, done, k, amount);
      done := done[k := amount];
      rest := rest - {k};
    }
    assert done == cleared;
    ok := true;
  }

  // ---- thunks ----

  /** What a block did to the book, kept so that it can be persisted or undone. */
  datatype BlockThunk = BlockThunk(block: nat, added: Book, deleted: Book, cleared: Book,
                                   existsPartial: bool, partialKey: Key, partialAmount: int, preexecute: nat)

  function Without(b: Book, keys: set<Key>): Book { b - keys }

  function Restricted(b: Book, keys: set<Key>): Book { map k | k in b && k in keys :: b[k] }

  /** Undo a thunk: put back the cancelled and the cleared offers, drop the added ones,
      and restore the partially executed offer. */
  function Undo(b: Book, t: BlockThunk): Book {
    var rest := ((b + t.deleted) + t.cleared) - t.added.Keys;
    if t.existsPartial then rest[t.partialKey := t.preexecute] else rest
  }

  /** Undo the thunks past a round, in the order of the list. */
  function UndoNewer(b: Book, thunks: seq<BlockThunk>, current: nat): Book
    decreases |thunks|
  {
    if thunks == [] then b
    else UndoNewer(if thunks[0].block > current then Undo(b, thunks[0]) else b, thunks[1..], current)
  }

  function UpTo(thunks: seq<BlockThunk>, current: nat): seq<BlockThunk>
    decreases |thunks|
  {
    if thunks == [] then []
    else (if thunks[0].block > current then [] else [thunks[0]]) + UpTo(thunks[1..], current)
  }

  /** When only the newest thunk is past the round, it alone is undone. */
  lemma {:induction false} NewestOnly(b: Book, thunks: seq<BlockThunk>, newest: BlockThunk, current: nat)
    requires newest.block > current && forall i :: 0 <= i < |thunks| ==> thunks[i].block <= current
    ensures UndoNewer(b, thunks + [newest], current) == Undo(b, newest)
    ensures UpTo(thunks + [newest], current) == thunks
    decreases |thunks|
  {
    hide Undo;
    var all := thunks + [newest];
    if thunks == [] {
      assert all[1..] == [];
    } else {
      assert all[1..] == thunks[1..] + [newest];
      NewestOnly(b, thunks[1..], newest, current);
    }
  }

  class Orderbook {
    var committed: Book
    var uncommitted: Book
    /** Committed offers marked as cancelled by transactions of the block. */
    var marked: set<Key>
    /** Offers with the rollback marker, in the book or among those that cleared from it. */
    var rollback: set<Key>
    /** Whether the uncommitted offers carry the rollback marker. */
    var uncommittedMarked: bool
    var thunks: seq<BlockThunk>

    constructor ()
      ensures committed == map[] && uncommitted == map[] && marked == {} && rollback == {} && thunks == []
      ensures !uncommittedMarked
    {
      committed, uncommitted, marked, rollback, uncommittedMarked, thunks := map[], map[], {}, {}, false, [];
    }

    /** Merge in offers buffered by a worker. */
    method AddOffers(news: Book, withMarker: bool)
      requires uncommitted.Keys !! news.Keys && (uncommitted == map[] || uncommittedMarked == withMarker)
      modifies this`uncommitted, this`uncommittedMarked
      ensures uncommitted == old(uncommitted) + news && uncommittedMarked == withMarker
    {
      uncommitted := uncommitted + news;
      uncommittedMarked := withMarker;
    }

    /** Open a thunk for the block, delete the cancelled offers, merge in the new ones. */
    method TentativeCommitForValidation(block: nat) returns (ok: bool)
      requires committed.Keys !! uncommitted.Keys
      modifies this
      ensures ok <==> (old(thunks) == [] || old(thunks)[|old(thunks)| - 1].block < block)
      ensures ok ==>
        && committed == Without(old(committed), old(marked)) + old(uncommitted)
        && uncommitted == map[] && marked == {}
        && rollback == (old(rollback) - old(marked)) + (if old(uncommittedMarked) then old(uncommitted).Keys else {})
        && thunks == old(thunks) + [BlockThunk(block, old(uncommitted), Restricted(old(committed), old(marked)),
                                               map[], false, 0, -1, 0)]
      ensures !ok ==> committed == old(committed) && thunks == old(thunks)
    {
      if |thunks| > 0 && thunks[|thunks| - 1].block + 1 > block { return false; }
      thunks := thunks + [BlockThunk(block, uncommitted, Restricted(committed, marked), map[], false, 0, -1, 0)];
      committed := Without(committed, marked);
      rollback := rollback - marked;
      marked := {};
      committed := committed + uncommitted;
      if uncommittedMarked { rollback := rollback + uncommitted.Keys; }
      uncommitted := map[];
      ok := true;
    }

    /** The producer's clearing. None stands for any of its throws. */
    method ProcessClearOffers(supply: nat, r: Rates, db: AccountDb) returns (com: Option<Commitment>)
      requires r.buy > 0 && |thunks| > 0 && LiveBook(committed)
      modifies this, db
      ensures com.Some? <==> ProductionAllowed(old(committed), old(db.balances).Keys, supply, r)
      ensures ClearingAllowed(old(committed), old(db.balances).Keys, supply, r) ==> com.Some?
      ensures com.Some? ==>
        && var o := Produced(old(committed), supply);
        && com.value == CommitmentOf(o, supply)
        && committed == o.book
        && (o.existsPartial || supply == FromIntegral(Total(old(committed))))
        && AllPaid(old(db.balances), db.balances, r, o)
        && |thunks| == |old(thunks)| && thunks[..|thunks| - 1] == old(thunks)[..|thunks| - 1]
        && thunks[|thunks| - 1] == ClearedThunk(old(thunks)[|thunks| - 1], old(committed), o)
      ensures uncommitted == old(uncommitted) && marked == old(marked)
      ensures com.Some? ==> rollback == old(rollback) - (if com.value.isNull then {} else {com.value.thresholdKey})
    {
      hide LiveBook, ClearingAllowed, Paid, Split, Minus, Total, Clearable, Shrink, Produced, PartialPay, OwnerOf,
        Floor, Ceil;
      ghost var book, before := committed, db.balances;
      ProducedIs(book, supply);
      SplitKeys(book, Floor(supply));
      if ClearingAllowed(book, before.Keys, supply, r) { AllowedClears(book, before.Keys, supply, r); }
      var clearAmount := Floor(supply);
      if clearAmount > MAX_ENDOW { return None; }
      var cleared := Split(committed, clearAmount);
      committed := Minus(committed, cleared);
      var ok := ApplyClear(cleared, r, db);
      if !ok { return None; }
      var total := Total(cleared);
      var remaining := supply - FromIntegral(total);
      var top := |thunks| - 1;
      thunks := thunks[top := thunks[top].(cleared := cleared)];
      if committed == map[] {
        if remaining != 0 { return None; }
        thunks := thunks[top := thunks[top].(existsPartial := false, partialKey := MAX_KEY)];
        assert AllPaid(before, db.balances, r, Produced(book, supply));
        return Some(Commitment(supply, remaining, 0, true));
      }
      ghost var mid := db.balances;
      assert Paid(before, mid, r, cleared);
      PaidAccounts(before, mid, r, cleared);
      var key, done := ClearPartially(remaining, r, db);
      if !done { return None; }
      assert AllPaid(before, db.balances, r, Produced(book, supply));
      return Some(Commitment(supply, remaining, key, false));
    }

    /** Clear the lowest offer left for what remains of the supply, and record it. */
    method ClearPartially(remaining: nat, r: Rates, db: AccountDb) returns (key: Key, ok: bool)
      requires r.buy > 0 && |thunks| > 0 && committed != map[]
      modifies this`committed, this`rollback, this`thunks, db
      ensures key == Lowest(old(committed)) && rollback == old(rollback) - {key}
      ensures ok <==> OwnerOf(key) in old(db.balances) && Ceil(remaining) <= old(committed)[key]
      ensures ok ==>
        && committed == Shrink(old(committed), key, Ceil(remaining))
        && db.balances == old(db.balances)[OwnerOf(key) := old(db.balances)[OwnerOf(key)] + PartialPay(r, remaining)]
        && thunks == old(thunks)[|old(thunks)| - 1 :=
             old(thunks)[|old(thunks)| - 1].(existsPartial := true, partialKey := key, partialAmount := Ceil(remaining),
                                             preexecute := old(committed)[key])]
    {
      ghost var low := Lowest(committed);
      key :| key in committed && forall j :: j in committed ==> key <= j;
      var amount := committed[key];
      rollback := rollback - {key};
      if OwnerOf(key) !in db.balances { return key, false; }
      db.TransferAvailable(OwnerOf(key), PartialPay(r, remaining));
      var sold := Ceil(remaining);
      if amount < sold { return key, false; }
      var top := |thunks| - 1;
      thunks := thunks[top := thunks[top].(existsPartial := true, partialKey := key, partialAmount := sold,
                                           preexecute := amount)];
      committed := Shrink(committed, key, sold);
      ok := true;
    }

    /** The validator's clearing against the commitment in a block's header. An offer taken
        out and put back when it cannot clear in part loses its rollback marker. */
    method TentativeClearOffersForValidation(com: Commitment, r: Rates, db: AccountDb, arrived: nat)
      returns (res: Verdict)
      requires r.buy > 0 && |thunks| > 0 && LiveBook(committed)
      modifies this, db
      ensures res.Valid? ==>
        && Validated(old(committed), com, arrived) == Accepted(OutcomeOf(old(committed), com, arrived), res.activated)
        && var o := OutcomeOf(old(committed), com, arrived);
        && committed == o.book
        && AllPaid(old(db.balances), db.balances, r, o)
        && |thunks| == |old(thunks)| && thunks[..|thunks| - 1] == old(thunks)[..|thunks| - 1]
        && thunks[|thunks| - 1] == ClearedThunk(old(thunks)[|thunks| - 1], old(committed), o)
        && rollback == old(rollback) - (if o.existsPartial then {com.thresholdKey} else {})
      ensures res.Valid? <==> ValidationAllowed(old(committed), old(db.balances).Keys, com, r)
      ensures res.Invalid? <==>
        || Validated(old(committed), com, 0).Rejected?
        || (com.thresholdKey in old(committed) && OwnerOf(com.thresholdKey) !in old(db.balances))
      ensures uncommitted == old(uncommitted)
      ensures res.Invalid? ==>
        && committed == old(committed) && thunks == old(thunks)
        && rollback == old(rollback) - (if com.thresholdKey in committed then {com.thresholdKey} else {})
    {
      hide Credit, TaxAndRound, WideMultiply, LiveBook, Paid, Split, Minus, Total, Clearable, Shrink, Below;
      ghost var book, before := committed, db.balances;
      ValidationKeys(book, com);
      var below := EndowLt(committed, com.thresholdKey);
      var activated := arrived + FromIntegral(below);
      var top := |thunks| - 1;
      if com.thresholdKey !in committed {
        if com.thresholdKey != 0 || com.partialAmount != 0 { return Invalid; }
        activated := activated + FromIntegral(Total(committed));
        var ok := ApplyClear(committed, r, db);
        if !ok { return Thrown; }
        thunks := thunks[top := thunks[top].(cleared := committed, existsPartial := false, partialKey := MAX_KEY)];
        committed := map[];
        assert AllPaid(before, db.balances, r, Outcome(map[], book, false, 0, 0));
        return Valid(activated);
      }
      var key := com.thresholdKey;
      var amount := committed[key];
      rollback := rollback - {key};
      var sold := Ceil(com.partialAmount);
      if OwnerOf(key) !in db.balances { return Invalid; }
      db.TransferAvailable(OwnerOf(key), PartialPay(r, com.partialAmount));
      if sold > amount { return Invalid; }
      ghost var mid := db.balances;
      var cleared := Split(committed - {key}, below);
      assert mid.Keys == before.Keys;
      assert Validated(book, com, 0).Accepted? ==> OutcomeOf(book, com, 0).cleared == cleared;
      var ok := ApplyClear(cleared, r, db);
      if !ok { return Thrown; }
      PaidAfterPartial(before, mid, db.balances, r, cleared, OwnerOf(key), PartialPay(r, com.partialAmount));
      thunks := thunks[top := thunks[top].(cleared := cleared, existsPartial := true, partialKey := key,
                                           partialAmount := sold, preexecute := amount)];
      MinusKeeps(book, key, below);
      committed := Shrink(Minus(committed, cleared), key, sold);
      assert AllPaid(before, db.balances, r, OutcomeOf(book, com, arrived));
      return Valid(activated);
    }

    /** Undo the newest block of a validator that rejects it: the offers in the book with the
        rollback marker go first, then the thunk is undone; cleared offers keep the marker they
        had, and come back with it. */
    method RollbackValidation()
      requires |thunks| > 0
      modifies this
      ensures committed == Undo(Without(old(committed), old(rollback)), old(thunks)[|old(thunks)| - 1].(added := map[]))
      ensures rollback == old(rollback) * old(thunks)[|old(thunks)| - 1].cleared.Keys
      ensures uncommitted == map[] && thunks == old(thunks)[..|old(thunks)| - 1]
      ensures marked == old(marked)
    {
      uncommitted := map[];
      committed := Without(committed, rollback);
      var thunk := thunks[|thunks| - 1].(added := map[]);
      rollback := rollback * thunk.cleared.Keys;
      committed := Undo(committed, thunk);
      thunks := thunks[..|thunks| - 1];
    }

    /** Undo every block of a producer past the given round, the oldest first. A round that is
        persisted already cannot be undone. */
    method RollbackThunks(current: nat, persisted: nat) returns (ok: bool)
      modifies this`committed, this`thunks
      ensures ok <==> persisted <= current
      ensures committed == if ok then UndoNewer(old(committed), old(thunks), current) else old(committed)
      ensures thunks == if ok then UpTo(old(thunks), current) else old(thunks)
    {
      if current < persisted { return false; }
      ok := true;
      var i := 0;
      ghost var done := 0;
      while i < |thunks|
        invariant 0 <= i <= |thunks| && 0 <= done <= |old(thunks)| && thunks[i..] == old(thunks)[done..]
        invariant UpTo(old(thunks), current) == thunks[..i] + UpTo(old(thunks)[done..], current)
        invariant UndoNewer(old(committed), old(thunks), current) == UndoNewer(committed, old(thunks)[done..], current)
        decreases |thunks| - i
      {
        ghost var was := thunks;
        assert thunks[i..][0] == thunks[i] == old(thunks)[done];
        assert old(thunks)[done..][1..] == old(thunks)[done + 1..];
        assert thunks[i..][1..] == thunks[i + 1..];
        if thunks[i].block > current {
          committed := Undo(committed, thunks[i]);
          thunks := thunks[..i] + thunks[i + 1..];
          assert thunks[i..] == was[i + 1..] && thunks[..i] == was[..i];
        } else {
          i := i + 1;
          assert thunks[..i] == was[..i - 1] + [was[i - 1]];
        }
        done := done + 1;
      }
      assert old(thunks)[done..] == [] && thunks[..i] == thunks;
    }
  }

  /** A validator's verdict on its clearing: a bad block, a throw, or accepted with the
      total of fully cleared offers. */
  datatype Verdict = Invalid | Thrown | Valid(activated: nat)

  function OutcomeOf(b: Book, com: Commitment, arrived: nat): Outcome {
    match Validated(b, com, arrived)
    case Rejected => Outcome(map[], map[], false, 0, 0)
    case Accepted(o, _) => o
  }

  /** The committed threshold is one the book accepts, and every offer it clears may be
      cleared. */
  ghost predicate ValidationAllowed(b: Book, accounts: set<nat>, com: Commitment, r: Rates)
    requires r.buy > 0
  {
    && Validated(b, com, 0).Accepted?
    && (com.thresholdKey in b ==> OwnerOf(com.thresholdKey) in accounts)
    && forall k :: k in OutcomeOf(b, com, 0).cleared ==> Clearable(accounts, r, k, b[k])
  }

  lemma ValidationKeys(b: Book, com: Commitment)
    requires LiveBook(b)
    ensures forall k :: k in b ==> k < MAX_KEY
    ensures forall k :: k in Split(b - {com.thresholdKey}, EndowLt(b, com.thresholdKey)) ==>
      k in b && k < MAX_KEY && Split(b - {com.thresholdKey}, EndowLt(b, com.thresholdKey))[k] == b[k]
  {
  }

  lemma MinusKeeps(b: Book, key: Key, x: nat)
    requires key in b
    ensures key in Minus(b, Split(b - {key}, x)) && Minus(b, Split(b - {key}, x))[key] == b[key]
  {
  }

  /** Paying the partial offer before the full ones comes to the same balances. */
  lemma PaidAfterPartial(was: map<nat, int>, mid: map<nat, int>, now: map<nat, int>, r: Rates, cleared: Book,
                         owner: nat, pay: nat)
    requires r.buy > 0 && owner in was && mid == was[owner := was[owner] + pay] && Paid(mid, now, r, cleared)
    ensures owner in now && Paid(was, now[owner := now[owner] - pay], r, cleared)
    ensures now == now[owner := now[owner] - pay][owner := now[owner := now[owner] - pay][owner] + pay]
  {
  }

  /** The outcome in the terms the producer computes it. */
  lemma ProducedIs(b: Book, supply: nat)
    requires LiveBook(b)
    ensures var cleared := Split(b, Floor(supply)); var rest := Minus(b, cleared); var o := Produced(b, supply);
      if rest == map[] then
        && o == Outcome(map[], b, false, 0, 0) && cleared == b && Total(cleared) == Total(b)
        && FromIntegral(Total(b)) <= supply
      else
        var t := Lowest(rest);
        && FromIntegral(Total(cleared)) <= supply
        && var remaining := supply - FromIntegral(Total(cleared));
        && t in b && rest[t] == b[t] && Ceil(remaining) <= b[t]
        && o == Outcome(Shrink(rest, t, Ceil(remaining)), cleared, true, t, remaining)
  {
    hide LiveBook;
    SplitAtLowest(b, Floor(supply));
    ClearedTotal(b, Floor(supply));
    PartialFits(b, supply);
  }

  lemma SplitKeys(b: Book, x: nat)
    requires LiveBook(b)
    ensures forall k :: k in Split(b, x) ==> k in b && Split(b, x)[k] == b[k] && k < MAX_KEY
    ensures forall k :: k in Minus(b, Split(b, x)) ==> k in b && Minus(b, Split(b, x))[k] == b[k]
  {
  }

  lemma PaidAccounts(was: map<nat, int>, now: map<nat, int>, r: Rates, cleared: Book)
    requires r.buy > 0 && Paid(was, now, r, cleared)
    ensures now.Keys == was.Keys
  {
  }

  lemma PartialFits(b: Book, supply: nat)
    requires LiveBook(b)
    ensures var o := Produced(b, supply); o.existsPartial ==>
      && o.partialKey in b && Ceil(o.remaining) <= b[o.partialKey]
      && o.remaining == supply - FromIntegral(EndowLt(b, o.partialKey))
  {
    SplitAtLowest(b, Floor(supply));
    var o := Produced(b, supply);
    if o.existsPartial { CeilFits(supply, EndowLt(b, o.partialKey), b[o.partialKey]); }
  }

  /** The prices, the supply and the accounts the block is produced with: the supply is
      within what the rate allows, and every owner exists. */
  ghost predicate ClearingAllowed(b: Book, accounts: set<nat>, supply: nat, r: Rates)
    requires r.buy > 0
  {
    && SupplyAllowed(b, supply, ExchangeRate(r.sell, r.buy))
    && Total(b) <= MAX_ENDOW
    && forall k :: k in b ==> OwnerOf(k) in accounts
  }

  /** Exactly what the producer's clearing needs: a supply of 63 bits, every offer it clears in full
      clearable, an account for the one it clears in part, and no supply left without one. */
  ghost predicate ProductionAllowed(b: Book, accounts: set<nat>, supply: nat, r: Rates)
    requires r.buy > 0 && LiveBook(b)
  {
    var o := Produced(b, supply);
    && Floor(supply) <= MAX_ENDOW
    && (forall k :: k in o.cleared ==> Clearable(accounts, r, k, o.cleared[k]))
    && (if o.existsPartial then OwnerOf(o.partialKey) in accounts else supply == FromIntegral(Total(b)))
  }

  /** The final balances: every fully cleared offer paid in full, the partial one for what
      was left to clear. */
  ghost predicate AllPaid(was: map<nat, int>, now: map<nat, int>, r: Rates, o: Outcome)
    requires r.buy > 0
  {
    exists mid :: Paid(was, mid, r, o.cleared) &&
      (if o.existsPartial then
         OwnerOf(o.partialKey) in mid &&
         now == mid[OwnerOf(o.partialKey) := mid[OwnerOf(o.partialKey)] + PartialPay(r, o.remaining)]
       else now == mid)
  }

  function ClearedThunk(t: BlockThunk, b: Book, o: Outcome): BlockThunk {
    if o.existsPartial then
      t.(cleared := o.cleared, existsPartial := true, partialKey := o.partialKey, partialAmount := Ceil(o.remaining),
         preexecute := AmountAt(b, o.partialKey))
    else t.(cleared := o.cleared, existsPartial := false, partialKey := MAX_KEY)
  }

  lemma ClearedTotal(b: Book, x: nat)
    requires LiveBook(b)
    ensures Minus(b, Split(b, x)) == map[] ==> Total(Split(b, x)) == Total(b)
    ensures Minus(b, Split(b, x)) != map[] ==> Total(Split(b, x)) == EndowLt(b, Lowest(Minus(b, Split(b, x))))
  {
    SplitAtLowest(b, x);
    if Minus(b, Split(b, x)) != map[] {
      EndowBelow(b, Lowest(Minus(b, Split(b, x))), MAX_KEY);
    }
  }

  /** With an allowed supply no throw of the producer's clearing is reachable. */
  lemma AllowedClears(b: Book, accounts: set<nat>, supply: nat, r: Rates)
    requires r.buy > 0 && LiveBook(b) && ClearingAllowed(b, accounts, supply, r)
    ensures Floor(supply) <= MAX_ENDOW
    ensures forall k :: k in Split(b, Floor(supply)) ==> Clearable(accounts, r, k, b[k])
    ensures !Produced(b, supply).existsPartial ==> supply == FromIntegral(Total(b))
    ensures forall k :: k in b ==> OwnerOf(k) in accounts
  {
    var rate := ExchangeRate(r.sell, r.buy);
    TradesWithinRate(b, supply, rate);
    EndowAtTop(b, (rate + 1) * PRICE_SPAN);
    assert Produced(b, supply).cleared == Split(b, Floor(supply)) by { SplitAtLowest(b, Floor(supply)); }
    forall k | k in Split(b, Floor(supply)) ensures Clearable(accounts, r, k, b[k]) {
      WithinRate(r.sell, r.buy, PriceOf(k));
    }
  }

  // ---- the validator's side of a block ----

  /** A worker's buffer while it validates transactions: an offer below the committed
      threshold clears the moment it arrives. */
  class ValidatingSerialManager {
    var newOffers: Book
    var activated: nat

    constructor ()
      ensures newOffers == map[] && activated == 0
    {
      newOffers, activated := map[], 0;
    }

    method AddOffer(k: Key, amount: nat, com: Commitment, r: Rates, db: AccountDb)
      requires r.buy > 0 && OwnerOf(k) in db.balances
      modifies this, db
      ensures if com.isNull || k < com.thresholdKey then
          && newOffers == old(newOffers) && activated == old(activated) + FromIntegral(amount)
          && db.balances == old(db.balances)[OwnerOf(k) := old(db.balances)[OwnerOf(k)] + FullPay(r, amount)]
        else
          newOffers == old(newOffers)[k := amount] && activated == old(activated) && db.balances == old(db.balances)
    {
      if com.isNull {
        db.TransferAvailable(OwnerOf(k), FullPay(r, amount));
        activated := activated + FromIntegral(amount);
        return;
      }
      if com.thresholdKey <= k {
        newOffers := newOffers[k := amount];
      } else {
        db.TransferAvailable(OwnerOf(k), FullPay(r, amount));
        activated := activated + FromIntegral(amount);
      }
    }
  }

  /** The new offers of a block arrive one by one, in any order. */
  method ReceiveOffers(arrivals: seq<Offer>, com: Commitment, r: Rates, db: AccountDb)
    returns (manager: ValidatingSerialManager)
    requires r.buy > 0
    requires forall i :: 0 <= i < |arrivals| ==> OwnerOf(arrivals[i].key) in db.balances && arrivals[i].key < MAX_KEY
    requires forall i, j :: 0 <= i < j < |arrivals| ==> arrivals[i].key != arrivals[j].key
    modifies db
    ensures fresh(manager)
    ensures var news := AddedMap(arrivals);
      && manager.newOffers == Minus(news, OnArrival(news, com))
      && manager.activated == FromIntegral(Total(OnArrival(news, com)))
      && Paid(old(db.balances), db.balances, r, OnArrival(news, com))
  {
    hide Received, Paid, FullPay, OnArrival, Minus, Total, OwnerOf, FromIntegral, AddedMap, IsAdded, SortedOffers;
    manager := new ValidatingSerialManager();
    NothingReceived(db.balances, r, com);
    ghost var news: Book := AddedMap([]);
    for i := 0 to |arrivals|
      invariant fresh(manager) && db.balances.Keys == old(db.balances).Keys
      invariant news == AddedMap(arrivals[..i])
      invariant Received(old(db.balances), db.balances, news, manager.newOffers, manager.activated, com, r)
    {
      var o := arrivals[i];
      ghost var mid, offers, activated := db.balances, manager.newOffers, manager.activated;
      AddedOneMore(arrivals, i);
      manager.AddOffer(o.key, o.amount, com, r, db);
      ReceivedOneMore(old(db.balances), mid, db.balances, news, offers, manager.newOffers,
                      activated, manager.activated, o.key, o.amount, com, r);
      news := news[o.key := o.amount];
    }
    assert arrivals[..|arrivals|] == arrivals;
    ReceivedMeans(old(db.balances), db.balances, AddedMap(arrivals), manager.newOffers, manager.activated, com, r);
  }

  /** The offers that wait join the orderbook, with the rollback marker. */
  method ReceiveBlock(book: Orderbook, arrivals: seq<Offer>, com: Commitment, r: Rates, db: AccountDb)
    returns (arrived: nat)
    requires r.buy > 0 && book.uncommitted == map[]
    requires forall i :: 0 <= i < |arrivals| ==> OwnerOf(arrivals[i].key) in db.balances && arrivals[i].key < MAX_KEY
    requires forall i, j :: 0 <= i < j < |arrivals| ==> arrivals[i].key != arrivals[j].key
    modifies db, book`uncommitted, book`uncommittedMarked
    ensures var news := AddedMap(arrivals);
      && book.uncommitted == Minus(news, OnArrival(news, com)) && book.uncommittedMarked
      && arrived == FromIntegral(Total(OnArrival(news, com)))
      && Paid(old(db.balances), db.balances, r, OnArrival(news, com))
  {
    hide Paid, OnArrival, Minus, Total, OwnerOf, FromIntegral, AddedMap;
    var manager := ReceiveOffers(arrivals, com, r, db);
    book.AddOffers(manager.newOffers, true);
    arrived := manager.activated;
  }

  /** A worker that has received exactly these new offers. */
  ghost predicate Received(was: map<nat, int>, now: map<nat, int>, news: Book, offers: Book, activated: nat,
                           com: Commitment, r: Rates)
    requires r.buy > 0
  {
    && offers == Minus(news, OnArrival(news, com))
    && activated == FromIntegral(Total(OnArrival(news, com)))
    && Paid(was, now, r, OnArrival(news, com))
  }

  lemma ReceivedMeans(was: map<nat, int>, now: map<nat, int>, news: Book, offers: Book, activated: nat,
                      com: Commitment, r: Rates)
    requires r.buy > 0 && Received(was, now, news, offers, activated, com, r)
    ensures offers == Minus(news, OnArrival(news, com)) && activated == FromIntegral(Total(OnArrival(news, com)))
    ensures Paid(was, now, r, OnArrival(news, com))
  {
  }

  lemma NothingReceived(was: map<nat, int>, r: Rates, com: Commitment)
    requires r.buy > 0
    ensures Received(was, was, AddedMap([]), map[], 0, com, r)
  {
    PaidNothing(was, r);
    NoneArrived(com);
  }

  lemma ReceivedOneMore(was: map<nat, int>, mid: map<nat, int>, now: map<nat, int>, news: Book, offers: Book,
                        offers': Book, activated: nat, activated': nat, k: Key, amount: nat, com: Commitment, r: Rates)
    requires r.buy > 0 && Received(was, mid, news, offers, activated, com, r)
    requires k !in news && k < MAX_KEY && OwnerOf(k) in mid
    requires if com.isNull || k < com.thresholdKey then
        && offers' == offers && activated' == activated + FromIntegral(amount)
        && now == mid[OwnerOf(k) := mid[OwnerOf(k)] + FullPay(r, amount)]
      else offers' == offers[k := amount] && activated' == activated && now == mid
    ensures Received(was, now, news[k := amount], offers', activated', com, r)
  {
    hide Paid, FullPay, OnArrival, Minus;
    ArrivedOneMore(news, k, amount, com);
    if com.isNull || k < com.thresholdKey {
      PaidMore(was, mid, now, r, OnArrival(news, com), k, amount);
    }
  }

  lemma NoneArrived(com: Commitment)
    ensures AddedMap([]) == map[] && OnArrival(map[], com) == map[] && Minus(map[], map[]) == map[]
    ensures Total(map[]) == 0
  {
    EmptyTotal(MAX_KEY);
  }

  lemma {:induction false} EmptyTotal(k: Key)
    ensures EndowLt(map[], k) == 0
  {
    if k > 0 { EmptyTotal(k - 1); }
  }

  lemma {:induction false} OneTotal(key: Key, amount: nat, k: Key)
    ensures EndowLt(map[key := amount], k) == if key < k then amount else 0
  {
    if k > 0 { OneTotal(key, amount, k - 1); }
  }

  lemma AddedOneMore(arrivals: seq<Offer>, i: nat)
    requires i < |arrivals|
    requires forall a, b :: 0 <= a < b < |arrivals| ==> arrivals[a].key != arrivals[b].key
    ensures AddedMap(arrivals[..i + 1]) == AddedMap(arrivals[..i])[arrivals[i].key := arrivals[i].amount]
    ensures arrivals[i].key !in AddedMap(arrivals[..i])
  {
    assert arrivals[..i + 1][..i] == arrivals[..i];
  }

  lemma ArrivedOneMore(news: Book, k: Key, amount: nat, com: Commitment)
    requires k !in news && k < MAX_KEY
    ensures var more := news[k := amount];
      && k !in OnArrival(news, com)
      && (if com.isNull || k < com.thresholdKey then
            && OnArrival(more, com) == OnArrival(news, com)[k := amount]
            && Total(OnArrival(more, com)) == Total(OnArrival(news, com)) + amount
            && Minus(more, OnArrival(more, com)) == Minus(news, OnArrival(news, com))
          else
            && OnArrival(more, com) == OnArrival(news, com)
            && Minus(more, OnArrival(more, com)) == Minus(news, OnArrival(news, com))[k := amount])
  {
    var more, was := news[k := amount], OnArrival(news, com);
    if com.isNull || k < com.thresholdKey {
      assert OnArrival(more, com) == was[k := amount] == was + map[k := amount];
      EndowUnion(was, map[k := amount], MAX_KEY);
      OneTotal(k, amount, MAX_KEY);
      assert Minus(more, OnArrival(more, com)) == Minus(news, was);
    } else {
      assert OnArrival(more, com) == was;
      assert Minus(more, was) == Minus(news, was)[k := amount];
    }
  }

  /** Producer and validator make the same payments. */
  lemma PaymentsAgree(was: map<nat, int>, arrived: map<nat, int>, nowP: map<nat, int>, nowV: map<nat, int>,
                      r: Rates, prior: Book, news: Book, supply: nat)
    requires r.buy > 0 && prior.Keys !! news.Keys && LiveBook(prior + news)
    requires Produced(prior + news, supply).existsPartial || supply == FromIntegral(Total(prior + news))
    requires var p := Produced(prior + news, supply);
      var com := CommitmentOf(p, supply);
      && AllPaid(was, nowP, r, p)
      && Paid(was, arrived, r, OnArrival(news, com))
      && AllPaid(arrived, nowV, r,
                 OutcomeOf(ValidatorBook(prior, news, com), com, FromIntegral(Total(OnArrival(news, com)))))
    ensures nowP == nowV
  {
    hide ValidatorBook, OnArrival, Produced, LiveBook, AllPaid;
    var p := Produced(prior + news, supply);
    var com := CommitmentOf(p, supply);
    ValidatorAgrees(prior, news, supply);
    var v := OutcomeOf(ValidatorBook(prior, news, com), com, FromIntegral(Total(OnArrival(news, com))));
    PaymentsMatch(was, arrived, nowP, nowV, r, OnArrival(news, com), p, v);
  }

  lemma PaymentsMatch(was: map<nat, int>, arrived: map<nat, int>, nowP: map<nat, int>, nowV: map<nat, int>,
                      r: Rates, early: Book, p: Outcome, v: Outcome)
    requires r.buy > 0 && AllPaid(was, nowP, r, p) && Paid(was, arrived, r, early) && AllPaid(arrived, nowV, r, v)
    requires v.cleared.Keys !! early.Keys && v.cleared + early == p.cleared
    requires v.existsPartial == p.existsPartial && v.partialKey == p.partialKey && v.remaining == p.remaining
    ensures nowP == nowV
  {
    hide Paid, PartialPay;
    var midP :| Paid(was, midP, r, p.cleared) &&
      (if p.existsPartial then OwnerOf(p.partialKey) in midP &&
         nowP == midP[OwnerOf(p.partialKey) := midP[OwnerOf(p.partialKey)] + PartialPay(r, p.remaining)]
         else nowP == midP);
    var midV :| Paid(arrived, midV, r, v.cleared) &&
      (if v.existsPartial then OwnerOf(v.partialKey) in midV &&
         nowV == midV[OwnerOf(v.partialKey) := midV[OwnerOf(v.partialKey)] + PartialPay(r, v.remaining)]
         else nowV == midV);
    PaidBoth(was, arrived, midV, r, early, v.cleared);
    assert early + v.cleared == p.cleared;
    PaidUnique(was, midP, midV, r, p.cleared);
  }

  lemma PaidUnique(was: map<nat, int>, a: map<nat, int>, b: map<nat, int>, r: Rates, cleared: Book)
    requires r.buy > 0 && Paid(was, a, r, cleared) && Paid(was, b, r, cleared)
    ensures a == b
  {
    forall o | o in was ensures a[o] == b[o] {
    }
  }

  // ---- undoing the newest block ----

  /** The thunk of a cleared block over a book: its cancellations, its new offers, its outcome. */
  function BlockThunkOf(block: nat, book: Book, cancelled: set<Key>, added: Book, b: Book, o: Outcome): BlockThunk {
    ClearedThunk(BlockThunk(block, added, Restricted(book, cancelled), map[], false, 0, -1, 0), b, o)
  }

  /** Undoing a producer's block restores the earlier book exactly when the partially
      executed offer, if there is one, was there before the block. */
  lemma ProducerUndo(block: nat, book: Book, cancelled: set<Key>, news: Book, supply: nat)
    requires book.Keys !! news.Keys && LiveBook(Without(book, cancelled) + news)
    ensures var b := Without(book, cancelled) + news;
      var o := Produced(b, supply);
      Undo(o.book, BlockThunkOf(block, book, cancelled, news, b, o)) == book
      <==> (o.existsPartial ==> o.partialKey !in news)
  {
    hide LiveBook, Produced, Undo, BlockThunkOf;
    var b := Without(book, cancelled) + news;
    var o := Produced(b, supply);
    ProducedShape(b, supply);
    assert Without(o.book, {}) == o.book;
    UndoOf(block, book, cancelled, news, news, {}, b, o);
  }

  lemma ProducedShape(b: Book, supply: nat)
    requires LiveBook(b)
    ensures OutcomeShape(b, Produced(b, supply))
  {
    hide LiveBook;
    SplitAtLowest(b, Floor(supply));
    PartialFits(b, supply);
    var o := Produced(b, supply);
    if o.existsPartial { assert Minus(b, Below(b, o.partialKey)) == From(b, o.partialKey); }
  }

  /** The rollback markers left after a validator's clearing: those of the new offers it
      kept, less the partially executed offer's. */
  function MarkersAfter(news: Book, com: Commitment, o: Outcome): set<Key> {
    Minus(news, OnArrival(news, com)).Keys - (if o.existsPartial then {o.partialKey} else {})
  }

  /** The outcome of a clearing, by its book and its cleared offers. */
  ghost predicate OutcomeShape(b: Book, o: Outcome) {
    if o.existsPartial then
      && o.partialKey in b && o.cleared == Below(b, o.partialKey)
      && Ceil(o.remaining) <= b[o.partialKey]
      && o.book == Shrink(From(b, o.partialKey), o.partialKey, Ceil(o.remaining))
    else o.book == map[] && o.cleared == b
  }

  lemma AcceptedOutcome(b: Book, com: Commitment, arrived: nat)
    ensures var v := Validated(b, com, arrived); v.Accepted? ==> OutcomeOf(b, com, arrived) == v.outcome
  {
  }

  /** Whatever the commitment, a clearing the validator accepts has this shape. */
  lemma AcceptedShape(b: Book, com: Commitment, arrived: nat)
    requires LiveBook(b) && Validated(b, com, arrived).Accepted?
    ensures var o := OutcomeOf(b, com, arrived);
      && OutcomeShape(b, o) && o.existsPartial == (com.thresholdKey in b)
      && (if o.existsPartial then o.partialKey == com.thresholdKey else com.thresholdKey == 0)
  {
    var t := com.thresholdKey;
    if t in b {
      SplitWithout(b, t);
      assert Minus(b, Below(b, t)) == From(b, t);
    }
  }

  /** A cleared book over an earlier one: its new offers are dropped through the thunk or
      through their markers. */
  ghost predicate Cleared(book: Book, cancelled: set<Key>, kept: Book, added: Book, markers: set<Key>, b: Book,
                          o: Outcome) {
    && book.Keys !! kept.Keys
    && b.Keys == Without(book, cancelled).Keys + kept.Keys
    && (forall k :: k in Without(book, cancelled) ==> b[k] == book[k])
    && OutcomeShape(b, o)
    && ((added == kept && markers == {}) ||
        (added == map[] && markers == kept.Keys - (if o.existsPartial then {o.partialKey} else {})))
    && (added == map[] ==> o.cleared.Keys !! kept.Keys)
  }

  /** Undoing restores the earlier book exactly when the partially executed offer is not one
      of the new ones. */
  lemma UndoOf(block: nat, book: Book, cancelled: set<Key>, kept: Book, added: Book, markers: set<Key>, b: Book,
               o: Outcome)
    requires Cleared(book, cancelled, kept, added, markers, b, o)
    ensures Undo(Without(o.book, markers), BlockThunkOf(block, book, cancelled, added, b, o)) == book
      <==> (o.existsPartial ==> o.partialKey !in kept)
  {
    var u := Undo(Without(o.book, markers), BlockThunkOf(block, book, cancelled, added, b, o));
    if o.existsPartial && o.partialKey in kept {
      assert o.partialKey in u && o.partialKey !in book;
    } else {
      hide Undo, BlockThunkOf, Cleared, Without;
      forall k ensures (k in u <==> k in book) && (k in book ==> u[k] == book[k]) {
        UndoKey(block, book, cancelled, kept, added, markers, b, o, k);
      }
    }
  }

  lemma UndoKey(block: nat, book: Book, cancelled: set<Key>, kept: Book, added: Book, markers: set<Key>, b: Book,
                o: Outcome, k: Key)
    requires Cleared(book, cancelled, kept, added, markers, b, o) && (o.existsPartial ==> o.partialKey !in kept)
    ensures var u := Undo(Without(o.book, markers), BlockThunkOf(block, book, cancelled, added, b, o));
      (k in u <==> k in book) && (k in book ==> u[k] == book[k])
  {
  }

  /** A producer's undo that fails: the new offer clears in part, its cleared half is lost
      with it, and undoing puts back an offer that was not there before. */
  lemma ProducerUndoCanFail()
    ensures var news: Book, supply := map[PRICE_SPAN := 2], FRACTION_ONE;
      var o := Produced(map[] + news, supply);
      && LiveBook(Without(map[], {}) + news)
      && o.existsPartial && o.partialKey == PRICE_SPAN
      && PRICE_SPAN in Undo(o.book, BlockThunkOf(1, map[], {}, news, Without(map[], {}) + news, o))
  {
    var news: Book, supply := map[PRICE_SPAN := 2], FRACTION_ONE;
    assert Without(map[], {}) + news == news == map[] + news;
    assert LiveBook(news);
    OneTotal(PRICE_SPAN, 2, PRICE_SPAN + 1);
    assert Floor(supply) == 1;
    assert Split(news, 1) == map[];
    assert Minus(news, map[]) == news;
    SplitAtLowest(news, 1);
  }

  /** A producer commits a block and clears it: the thunk it leaves is the block's. */
  method ProduceBlock(book: Orderbook, block: nat, supply: nat, r: Rates, db: AccountDb)
    returns (com: Option<Commitment>)
    requires r.buy > 0 && book.committed.Keys !! book.uncommitted.Keys
    requires book.thunks == [] || book.thunks[|book.thunks| - 1].block < block
    requires LiveBook(Without(book.committed, book.marked) + book.uncommitted)
    modifies book, db
    ensures var b := Without(old(book.committed), old(book.marked)) + old(book.uncommitted);
      && (com.Some? <==> ProductionAllowed(b, old(db.balances).Keys, supply, r))
      && (ClearingAllowed(b, old(db.balances).Keys, supply, r) ==> com.Some?)
      && (com.Some? ==>
            var o := Produced(b, supply);
            && book.committed == o.book && com.value == CommitmentOf(o, supply)
            && AllPaid(old(db.balances), db.balances, r, o)
            && book.thunks == old(book.thunks) +
                 [BlockThunkOf(block, old(book.committed), old(book.marked), old(book.uncommitted), b, o)])
  {
    hide LiveBook, Produced, AllPaid, ClearingAllowed, ProductionAllowed;
    var ok := book.TentativeCommitForValidation(block);
    com := book.ProcessClearOffers(supply, r, db);
  }

  // ---- a validator that refuses the block ----

  /** Undoing a block whose clearing the validator accepted, and that it refuses for a later
      reason, restores the earlier book for every commitment exactly when every new offer
      cleared on arrival, there were none, or the threshold offer was there before. */
  lemma ValidatorUndo(block: nat, book: Book, cancelled: set<Key>, news: Book, com: Commitment, arrived: nat)
    requires book.Keys !! news.Keys && LiveBook(Without(book, cancelled) + news)
    requires Validated(ValidatorBook(Without(book, cancelled), news, com), com, arrived).Accepted?
    ensures var w := ValidatorBook(Without(book, cancelled), news, com);
      var o := OutcomeOf(w, com, arrived);
      Undo(Without(o.book, MarkersAfter(news, com, o)), BlockThunkOf(block, book, cancelled, map[], w, o)) == book
      <==> com.isNull || news == map[] || com.thresholdKey in Without(book, cancelled)
  {
    hide LiveBook, Undo, Validated, BlockThunkOf, OutcomeShape;
    var prior := Without(book, cancelled);
    var w := ValidatorBook(prior, news, com);
    var o := OutcomeOf(w, com, arrived);
    var kept := Minus(news, OnArrival(news, com));
    WaitingBook(prior, news, com);
    AcceptedShape(w, com, arrived);
    AcceptedOutcome(w, com, arrived);
    if o.existsPartial || kept == map[] {
      if kept == map[] && !com.isNull && !o.existsPartial { assert forall k: Key :: k in news ==> false; }
      ClearedMissesKept(prior, news, com, o);
      UndoOf(block, book, cancelled, kept, map[], MarkersAfter(news, com, o), w, o);
    } else {
      KeptStays(block, book, cancelled, kept, MarkersAfter(news, com, o), w, o);
    }
  }

  /** The book a validator clears: the old offers, and the new ones it kept. */
  lemma WaitingBook(prior: Book, news: Book, com: Commitment)
    requires prior.Keys !! news.Keys && LiveBook(prior + news)
    ensures var w, kept := ValidatorBook(prior, news, com), Minus(news, OnArrival(news, com));
      && LiveBook(w) && w.Keys == prior.Keys + kept.Keys && w == prior + kept
      && (forall k :: k in prior ==> w[k] == prior[k])
      && (kept == map[] <==> com.isNull || forall k :: k in news ==> k < com.thresholdKey)
      && (forall k :: k in kept <==> k in news && !com.isNull && com.thresholdKey <= k)
  {
    var w := ValidatorBook(prior, news, com);
    assert forall k :: k in w ==> k in prior + news && w[k] == (prior + news)[k];
    if !com.isNull && forall k :: k in news ==> k < com.thresholdKey {
      assert Minus(news, OnArrival(news, com)) == map[];
    }
  }

  lemma ClearedMissesKept(prior: Book, news: Book, com: Commitment, o: Outcome)
    requires prior.Keys !! news.Keys && OutcomeShape(ValidatorBook(prior, news, com), o)
    requires o.existsPartial ==> o.partialKey == com.thresholdKey
    requires o.existsPartial || Minus(news, OnArrival(news, com)) == map[]
    ensures o.cleared.Keys !! Minus(news, OnArrival(news, com)).Keys
  {
  }

  /** When everything left clears, the new offers among it come back with the old ones. */
  lemma KeptStays(block: nat, book: Book, cancelled: set<Key>, kept: Book, markers: set<Key>, b: Book, o: Outcome)
    requires book.Keys !! kept.Keys && kept != map[] && kept.Keys <= b.Keys
    requires OutcomeShape(b, o) && !o.existsPartial
    ensures Undo(Without(o.book, markers), BlockThunkOf(block, book, cancelled, map[], b, o)) != book
  {
    var k :| k in kept;
    assert k in Undo(Without(o.book, markers), BlockThunkOf(block, book, cancelled, map[], b, o));
  }

  /** Undoing a block whose clearing the validator refused restores the earlier book exactly
      when the threshold offer is not among the new offers that wait. */
  lemma RefusedUndo(block: nat, book: Book, cancelled: set<Key>, news: Book, com: Commitment)
    requires book.Keys !! news.Keys && LiveBook(Without(book, cancelled) + news)
    ensures var w := ValidatorBook(Without(book, cancelled), news, com);
      var threshold := if com.thresholdKey in w then {com.thresholdKey} else {};
      var markers := Minus(news, OnArrival(news, com)).Keys - threshold;
      Undo(Without(w, markers), BlockThunk(block, map[], Restricted(book, cancelled), map[], false, 0, -1, 0)) == book
      <==> com.isNull || com.thresholdKey !in news
  {
    hide LiveBook;
    var prior := Without(book, cancelled);
    var w := ValidatorBook(prior, news, com);
    WaitingBook(prior, news, com);
    var markers := Minus(news, OnArrival(news, com)).Keys - (if com.thresholdKey in w then {com.thresholdKey} else {});
    var u := Undo(Without(w, markers), BlockThunk(block, map[], Restricted(book, cancelled), map[], false, 0, -1, 0));
    if com.isNull || com.thresholdKey !in news {
      forall k ensures (k in u <==> k in book) && (k in book ==> u[k] == book[k]) {
      }
    } else {
      assert com.thresholdKey in u && com.thresholdKey !in book;
    }
  }

  /** A validator's undo that fails: with the zero key and without the null flag the clearing
      is accepted, only the statistics refuse it, and the new offer outlives the rollback. */
  lemma ValidatorUndoCanFail()
    ensures var news: Book, com := map[PRICE_SPAN := 1], Commitment(1024, 0, 0, false);
      var w := ValidatorBook(Without(map[], {}), news, com);
      var v := Validated(w, com, 0);
      && v.Accepted? && !CheckStats(com, v.activated)
      && PRICE_SPAN in Undo(Without(v.outcome.book, MarkersAfter(news, com, v.outcome)),
                            BlockThunkOf(1, map[], {}, map[], w, v.outcome))
  {
    var news: Book, com := map[PRICE_SPAN := 1], Commitment(1024, 0, 0, false);
    var w := ValidatorBook(Without(map[], {}), news, com);
    assert PRICE_SPAN in w && 0 !in w;
  }

  lemma AddedApart(block: nat, book: Book, cancelled: set<Key>, added: Book, b: Book, o: Outcome)
    ensures BlockThunkOf(block, book, cancelled, added, b, o)
      == ClearedThunk(BlockThunk(block, added, Restricted(book, cancelled), map[], false, 0, -1, 0), b, o)
    ensures BlockThunkOf(block, book, cancelled, added, b, o).(added := map[])
      == BlockThunkOf(block, book, cancelled, map[], b, o)
  {
  }

  /** The markers that come back with the cleared offers: none when a threshold offer keeps
      the new offers in the book, and all of them when the whole book clears. */
  lemma MarkersBack(block: nat, book: Book, cancelled: set<Key>, news: Book, added: Book, com: Commitment, arrived: nat)
    requires book.Keys !! news.Keys && LiveBook(Without(book, cancelled) + news)
    requires Validated(ValidatorBook(Without(book, cancelled), news, com), com, arrived).Accepted?
    ensures var w, kept := ValidatorBook(Without(book, cancelled), news, com), Minus(news, OnArrival(news, com)).Keys;
      var o := OutcomeOf(w, com, arrived);
      MarkersAfter(news, com, o) * BlockThunkOf(block, book, cancelled, added, w, o).cleared.Keys
      == if com.thresholdKey in w then {} else kept
  {
    hide LiveBook, Validated;
    var prior := Without(book, cancelled);
    var w := ValidatorBook(prior, news, com);
    WaitingBook(prior, news, com);
    AcceptedShape(w, com, arrived);
  }

  /** A validator commits a block, clears it, and then refuses the block: whatever the header
      says, the rollback leaves the earlier book exactly under these conditions. */
  method RefuseBlock(book: Orderbook, block: nat, ghost news: Book, com: Commitment, r: Rates, db: AccountDb,
                     arrived: nat)
    returns (res: Verdict)
    requires r.buy > 0 && book.rollback == {} && book.uncommittedMarked
    requires book.thunks == [] || book.thunks[|book.thunks| - 1].block < block
    requires book.committed.Keys !! news.Keys && LiveBook(Without(book.committed, book.marked) + news)
    requires book.uncommitted == Minus(news, OnArrival(news, com))
    modifies book, db
    ensures var prior := Without(old(book.committed), old(book.marked));
      match res
      case Valid(_) =>
        book.committed == old(book.committed) <==> com.isNull || news == map[] || com.thresholdKey in prior
      case Invalid => book.committed == old(book.committed) <==> com.isNull || com.thresholdKey !in news
      case Thrown => true
    ensures !res.Thrown? ==> book.thunks == old(book.thunks)
    ensures var w := ValidatorBook(Without(old(book.committed), old(book.marked)), news, com);
      && (res.Valid? ==>
            book.rollback == if com.thresholdKey in w then {} else Minus(news, OnArrival(news, com)).Keys)
      && (res.Invalid? ==> book.rollback == {})
  {
    hide LiveBook, Undo, Validated, AllPaid, OutcomeShape, ValidationAllowed, FromIntegral, Ceil, ClearedThunk,
      BlockThunkOf, OnArrival, Minus;
    ghost var was, cancelled, kept := book.committed, book.marked, book.uncommitted;
    ghost var w := ValidatorBook(Without(was, cancelled), news, com);
    assert LiveBook(w) && Without(was, cancelled) + kept == w && was.Keys !! kept.Keys by {
      WaitingBook(Without(was, cancelled), news, com);
    }
    var ok := book.TentativeCommitForValidation(block);
    assert book.committed == w && book.rollback == kept.Keys;
    res := book.TentativeClearOffersForValidation(com, r, db, arrived);
    if res.Thrown? { return; }
    book.RollbackValidation();
    if res.Valid? {
      ghost var o := OutcomeOf(w, com, arrived);
      ValidatorUndo(block, was, cancelled, news, com, arrived);
      AcceptedOutcome(w, com, arrived);
      AcceptedShape(w, com, arrived);
      AddedApart(block, was, cancelled, kept, w, o);
      MarkersBack(block, was, cancelled, news, kept, com, arrived);
      assert book.committed == Undo(Without(o.book, MarkersAfter(news, com, o)),
                                    BlockThunkOf(block, was, cancelled, map[], w, o));
    } else {
      RefusedUndo(block, was, cancelled, news, com);
    }
  }

  // ---- the thunk as it is persisted ----

  /** The persisted form of a block's thunk: its cancelled keys once each, its new offers in
      key order, and its partial execution. */
  ghost predicate FormOf(t: Thunk, u: BlockThunk) {
    && t.block == u.block
    && (forall k :: k in t.deleted <==> k in u.deleted)
    && (forall i, j :: 0 <= i < j < |t.deleted| ==> t.deleted[i] != t.deleted[j])
    && SortedOffers(t.added) && AddedMap(t.added) == u.added
    && t.existsPartial == u.existsPartial && t.partialKey == u.partialKey && t.partialAmount == u.partialAmount
  }

  /** What a block does to a book: cancel, add, and clear to an outcome. */
  datatype BlockStep = BlockStep(block: nat, cancelled: set<Key>, added: Book, outcome: Outcome)

  function StepThunk(book: Book, step: BlockStep): BlockThunk {
    BlockThunkOf(step.block, book, step.cancelled, step.added, Without(book, step.cancelled) + step.added, step.outcome)
  }

  /** A step some block can make: its new offers have keys never used before, and its outcome
      is one of a clearing. */
  ghost predicate SoundStep(book: Book, used: set<Key>, step: BlockStep) {
    var b := Without(book, step.cancelled) + step.added;
    && step.added.Keys !! used && LiveBook(b) && OutcomeShape(b, step.outcome)
  }

  /** The persisted thunk of a block is one the batch expects, and applying it on disk gives
      the book that clearing left in memory. */
  lemma StepPersists(book: Book, used: set<Key>, step: BlockStep, t: Thunk)
    requires LiveBook(book) && book.Keys <= used && SoundStep(book, used, step) && FormOf(t, StepThunk(book, step))
    ensures ValidThunk(book, used, t) && Apply(book, t) == step.outcome.book
    ensures LiveBook(step.outcome.book) && step.outcome.book.Keys <= UsedAfter(used, t)
  {
    hide LiveBook, OutcomeShape, FormOf, Committed, Apply, IsAdded, SortedOffers, Ceil;
    var b := Without(book, step.cancelled) + step.added;
    FormMeans(book, step, t);
    AddedSound(book, used, step, t);
    ShapePartial(b, step.outcome);
    ShapeApplies(t, book, b, step.outcome);
    ShapeKeeps(b, step.outcome);
  }

  lemma FormMeans(book: Book, step: BlockStep, t: Thunk)
    requires FormOf(t, StepThunk(book, step))
    ensures Committed(book, t) == Without(book, step.cancelled) + step.added
    ensures AddedMap(t.added) == step.added && SortedOffers(t.added)
    ensures forall k :: k in t.deleted ==> k in book
    ensures forall i, j :: 0 <= i < j < |t.deleted| ==> t.deleted[i] != t.deleted[j]
    ensures t.existsPartial == step.outcome.existsPartial
    ensures if t.existsPartial
      then t.partialKey == step.outcome.partialKey && t.partialAmount == Ceil(step.outcome.remaining)
      else t.partialKey == MAX_KEY
  {
    hide IsAdded, Ceil;
  }

  lemma AddedSound(book: Book, used: set<Key>, step: BlockStep, t: Thunk)
    requires SoundStep(book, used, step) && FormOf(t, StepThunk(book, step))
    ensures forall i :: 0 <= i < |t.added| ==>
      t.added[i].key !in used && t.added[i].amount > 0 && t.added[i].key < MAX_KEY
  {
    hide OutcomeShape;
    forall i | 0 <= i < |t.added|
      ensures t.added[i].key !in used && t.added[i].amount > 0 && t.added[i].key < MAX_KEY
    {
      assert IsAdded(t.added, t.added[i].key);
      assert step.added[t.added[i].key] == t.added[i].amount;
      assert t.added[i].key in Without(book, step.cancelled) + step.added;
    }
  }

  lemma ShapePartial(b: Book, o: Outcome)
    requires OutcomeShape(b, o)
    ensures o.existsPartial ==> o.partialKey in b && Ceil(o.remaining) <= b[o.partialKey]
  {
  }

  lemma ShapeKeeps(b: Book, o: Outcome)
    requires LiveBook(b) && OutcomeShape(b, o)
    ensures LiveBook(o.book) && o.book.Keys <= b.Keys
  {
  }

  /** Steps one after the other, each with its persisted thunk. */
  ghost predicate SoundSteps(book: Book, used: set<Key>, steps: seq<BlockStep>, s: seq<Thunk>)
    decreases |steps|
  {
    && |s| == |steps|
    && (steps != [] ==>
          && SoundStep(book, used, steps[0]) && FormOf(s[0], StepThunk(book, steps[0]))
          && SoundSteps(steps[0].outcome.book, UsedAfter(used, s[0]), steps[1..], s[1..]))
  }

  function FinalBook(book: Book, steps: seq<BlockStep>): Book {
    if steps == [] then book else steps[|steps| - 1].outcome.book
  }

  /** The thunks that a run of blocks leaves behind are a run the batch expects, and applying
      them one block at a time gives the book in memory. */
  lemma {:induction false} StepsPersist(book: Book, used: set<Key>, steps: seq<BlockStep>, s: seq<Thunk>)
    requires LiveBook(book) && book.Keys <= used && SoundSteps(book, used, steps, s)
    ensures ValidRun(book, used, s) && Run(book, s) == FinalBook(book, steps)
    decreases |steps|
  {
    hide SoundStep, FormOf, ValidThunk, Apply, UsedAfter, LiveBook, StepThunk, OutcomeShape;
    LivePositive(book);
    if steps != [] {
      StepPersists(book, used, steps[0], s[0]);
      StepsPersist(steps[0].outcome.book, UsedAfter(used, s[0]), steps[1..], s[1..]);
    }
  }

  lemma LivePositive(book: Book)
    requires LiveBook(book)
    ensures forall k :: k in book ==> book[k] > 0 && k < MAX_KEY
  {
  }

  /** Persist the thunks of such blocks in one batch: it leaves on disk the book in memory
      exactly when the batch has no stale and no blocked offer. */
  method Persist(lmdb: OrderbookLMDB, current: nat, ghost used: set<Key>, ghost steps: seq<BlockStep>)
    returns (status: WriteStatus)
    requires LiveBook(lmdb.db) && lmdb.db.Keys <= used
    requires SoundSteps(lmdb.db, used, steps, Relevant(lmdb.thunks, current))
    modifies lmdb
    ensures lmdb.thunks == Later(old(lmdb.thunks), current) && status != WriteStatus.Failed
    ensures if status == Written
      then lmdb.db == FinalBook(old(lmdb.db), steps) <==> BatchExact(old(lmdb.db), Relevant(old(lmdb.thunks), current))
      else lmdb.db == old(lmdb.db)
  {
    hide *;
    StepsPersist(lmdb.db, used, steps, Relevant(lmdb.thunks, current));
    status := lmdb.WriteThunks(current, used);
  }

  /** The producer's outcome is that of a clearing. */
  lemma ProducedStep(block: nat, book: Book, used: set<Key>, cancelled: set<Key>, news: Book, supply: nat)
    requires LiveBook(Without(book, cancelled) + news) && news.Keys !! used
    ensures SoundStep(book, used, BlockStep(block, cancelled, news, Produced(Without(book, cancelled) + news, supply)))
  {
    hide LiveBook, Produced, OutcomeShape;
    ProducedShape(Without(book, cancelled) + news, supply);
  }

  /** So is the validator's, whose thunk adds only the offers that waited. */
  lemma ValidatedStep(block: nat, book: Book, used: set<Key>, cancelled: set<Key>, news: Book, com: Commitment,
                      arrived: nat)
    requires book.Keys <= used && news.Keys !! used && LiveBook(Without(book, cancelled) + news)
    requires Validated(ValidatorBook(Without(book, cancelled), news, com), com, arrived).Accepted?
    ensures var kept := Minus(news, OnArrival(news, com));
      var o := OutcomeOf(Without(book, cancelled) + kept, com, arrived);
      SoundStep(book, used, BlockStep(block, cancelled, kept, o))
  {
    hide LiveBook, OutcomeShape, Validated;
    WaitingBook(Without(book, cancelled), news, com);
    AcceptedShape(ValidatorBook(Without(book, cancelled), news, com), com, arrived);
  }

  lemma ShapeApplies(t: Thunk, book: Book, b: Book, o: Outcome)
    requires OutcomeShape(b, o) && Committed(book, t) == b && t.existsPartial == o.existsPartial
    requires o.existsPartial ==> t.partialKey == o.partialKey && t.partialAmount == Ceil(o.remaining)
    ensures Apply(book, t) == o.book
  {
    hide Committed;
    if o.existsPartial {
      assert From(b, o.partialKey)[o.partialKey] == b[o.partialKey];
    }
  }
}
