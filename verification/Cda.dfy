/** The continuous double auction: a taker is matched against the resting offers of one
    book and its remainder rests in the other. */
module Cda {
  import opened Accounts
  import opened Persistence
  import opened Pricing
  import opened Clearing
  import opened OfferKeys

  // ---- one fill ----

  /** Divide by the price unit, rounding up. */
  function RoundUp(x: nat): nat {
    x / PRICE_ONE + (if x % PRICE_ONE != 0 then 1 else 0)
  }

  /** A maker gives up an amount of what it sells and is paid a cost in what it buys. */
  datatype Fill = Fill(key: Key, given: nat, cost: nat)

  /** What a taker with this much left to sell takes from a maker. */
  function FillOf(k: Key, amount: nat, left: nat): Fill
    requires PriceOf(k) > 0
  {
    var maxConsumed, leftConsumed := PriceOf(k) * amount, left * PRICE_ONE;
    var realized := if maxConsumed <= leftConsumed then maxConsumed else leftConsumed;
    Fill(k, realized / PriceOf(k), RoundUp(realized))
  }

  /** The three throws of the matching loop cannot happen: the cost fits in what is left,
      the maker gives no more than it has, and gives less only when nothing is left. The
      maker is never paid below its price, and the taker overpays by less than one unit of
      what it sells, or of what it buys when it takes only part of the offer. */
  lemma FillSound(k: Key, amount: nat, left: nat)
    requires PriceOf(k) > 0
    ensures var f := FillOf(k, amount, left);
      && f.cost <= left && f.given <= amount
      && (f.given < amount ==> f.cost == left)
      && (f.given == amount <==> PriceOf(k) * amount <= left * PRICE_ONE)
      && (amount > 0 && left > 0 ==> f.cost > 0)
      && f.given * PriceOf(k) <= f.cost * PRICE_ONE
      && f.cost * PRICE_ONE < f.given * PriceOf(k) + (if f.given == amount then PRICE_ONE else PriceOf(k))
  {
    var p := PriceOf(k);
    FillArithmetic(p, amount, left);
    if amount > 0 { MulMono(1, amount, p); }
  }

  lemma FillArithmetic(p: nat, amount: nat, left: nat)
    requires p > 0
    ensures p * amount <= left * PRICE_ONE ==>
      (p * amount) / p == amount && RoundUp(p * amount) <= left
      && amount * p <= RoundUp(p * amount) * PRICE_ONE < amount * p + PRICE_ONE
    ensures p * amount > left * PRICE_ONE ==>
      (left * PRICE_ONE) / p < amount && RoundUp(left * PRICE_ONE) == left
      && ((left * PRICE_ONE) / p) * p <= left * PRICE_ONE < ((left * PRICE_ONE) / p) * p + p
  {
    hide Div;
    Commute(p, amount);
    assert Div(p * amount, p) == (p * amount) / p && Div(left * PRICE_ONE, p) == (left * PRICE_ONE) / p by {
      DivIs(p * amount, p);
      DivIs(left * PRICE_ONE, p);
    }
    QuotientIs(p * amount, p, amount);
    DivBounds(left * PRICE_ONE, p);
    var q := Div(left * PRICE_ONE, p);
    if p * amount > left * PRICE_ONE && q >= amount {
      MulMono(amount, q, p);
    }
  }

  lemma DivIs(x: nat, d: nat)
    requires d > 0
    ensures Div(x, d) == x / d
  {
  }

  // ---- one taker ----

  /** What is left of the book, what is left to sell, what was bought, and the fills. */
  datatype Execution = Execution(book: Book, left: nat, bought: nat, fills: seq<Fill>)

  ghost predicate PricedBook(b: Book) {
    forall k :: k in b ==> b[k] > 0 && 0 < PriceOf(k) && k < MAX_KEY
  }

  /** Match in key order until nothing is left to sell or the next maker asks too much. */
  ghost function Execute(b: Book, maxPrice: nat, left: nat): Execution
    requires PricedBook(b)
    decreases |b|
  {
    if left == 0 || b == map[] || PriceOf(Lowest(b)) > maxPrice then Execution(b, left, 0, [])
    else
      var k := Lowest(b);
      var f := FillOf(k, b[k], left);
      FillSound(k, b[k], left);
      if f.given == b[k] then
        var rest := Execute(b - {k}, maxPrice, left - f.cost);
        Execution(rest.book, rest.left, f.given + rest.bought, [f] + rest.fills)
      else
        Execution(b[k := b[k] - f.given], 0, f.given, [f])
  }

  function CostOf(fills: seq<Fill>): nat {
    if fills == [] then 0 else fills[0].cost + CostOf(fills[1..])
  }

  lemma {:induction false} EndowUpdate(b: Book, key: Key, amount: nat, k: Key)
    ensures EndowLt(b[key := amount], k) == EndowLt(b, k) + (if key < k then amount - AmountAt(b, key) else 0)
    ensures EndowLt(b - {key}, k) == EndowLt(b, k) - (if key < k then AmountAt(b, key) else 0)
  {
    if k > 0 { EndowUpdate(b, key, amount, k - 1); }
  }

  lemma TotalUpdate(b: Book, key: Key, amount: nat)
    requires key < MAX_KEY
    ensures Total(b[key := amount]) == Total(b) + amount - AmountAt(b, key)
    ensures Total(b - {key}) == Total(b) - AmountAt(b, key)
  {
    EndowUpdate(b, key, amount, MAX_KEY);
  }

  /** Nothing is created or lost: the book gives up what the taker buys, and the taker's
      sale is what the makers are paid. */
  lemma {:induction false} ExecuteConserves(b: Book, maxPrice: nat, left: nat)
    requires PricedBook(b)
    ensures var e := Execute(b, maxPrice, left);
      && PricedBook(e.book) && e.book.Keys <= b.Keys
      && Total(e.book) + e.bought == Total(b)
      && e.left + CostOf(e.fills) == left
    decreases |b|
  {
    hide FillOf, PriceOf, Total;
    if left == 0 || b == map[] || PriceOf(Lowest(b)) > maxPrice {
    } else {
      var k := Lowest(b);
      var f := FillOf(k, b[k], left);
      FillSound(k, b[k], left);
      if f.given == b[k] {
        ExecuteConserves(b - {k}, maxPrice, left - f.cost);
        TotalUpdate(b, k, 0);
        var rest := Execute(b - {k}, maxPrice, left - f.cost);
        assert ([f] + rest.fills)[1..] == rest.fills;
      } else {
        TotalUpdate(b, k, b[k] - f.given);
        assert [f][1..] == [];
      }
    }
  }

  /** A taker that still has something to sell has exhausted every maker within its price. */
  lemma {:induction false} ExecuteExhausts(b: Book, maxPrice: nat, left: nat)
    requires PricedBook(b)
    ensures var e := Execute(b, maxPrice, left);
      e.left > 0 ==> forall k :: k in e.book ==> PriceOf(k) > maxPrice
    decreases |b|
  {
    if left == 0 || b == map[] || PriceOf(Lowest(b)) > maxPrice {
      if b != map[] && PriceOf(Lowest(b)) > maxPrice {
        forall k | k in b ensures PriceOf(k) > maxPrice { assert Lowest(b) <= k; }
      }
    } else {
      var k := Lowest(b);
      var f := FillOf(k, b[k], left);
      FillSound(k, b[k], left);
      if f.given == b[k] { ExecuteExhausts(b - {k}, maxPrice, left - f.cost); }
    }
  }

  /** Every maker is paid at least its price, from the book and within the limit. */
  lemma {:induction false} ExecuteFair(b: Book, maxPrice: nat, left: nat)
    requires PricedBook(b)
    ensures forall i :: 0 <= i < |Execute(b, maxPrice, left).fills| ==>
      var f := Execute(b, maxPrice, left).fills[i];
      && f.key in b && f.given <= b[f.key] && PriceOf(f.key) <= maxPrice
      && f.given * PriceOf(f.key) <= f.cost * PRICE_ONE
    decreases |b|
  {
    if left == 0 || b == map[] || PriceOf(Lowest(b)) > maxPrice {
    } else {
      var k := Lowest(b);
      var f := FillOf(k, b[k], left);
      FillSound(k, b[k], left);
      if f.given == b[k] {
        var rest := Execute(b - {k}, maxPrice, left - f.cost);
        ExecuteFair(b - {k}, maxPrice, left - f.cost);
        forall i | 0 <= i < |rest.fills| + 1
          ensures var g := ([f] + rest.fills)[i];
            && g.key in b && g.given <= b[g.key] && PriceOf(g.key) <= maxPrice
            && g.given * PriceOf(g.key) <= g.cost * PRICE_ONE
        {
          if i > 0 { assert ([f] + rest.fills)[i] == rest.fills[i - 1]; }
        }
      }
    }
  }

  /** Makers beyond the limit are not touched, and no maker is touched while a better one is left. */
  lemma {:induction false} ExecuteInOrder(b: Book, maxPrice: nat, left: nat)
    requires PricedBook(b)
    ensures var e := Execute(b, maxPrice, left);
      && (forall k :: k in b && PriceOf(k) > maxPrice ==> k in e.book && e.book[k] == b[k])
      && (forall i, k :: 0 <= i < |e.fills| && k in e.book ==> e.fills[i].key <= k)
      && (forall k :: k in b && (k !in e.book || e.book[k] != b[k]) ==>
            exists i :: 0 <= i < |e.fills| && e.fills[i].key == k)
    decreases |b|
  {
    hide FillOf, PriceOf;
    if left == 0 || b == map[] || PriceOf(Lowest(b)) > maxPrice {
    } else {
      var k := Lowest(b);
      var f := FillOf(k, b[k], left);
      FillSound(k, b[k], left);
      KeyOf(k, b[k], left);
      if f.given == b[k] {
        var rest := Execute(b - {k}, maxPrice, left - f.cost);
        ExecuteInOrder(b - {k}, maxPrice, left - f.cost);
        ExecuteConserves(b - {k}, maxPrice, left - f.cost);
        FirstThen(f, rest.fills, rest.book, b);
      } else {
        assert [f][0] == f;
      }
    }
  }

  lemma FirstThen(f: Fill, fills: seq<Fill>, book: Book, b: Book)
    requires forall k :: k in b ==> f.key <= k
    requires forall k :: k in book ==> k in b
    requires forall i, k :: 0 <= i < |fills| && k in book ==> fills[i].key <= k
    requires forall k :: k in b && k != f.key && (k !in book || book[k] != b[k]) ==>
               exists i :: 0 <= i < |fills| && fills[i].key == k
    ensures var all := [f] + fills;
      && (forall i, k :: 0 <= i < |all| && k in book ==> all[i].key <= k)
      && (forall k :: k in b && (k !in book || book[k] != b[k]) ==> exists i :: 0 <= i < |all| && all[i].key == k)
  {
    var all := [f] + fills;
    assert all[0] == f && forall i :: 0 <= i < |fills| ==> all[i + 1] == fills[i];
    forall k | k in b && (k !in book || book[k] != b[k]) ensures exists i :: 0 <= i < |all| && all[i].key == k {
      if k != f.key {
        var i :| 0 <= i < |fills| && fills[i].key == k;
        assert all[i + 1].key == k;
      }
    }
  }

  // ---- accounts ----

  type Balances = map<nat, int>

  /** Sum of the balances of the accounts below k. */
  function SumTo(m: Balances, k: nat): int {
    if k == 0 then 0 else SumTo(m, k - 1) + (if k - 1 in m then m[k - 1] else 0)
  }

  function Sum(m: Balances): int { SumTo(m, OWNER_SPAN) }

  lemma {:induction false} SumUpdate(m: Balances, o: nat, v: int, k: nat)
    requires o in m
    ensures SumTo(m[o := v], k) == SumTo(m, k) + (if o < k then v - m[o] else 0)
  {
    if k > 0 { SumUpdate(m, o, v, k - 1); }
  }

  ghost predicate Owned(fills: seq<Fill>, accounts: set<nat>) {
    forall i :: 0 <= i < |fills| ==> OwnerOf(fills[i].key) in accounts
  }

  /** Pay each maker its cost. */
  function PayFills(m: Balances, fills: seq<Fill>): Balances
    requires Owned(fills, m.Keys)
    decreases |fills|
  {
    if fills == [] then m
    else
      var o := OwnerOf(fills[0].key);
      PayFills(m[o := m[o] + fills[0].cost], fills[1..])
  }

  lemma {:induction false} PayConserves(m: Balances, fills: seq<Fill>)
    requires Owned(fills, m.Keys)
    ensures PayFills(m, fills).Keys == m.Keys
    ensures Sum(PayFills(m, fills)) == Sum(m) + CostOf(fills)
    decreases |fills|
  {
    if fills != [] {
      var o := OwnerOf(fills[0].key);
      SumUpdate(m, o, m[o] + fills[0].cost, OWNER_SPAN);
      PayConserves(m[o := m[o] + fills[0].cost], fills[1..]);
    }
  }

  /** What the fills cost, of the makers of one owner. */
  function CostTo(fills: seq<Fill>, owner: nat): nat {
    if fills == [] then 0
    else (if OwnerOf(fills[0].key) == owner then fills[0].cost else 0) + CostTo(fills[1..], owner)
  }

  /** Every account is paid for the fills of its own offers, and for all of them. */
  lemma {:induction false} PayEach(m: Balances, fills: seq<Fill>, owner: nat)
    requires Owned(fills, m.Keys) && owner in m
    ensures owner in PayFills(m, fills) && PayFills(m, fills)[owner] == m[owner] + CostTo(fills, owner)
    decreases |fills|
  {
    hide OwnerOf;
    if fills != [] {
      var o := OwnerOf(fills[0].key);
      PayEach(m[o := m[o] + fills[0].cost], fills[1..], owner);
    }
  }

  lemma {:induction false} PaySnoc(m: Balances, fills: seq<Fill>, f: Fill)
    requires Owned(fills, m.Keys)
    requires OwnerOf(f.key) in m
    ensures PayFills(m, fills).Keys == m.Keys
    ensures PayFills(m, fills + [f]) ==
      PayFills(m, fills)[OwnerOf(f.key) := PayFills(m, fills)[OwnerOf(f.key)] + f.cost]
    decreases |fills|
  {
    if fills != [] {
      var o := OwnerOf(fills[0].key);
      assert (fills + [f])[1..] == fills[1..] + [f];
      PaySnoc(m[o := m[o] + fills[0].cost], fills[1..], f);
    } else {
      assert ([] + [f])[1..] == [];
    }
  }

  // ---- the book ----

  /** Where the iterator over the book starts. */
  method First(b: Book) returns (k: Key)
    requires b != map[]
    ensures IsLowest(b, k)
  {
    assert IsLowest(b, Lowest(b));
    k :| k in b && forall j :: j in b ==> k <= j;
  }

  class SerialOrderbook {
    var ob: Book

    constructor ()
      ensures ob == map[]
    {
      ob := map[];
    }

    method AddOffer(k: Key, amount: nat)
      modifies this
      ensures ob == old(ob)[k := amount]
    {
      ob := ob[k := amount];
    }

    /** Match a taker against the book, paying makers in the asset it sells. Returns what
        it sold and what it bought. None of the loop's throws is reachable. */
    method TryExecute(maxPrice: nat, sellAmount: nat, db: AccountDb) returns (sold: nat, bought: nat)
      requires PricedBook(ob) && forall k :: k in ob ==> OwnerOf(k) in db.balances
      modifies this, db
      ensures var e := Execute(old(ob), maxPrice, sellAmount);
        && ob == e.book && sold + e.left == sellAmount && bought == e.bought
        && Owned(e.fills, old(db.balances).Keys)
        && db.balances == PayFills(old(db.balances), e.fills)
    {
      hide *;
      ghost var ob0, m0 := ob, db.balances;
      var left: nat := sellAmount;
      bought := 0;
      var rest: Book := ob;
      var marked: set<Key> := {};
      var final := Offer(0, 0);
      ghost var fills: seq<Fill> := [];
      ContinuesStart(ob, maxPrice, sellAmount);
      PaidNothing(db.balances);
      RemainsAll(ob, final);
      while left != 0 && rest != map[]
        invariant PricedBook(rest) && ob == ob0 && rest.Keys <= ob.Keys
        invariant Remains(ob, final, marked, rest) && (left != 0 ==> final.amount == 0)
        invariant left <= sellAmount
        invariant Paid(m0, fills, db.balances) && db.balances.Keys == m0.Keys
        invariant Continues(ob0, maxPrice, sellAmount, rest, left, bought, fills)
        decreases left
      {
        var k := First(rest);
        PricedAt(rest, k);
        if PriceOf(k) > maxPrice { break; }
        var f := FillOf(k, rest[k], left);
        ContinuesFill(ob0, maxPrice, sellAmount, rest, left, bought, fills, k);
        RemainsFill(ob, final, marked, rest, f);
        PaidFill(m0, fills, db.balances, f);
        db.TransferAvailable(OwnerOf(k), f.cost);
        left := left - f.cost;
        bought := bought + f.given;
        fills := fills + [f];
        if f.given == rest[k] {
          marked := marked + {k};
        } else {
          assert left == 0;
          final := Offer(k, rest[k] - f.given);
        }
        rest := AfterFill(rest, f);
      }
      ContinuesDone(ob0, maxPrice, sellAmount, rest, left, bought, fills);
      PaidAll(m0, fills, db.balances);
      RemainsEnd(ob, final, marked, rest);
      ob := Reinsert(ob, final) - marked;
      sold := sellAmount - left;
    }
  }

  /** Put a partly taken offer back with what is left of it. */
  function Reinsert(b: Book, final: Offer): Book {
    if final.amount != 0 then b[final.key := final.amount] else b
  }

  ghost predicate Remains(b: Book, final: Offer, marked: set<Key>, rest: Book) {
    rest == Reinsert(b, final) - marked && rest.Keys <= b.Keys
  }

  lemma RemainsAll(b: Book, final: Offer)
    requires final.amount == 0
    ensures Remains(b, final, {}, b)
  {
    assert b == b - {};
  }

  lemma RemainsEnd(b: Book, final: Offer, marked: set<Key>, rest: Book)
    requires Remains(b, final, marked, rest)
    ensures rest == Reinsert(b, final) - marked
  {
  }

  lemma PricedAt(b: Book, k: Key)
    requires PricedBook(b) && k in b
    ensures PriceOf(k) > 0
  {
  }

  /** Marking a taken offer, or putting a partly taken one back, is the fill's effect. */
  lemma RemainsFill(b: Book, final: Offer, marked: set<Key>, rest: Book, f: Fill)
    requires Remains(b, final, marked, rest) && final.amount == 0
    requires f.key in rest && f.given <= rest[f.key]
    ensures f.key in b
    ensures f.given == rest[f.key] ==> Remains(b, final, marked + {f.key}, AfterFill(rest, f))
    ensures f.given < rest[f.key] ==> Remains(b, Offer(f.key, rest[f.key] - f.given), marked, AfterFill(rest, f))
  {
    if f.given == rest[f.key] {
      assert (b - marked) - {f.key} == b - (marked + {f.key});
    } else {
      var amount := rest[f.key] - f.given;
      assert (b - marked)[f.key := amount] == b[f.key := amount] - marked;
    }
  }

  ghost predicate Paid(before: Balances, fills: seq<Fill>, after: Balances) {
    Owned(fills, before.Keys) && after == PayFills(before, fills)
  }

  lemma PaidNothing(m: Balances)
    ensures Paid(m, [], m)
  {
  }

  lemma PaidFill(before: Balances, fills: seq<Fill>, after: Balances, f: Fill)
    requires Paid(before, fills, after) && OwnerOf(f.key) in before
    ensures after.Keys == before.Keys
    ensures Paid(before, fills + [f], after[OwnerOf(f.key) := after[OwnerOf(f.key)] + f.cost])
  {
    PaySnoc(before, fills, f);
  }

  lemma PaidAll(before: Balances, fills: seq<Fill>, after: Balances)
    requires Paid(before, fills, after)
    ensures Owned(fills, before.Keys) && after == PayFills(before, fills)
  {
  }

  lemma KeyOf(k: Key, amount: nat, left: nat)
    requires PriceOf(k) > 0
    ensures FillOf(k, amount, left).key == k
  {
  }

  /** The makers left once one of them gave what a fill takes. */
  function AfterFill(rest: Book, f: Fill): Book
    requires f.key in rest && f.given <= rest[f.key]
  {
    if f.given == rest[f.key] then rest - {f.key} else rest[f.key := rest[f.key] - f.given]
  }

  /** The matching of b goes on from rest, with these fills already made. */
  ghost predicate Continues(b: Book, maxPrice: nat, s: nat, rest: Book, left: nat, bought: nat, fills: seq<Fill>) {
    && PricedBook(b) && PricedBook(rest)
    && var e, g := Execute(b, maxPrice, s), Execute(rest, maxPrice, left);
      e.book == g.book && e.left == g.left && e.bought == bought + g.bought && e.fills == fills + g.fills
  }

  lemma ContinuesStart(b: Book, maxPrice: nat, s: nat)
    requires PricedBook(b)
    ensures Continues(b, maxPrice, s, b, s, 0, [])
  {
    var e := Execute(b, maxPrice, s);
    assert e.fills == [] + e.fills;
  }

  lemma ContinuesFill(b: Book, maxPrice: nat, s: nat, rest: Book, left: nat, bought: nat, fills: seq<Fill>, k: Key)
    requires Continues(b, maxPrice, s, rest, left, bought, fills) && PricedBook(rest)
    requires left > 0 && IsLowest(rest, k) && PriceOf(k) <= maxPrice
    ensures var f := FillOf(k, rest[k], left);
      && f.key == k && 0 < f.cost <= left && f.given <= rest[k]
      && (f.given < rest[k] ==> f.cost == left) && PricedBook(AfterFill(rest, f))
      && Continues(b, maxPrice, s, AfterFill(rest, f), left - f.cost, bought + f.given, fills + [f])
  {
    hide FillOf, PriceOf;
    FillSound(k, rest[k], left);
    KeyOf(k, rest[k], left);
    assert Lowest(rest) == k;
    var f := FillOf(k, rest[k], left);
    if f.given == rest[k] {
      var g := Execute(rest - {k}, maxPrice, left - f.cost);
      assert fills + ([f] + g.fills) == (fills + [f]) + g.fills;
    } else {
      assert fills + [f] == (fills + [f]) + [];
    }
  }

  lemma ContinuesDone(b: Book, maxPrice: nat, s: nat, rest: Book, left: nat, bought: nat, fills: seq<Fill>)
    requires Continues(b, maxPrice, s, rest, left, bought, fills) && PricedBook(b)
    requires left == 0 || rest == map[] || exists k :: IsLowest(rest, k) && PriceOf(k) > maxPrice
    ensures Execute(b, maxPrice, s) == Execution(rest, left, bought, fills)
  {
    if left != 0 && rest != map[] {
      var k :| IsLowest(rest, k) && PriceOf(k) > maxPrice;
      assert Lowest(rest) == k;
    }
    assert fills + [] == fills;
  }

  // ---- one offer ----

  /** The highest price, in the other direction, that a price is willing to meet. */
  function MaxPrice(p: nat): nat
    requires p > 0
  {
    (PRICE_ONE * PRICE_ONE) / p
  }

  /** No two offers of opposite books could trade with each other. */
  ghost predicate Uncrossed(x: Book, y: Book) {
    forall i, j :: i in x && j in y ==> Crossless(i, j)
  }

  ghost predicate Crossless(i: Key, j: Key) {
    PriceOf(i) * PriceOf(j) > PRICE_ONE * PRICE_ONE
  }

  lemma CrosslessSwap(i: Key, j: Key)
    ensures Crossless(i, j) <==> Crossless(j, i)
  {
    Commute(PriceOf(i), PriceOf(j));
  }

  lemma UncrossedSwap(x: Book, y: Book)
    requires Uncrossed(x, y)
    ensures Uncrossed(y, x)
  {
    hide Crossless;
    forall j, i | j in y && i in x ensures Crossless(j, i) { CrosslessSwap(i, j); }
  }

  /** A price that the limit excludes does not cross. */
  lemma BeyondLimit(p: nat, q: nat)
    requires p > 0 && q > MaxPrice(p)
    ensures q * p > PRICE_ONE * PRICE_ONE
  {
    var x := PRICE_ONE * PRICE_ONE;
    hide Div;
    DivIs(x, p);
    DivBounds(x, p);
    MulMono(Div(x, p) + 1, q, p);
    Distribute(Div(x, p), 1, p);
  }

  /** The limit is exactly where the two prices stop crossing. */
  lemma MaxPriceExact(p: nat, q: nat)
    requires p > 0
    ensures q <= MaxPrice(p) <==> q * p <= PRICE_ONE * PRICE_ONE
  {
    var x := PRICE_ONE * PRICE_ONE;
    if q > MaxPrice(p) {
      BeyondLimit(p, q);
    } else {
      hide Div;
      DivIs(x, p);
      DivBounds(x, p);
      MulMono(q, Div(x, p), p);
    }
  }

  // ---- the taker's limit ----

  /** A trade seen from the taker: it is matched only with makers whose price crosses its own, with
      the best first; one that does not cross keeps all it offers; and as long as the taker has
      something left, every one that does cross is used up. */
  ghost predicate WithinLimits(b: Book, e: Execution, taker: Key) {
    && (forall i :: 0 <= i < |e.fills| ==> e.fills[i].key in b && !Crossless(e.fills[i].key, taker))
    && (forall k :: k in b && Crossless(k, taker) ==> k in e.book && e.book[k] == b[k])
    && (e.left > 0 ==> forall k :: k in e.book ==> Crossless(k, taker))
    && (forall i, k :: 0 <= i < |e.fills| && k in e.book ==> e.fills[i].key <= k)
  }

  lemma TradesWithinLimits(b: Book, o: Offer)
    requires PricedBook(b) && PriceOf(o.key) > 0
    ensures WithinLimits(b, Execute(b, MaxPrice(PriceOf(o.key)), o.amount), o.key)
  {
    hide MaxPrice, PriceOf, Execute;
    var q := PriceOf(o.key);
    var limit := MaxPrice(q);
    ExecuteFair(b, limit, o.amount);
    ExecuteExhausts(b, limit, o.amount);
    ExecuteInOrder(b, limit, o.amount);
    forall k: Key ensures Crossless(k, o.key) <==> PriceOf(k) > limit {
      MaxPriceExact(q, PriceOf(k));
    }
  }

  /** What one fill costs, at the taker's price: at most what it gives and the rounding. */
  lemma FillWithin(p: nat, q: nat, given: nat, cost: nat, whole: bool)
    requires p * q <= PRICE_ONE * PRICE_ONE
    requires cost * PRICE_ONE < given * p + (if whole then PRICE_ONE else p)
    ensures cost * q <= given * PRICE_ONE + (if whole then q else PRICE_ONE)
  {
    var slack := if whole then PRICE_ONE else p;
    MulMono(cost * PRICE_ONE, given * p + slack, q);
    Distribute(given * p, slack, q);
    Swap(given, p, q);
    MulMono(p * q, PRICE_ONE * PRICE_ONE, given);
    Commute(given, p * q);
    Swap(cost, PRICE_ONE, q);
    assert (cost * q) * PRICE_ONE <= given * (PRICE_ONE * PRICE_ONE) + slack * q;
  }

  /** All it sells, at its own price, is worth at most what it buys, up to one unit for each maker
      and one more. */
  lemma {:induction false} TakerPays(b: Book, maxPrice: nat, left: nat, q: nat)
    requires PricedBook(b) && maxPrice * q <= PRICE_ONE * PRICE_ONE
    ensures var e := Execute(b, maxPrice, left);
      CostOf(e.fills) * q <= e.bought * PRICE_ONE + |e.fills| * q + PRICE_ONE
    decreases |b|
  {
    hide FillOf, PriceOf;
    if left == 0 || b == map[] || PriceOf(Lowest(b)) > maxPrice {
    } else {
      var k := Lowest(b);
      var f := FillOf(k, b[k], left);
      FillSound(k, b[k], left);
      MulMono(PriceOf(k), maxPrice, q);
      FillWithin(PriceOf(k), q, f.given, f.cost, f.given == b[k]);
      if f.given == b[k] {
        var rest := Execute(b - {k}, maxPrice, left - f.cost);
        TakerPays(b - {k}, maxPrice, left - f.cost, q);
        assert ([f] + rest.fills)[1..] == rest.fills;
        Distribute(f.cost, CostOf(rest.fills), q);
        Distribute(1, |rest.fills|, q);
      } else {
        assert [f][1..] == [];
      }
    }
  }

  /** The two books and two assets as a taker meets them: the book it is matched with, the
      book its remainder rests in, the asset it sells and the asset it buys. */
  datatype Side = Side(matched: Book, resting: Book, sells: Balances, buys: Balances)

  ghost function Trade(s: Side, o: Offer): Side
    requires PricedBook(s.matched) && PriceOf(o.key) > 0 && Known(s) && OwnerOf(o.key) in s.sells
  {
    var e := Execute(s.matched, MaxPrice(PriceOf(o.key)), o.amount);
    var u := OwnerOf(o.key);
    var escrowed := s.sells[u := s.sells[u] - o.amount];
    FairOwners(s.matched, MaxPrice(PriceOf(o.key)), o.amount, escrowed.Keys);
    Side(e.book, if e.left > 0 then s.resting[o.key := e.left] else s.resting,
         PayFills(escrowed, e.fills), s.buys[u := s.buys[u] + e.bought])
  }

  lemma FairOwners(b: Book, maxPrice: nat, left: nat, accounts: set<nat>)
    requires PricedBook(b) && forall k :: k in b ==> OwnerOf(k) in accounts
    ensures Owned(Execute(b, maxPrice, left).fills, accounts)
  {
    ExecuteFair(b, maxPrice, left);
  }

  /** What a trade does to each account: the taker's offer is taken and what it bought is given,
      makers are paid for their own offers, nobody else is touched, and what the taker has left
      rests at its own key. */
  ghost predicate Settles(s: Side, t: Side, o: Offer, e: Execution) {
    && t.matched == e.book
    && (forall k :: k in s.resting && k != o.key ==> k in t.resting && t.resting[k] == s.resting[k])
    && (forall k :: k in t.resting ==> k in s.resting || (k == o.key && e.left > 0))
    && (e.left > 0 ==> o.key in t.resting && t.resting[o.key] == e.left)
    && t.sells.Keys == s.sells.Keys && t.buys.Keys == s.buys.Keys
    && (forall v :: v in s.sells ==>
          t.sells[v] == s.sells[v] + CostTo(e.fills, v) - (if v == OwnerOf(o.key) then o.amount else 0))
    && (forall v :: v in s.buys ==> t.buys[v] == s.buys[v] + (if v == OwnerOf(o.key) then e.bought else 0))
  }

  lemma TradeSettles(s: Side, o: Offer)
    requires PricedBook(s.matched) && PriceOf(o.key) > 0 && Known(s) && OwnerOf(o.key) in s.sells
    ensures Settles(s, Trade(s, o), o, Execute(s.matched, MaxPrice(PriceOf(o.key)), o.amount))
  {
    hide Execute, MaxPrice, PriceOf, OwnerOf, PayFills, CostTo;
    var limit, u := MaxPrice(PriceOf(o.key)), OwnerOf(o.key);
    var e := Execute(s.matched, limit, o.amount);
    var escrowed := s.sells[u := s.sells[u] - o.amount];
    FairOwners(s.matched, limit, o.amount, escrowed.Keys);
    PayConserves(escrowed, e.fills);
    forall v | v in s.sells
      ensures v in PayFills(escrowed, e.fills) &&
        PayFills(escrowed, e.fills)[v] == s.sells[v] + CostTo(e.fills, v) - (if v == u then o.amount else 0)
    {
      PayEach(escrowed, e.fills, v);
    }
  }

  /** A taker's limit holds: within limits, and paid at its own price up to the rounding. */
  ghost predicate TakerProtected(b: Book, o: Offer)
    requires PricedBook(b) && PriceOf(o.key) > 0
  {
    var e, q := Execute(b, MaxPrice(PriceOf(o.key)), o.amount), PriceOf(o.key);
    && WithinLimits(b, e, o.key)
    && e.left <= o.amount && (o.amount - e.left) * q <= e.bought * PRICE_ONE + |e.fills| * q + PRICE_ONE
  }

  lemma TakerIsProtected(b: Book, o: Offer)
    requires PricedBook(b) && PriceOf(o.key) > 0
    ensures TakerProtected(b, o)
  {
    hide MaxPrice, PriceOf, Execute, WithinLimits;
    var q := PriceOf(o.key);
    var limit := MaxPrice(q);
    TradesWithinLimits(b, o);
    ExecuteConserves(b, limit, o.amount);
    MaxPriceExact(q, limit);
    TakerPays(b, limit, o.amount, q);
  }

  /** Every maker has an account, and the accounts hold both assets. */
  ghost predicate Known(s: Side) {
    && s.sells.Keys == s.buys.Keys
    && (forall k :: k in s.matched ==> OwnerOf(k) in s.sells)
    && (forall k :: k in s.resting ==> OwnerOf(k) in s.sells)
  }

  ghost predicate Solvent(m: Balances) {
    forall o :: o in m ==> m[o] >= 0
  }

  lemma {:induction false} PaySolvent(m: Balances, fills: seq<Fill>)
    requires Owned(fills, m.Keys) && Solvent(m)
    ensures Solvent(PayFills(m, fills))
    decreases |fills|
  {
    if fills != [] {
      var o := OwnerOf(fills[0].key);
      PaySolvent(m[o := m[o] + fills[0].cost], fills[1..]);
    }
  }

  ghost predicate SoundSide(s: Side) {
    && PricedBook(s.matched) && PricedBook(s.resting) && Known(s)
    && Uncrossed(s.matched, s.resting) && Solvent(s.sells) && Solvent(s.buys)
  }

  lemma TradeConserves(s: Side, o: Offer)
    requires SoundSide(s) && PriceOf(o.key) > 0 && o.key < MAX_KEY && o.key !in s.resting
    requires OwnerOf(o.key) in s.sells
    ensures var t := Trade(s, o);
      && Sum(t.sells) + Total(t.resting) == Sum(s.sells) + Total(s.resting)
      && Sum(t.buys) + Total(t.matched) == Sum(s.buys) + Total(s.matched)
  {
    var limit, u := MaxPrice(PriceOf(o.key)), OwnerOf(o.key);
    var escrowed := s.sells[u := s.sells[u] - o.amount];
    FairOwners(s.matched, limit, o.amount, escrowed.Keys);
    SideConserves(s, o, u, Execute(s.matched, limit, o.amount)) by { ExecuteConserves(s.matched, limit, o.amount); }
  }

  lemma SideConserves(s: Side, o: Offer, u: nat, e: Execution)
    requires u in s.sells && u in s.buys && o.key < MAX_KEY && o.key !in s.resting && u < OWNER_SPAN
    requires Total(e.book) + e.bought == Total(s.matched) && e.left + CostOf(e.fills) == o.amount
    requires Owned(e.fills, s.sells.Keys)
    ensures var escrowed := s.sells[u := s.sells[u] - o.amount];
      && Owned(e.fills, escrowed.Keys)
      && Sum(PayFills(escrowed, e.fills)) + Total(if e.left > 0 then s.resting[o.key := e.left] else s.resting)
           == Sum(s.sells) + Total(s.resting)
      && Sum(s.buys[u := s.buys[u] + e.bought]) + Total(e.book) == Sum(s.buys) + Total(s.matched)
  {
    hide Total;
    var escrowed := s.sells[u := s.sells[u] - o.amount];
    assert escrowed.Keys == s.sells.Keys;
    SumUpdate(s.sells, u, s.sells[u] - o.amount, OWNER_SPAN);
    SumUpdate(s.buys, u, s.buys[u] + e.bought, OWNER_SPAN);
    PayConserves(escrowed, e.fills);
    TotalUpdate(s.resting, o.key, e.left);
  }

  lemma TradeKeeps(s: Side, o: Offer)
    requires SoundSide(s) && PriceOf(o.key) > 0 && o.key < MAX_KEY
    requires OwnerOf(o.key) in s.sells && o.amount <= s.sells[OwnerOf(o.key)]
    ensures var t := Trade(s, o);
      SoundSide(t) && t.sells.Keys == s.sells.Keys
      && t.matched.Keys <= s.matched.Keys && t.resting.Keys <= s.resting.Keys + {o.key}
  {
    hide MaxPrice, Execute, PayFills, PriceOf, OwnerOf, Crossless;
    var limit, u := MaxPrice(PriceOf(o.key)), OwnerOf(o.key);
    var escrowed := s.sells[u := s.sells[u] - o.amount];
    FairOwners(s.matched, limit, o.amount, escrowed.Keys);
    ExecuteConserves(s.matched, limit, o.amount);
    var e := Execute(s.matched, limit, o.amount);
    PayConserves(escrowed, e.fills);
    PaySolvent(escrowed, e.fills);
    var t := Trade(s, o);
    forall i, j | i in t.matched && j in t.resting ensures Crossless(i, j) {
      if j !in s.resting { RestsUncrossed(s.matched, o, i); }
    }
  }

  /** What rests does not cross what is left of the book it was matched with. */
  lemma RestsUncrossed(matched: Book, o: Offer, i: Key)
    requires PricedBook(matched) && PriceOf(o.key) > 0
    requires var e := Execute(matched, MaxPrice(PriceOf(o.key)), o.amount); e.left > 0 && i in e.book
    ensures Crossless(i, o.key)
  {
    hide MaxPrice, PriceOf;
    ExecuteExhausts(matched, MaxPrice(PriceOf(o.key)), o.amount);
    BeyondLimit(PriceOf(o.key), PriceOf(i));
  }

  // ---- runs ----

  /** Owner and aligned sequence number: what an offer reserves with its account. */
  function Ticket(k: Key): nat { (k % PRICE_SPAN) / 256 }

  /** Two offers share a ticket exactly when they share owner and aligned number. */
  lemma TicketParts(price: nat, owner: nat, id: nat, price': nat, owner': nat, id': nat)
    requires price <= MAX_PRICE && owner < TWO_64 && id < TWO_64
    requires price' <= MAX_PRICE && owner' < TWO_64 && id' < TWO_64
    ensures Ticket(OfferKey(price, owner, id)) == Ticket(OfferKey(price', owner', id')) <==>
      owner == owner' && id / 256 == id' / 256
  {
    hide OfferKey, Ticket, PriceOf, OwnerOf;
    KeyParts(price, owner, id);
    KeyParts(price', owner', id');
    TicketNumber(price, owner, id);
    TicketNumber(price', owner', id');
    PairUnique(owner, id / 256, owner', id' / 256);
  }

  lemma PairUnique(a: nat, x: nat, b: nat, y: nat)
    requires x < TWO_64 / 256 && y < TWO_64 / 256
    ensures a * (TWO_64 / 256) + x == b * (TWO_64 / 256) + y <==> a == b && x == y
  {
  }

  lemma TicketNumber(price: nat, owner: nat, id: nat)
    requires owner < TWO_64 && id < TWO_64
    ensures Ticket(price * PRICE_SPAN + owner * OWNER_SPAN + id) == owner * (TWO_64 / 256) + id / 256
  {
    var k := price * PRICE_SPAN + owner * OWNER_SPAN + id;
    assert k % PRICE_SPAN == owner * OWNER_SPAN + id;
  }

  /** The book a seller of the first asset is matched with, the book a seller of the second
      is matched with, the balances of both assets, and the reserved tickets. */
  datatype Market = Market(aToB: Book, bToA: Book, a: Balances, b: Balances, reserved: set<nat>)

  /** An offer, the asset it sells, and whether its number is in the account's window. */
  datatype Order = Order(offer: Offer, sellsA: bool, inWindow: bool)

  datatype Status = Done | Short | NoAccount | NoTicket

  ghost predicate Sound(m: Market) {
    && SoundSide(Side(m.aToB, m.bToA, m.a, m.b))
    && (forall k :: k in m.aToB ==> Ticket(k) in m.reserved)
    && (forall k :: k in m.bToA ==> Ticket(k) in m.reserved)
  }

  predicate Priced(o: Offer) { 0 < PriceOf(o.key) && o.key < MAX_KEY }

  /** What one offer does. An account that cannot cover its offer changes nothing. */
  function StatusOf(m: Market, o: Order): Status {
    var u := OwnerOf(o.offer.key);
    if u !in m.a || u !in m.b then NoAccount
    else if !o.inWindow || Ticket(o.offer.key) in m.reserved then NoTicket
    else if (if o.sellsA then m.a[u] else m.b[u]) < o.offer.amount then Short
    else Done
  }

  ghost function Step(m: Market, o: Order): Market
    requires Sound(m) && Priced(o.offer)
  {
    if StatusOf(m, o) != Done then m
    else if o.sellsA then
      var t := Trade(Side(m.aToB, m.bToA, m.a, m.b), o.offer);
      Market(t.matched, t.resting, t.sells, t.buys, m.reserved + {Ticket(o.offer.key)})
    else
      SoundMirror(Side(m.aToB, m.bToA, m.a, m.b));
      var t := Trade(Side(m.bToA, m.aToB, m.b, m.a), o.offer);
      Market(t.resting, t.matched, t.buys, t.sells, m.reserved + {Ticket(o.offer.key)})
  }

  lemma SoundMirror(s: Side)
    requires SoundSide(s)
    ensures SoundSide(Side(s.resting, s.matched, s.buys, s.sells))
  {
    hide Crossless;
    UncrossedSwap(s.matched, s.resting);
  }

  /** All of the first asset: what accounts hold and what offers sell. */
  ghost function SupplyOfA(m: Market): int { Sum(m.a) + Total(m.bToA) }

  ghost function SupplyOfB(m: Market): int { Sum(m.b) + Total(m.aToB) }

  /** One offer keeps the books uncrossed, the accounts solvent, and both supplies exact. */
  lemma StepKeeps(m: Market, o: Order)
    requires Sound(m) && Priced(o.offer)
    ensures var n := Step(m, o);
      Sound(n) && SupplyOfA(n) == SupplyOfA(m) && SupplyOfB(n) == SupplyOfB(m) && n.a.Keys == m.a.Keys
  {
    hide Trade, SoundSide, Sum, Total, PriceOf, OwnerOf, Ticket;
    var s := Side(m.aToB, m.bToA, m.a, m.b);
    if StatusOf(m, o) == Done {
      SideParts(s);
      if o.sellsA {
        StepSide(s, o.offer, m.reserved);
        var t := Trade(s, o.offer);
        assert Side(t.matched, t.resting, t.sells, t.buys) == t;
      } else {
        SoundMirror(s);
        var z := Side(m.bToA, m.aToB, m.b, m.a);
        SideParts(z);
        StepSide(z, o.offer, m.reserved);
        SideParts(Trade(z, o.offer));
        SoundMirror(Trade(z, o.offer));
      }
    }
  }

  lemma SideParts(s: Side)
    requires SoundSide(s)
    ensures PricedBook(s.matched) && Known(s)
  {
  }

  lemma StepSide(s: Side, o: Offer, reserved: set<nat>)
    requires SoundSide(s) && Priced(o)
    requires OwnerOf(o.key) in s.sells && o.amount <= s.sells[OwnerOf(o.key)]
    requires forall k :: k in s.matched ==> Ticket(k) in reserved
    requires forall k :: k in s.resting ==> Ticket(k) in reserved
    requires Ticket(o.key) !in reserved
    ensures var t, now := Trade(s, o), reserved + {Ticket(o.key)};
      && SoundSide(t) && t.sells.Keys == s.sells.Keys
      && Sum(t.sells) + Total(t.resting) == Sum(s.sells) + Total(s.resting)
      && Sum(t.buys) + Total(t.matched) == Sum(s.buys) + Total(s.matched)
      && (forall k :: k in t.matched ==> Ticket(k) in now)
      && (forall k :: k in t.resting ==> Ticket(k) in now)
  {
    hide Trade, Sum, Total, PriceOf, OwnerOf, Ticket, Crossless;
    TradeKeeps(s, o);
    TradeConserves(s, o);
  }

  predicate Throws(s: Status) { s == NoAccount || s == NoTicket }

  /** A run of offers; one that throws ends it. */
  ghost function RunOrders(m: Market, orders: seq<Order>): Market
    requires Sound(m) && forall i :: 0 <= i < |orders| ==> Priced(orders[i].offer)
    decreases |orders|
  {
    if orders == [] || Throws(StatusOf(m, orders[0])) then m
    else
      StepKeeps(m, orders[0]);
      RunOrders(Step(m, orders[0]), orders[1..])
  }

  /** Over every run the books stay uncrossed and each asset's supply is what it was. */
  lemma {:induction false} RunKeeps(m: Market, orders: seq<Order>)
    requires Sound(m) && forall i :: 0 <= i < |orders| ==> Priced(orders[i].offer)
    ensures var n := RunOrders(m, orders);
      Sound(n) && SupplyOfA(n) == SupplyOfA(m) && SupplyOfB(n) == SupplyOfB(m) && n.a.Keys == m.a.Keys
    decreases |orders|
  {
    hide Sound, Step, SupplyOfA, SupplyOfB, StatusOf, Priced;
    if orders != [] && !Throws(StatusOf(m, orders[0])) {
      StepKeeps(m, orders[0]);
      RunKeeps(Step(m, orders[0]), orders[1..]);
    }
  }

  /** The book that an order is matched with. */
  function MatchedBy(m: Market, o: Order): Book { if o.sellsA then m.aToB else m.bToA }

  lemma SoundPriced(m: Market, o: Order)
    requires Sound(m)
    ensures PricedBook(MatchedBy(m, o))
  {
  }

  /** Over every run each taker's limit holds, whatever came before it. */
  lemma RunProtects(m: Market, orders: seq<Order>, i: nat)
    requires Sound(m) && i < |orders| && forall j :: 0 <= j < |orders| ==> Priced(orders[j].offer)
    ensures var n := RunOrders(m, orders[..i]);
      Sound(n) && PricedBook(MatchedBy(n, orders[i])) && Priced(orders[i].offer) &&
      TakerProtected(MatchedBy(n, orders[i]), orders[i].offer)
  {
    hide Sound, TakerProtected, PricedBook, MatchedBy;
    RunKeeps(m, orders[..i]);
    var n := RunOrders(m, orders[..i]);
    SoundPriced(n, orders[i]);
    TakerIsProtected(MatchedBy(n, orders[i]), orders[i].offer);
  }

  class SerialOrderbookExperiment {
    const aToB: SerialOrderbook
    const bToA: SerialOrderbook
    const a: AccountDb
    const b: AccountDb
    var reserved: set<nat>

    ghost predicate Distinct() {
      aToB != bToA && a != b
    }

    ghost function Contents(): Market
      reads this, aToB, bToA, a, b
    {
      Market(aToB.ob, bToA.ob, a.balances, b.balances, reserved)
    }

    constructor (a: AccountDb, b: AccountDb)
      requires a != b
      ensures this.a == a && this.b == b && Distinct() && fresh(aToB) && fresh(bToA)
      ensures Contents() == Market(map[], map[], a.balances, b.balances, {})
    {
      aToB := new SerialOrderbook();
      bToA := new SerialOrderbook();
      this.a, this.b := a, b;
      reserved := {};
    }

    /** Match an escrowed offer and rest its remainder in the other book. */
    static method TradeAndRest(matched: SerialOrderbook, resting: SerialOrderbook, sells: AccountDb, buys: AccountDb,
                               o: Offer, ghost before: Balances)
      requires matched != resting && sells != buys && Priced(o)
      requires PricedBook(matched.ob) && Known(Side(matched.ob, resting.ob, before, buys.balances))
      requires OwnerOf(o.key) in before
      requires sells.balances == before[OwnerOf(o.key) := before[OwnerOf(o.key)] - o.amount]
      modifies matched, resting, sells, buys
      ensures Side(matched.ob, resting.ob, sells.balances, buys.balances)
           == Trade(Side(old(matched.ob), old(resting.ob), before, old(buys.balances)), o)
    {
      hide Execute, PayFills, OwnerOf, PriceOf, MaxPrice;
      var sold, bought := matched.TryExecute(MaxPrice(PriceOf(o.key)), o.amount, sells);
      assert sold <= o.amount;
      buys.TransferAvailable(OwnerOf(o.key), bought);
      var left := o.amount - sold;
      if left > 0 { resting.AddOffer(o.key, left); }
    }

    /** Reserve, escrow, match and rest one offer. */
    method ExecOneOffer(o: Order) returns (status: Status)
      requires Distinct() && Sound(Contents()) && Priced(o.offer)
      modifies this, aToB, bToA, a, b
      ensures status == StatusOf(old(Contents()), o)
      ensures Contents() == Step(old(Contents()), o)
    {
      hide Trade, PriceOf, OwnerOf, Ticket, Execute, PayFills, Crossless, PricedBook;
      var u, ticket := OwnerOf(o.offer.key), Ticket(o.offer.key);
      if u !in a.balances || u !in b.balances { return NoAccount; }
      if !o.inWindow || ticket in reserved { return NoTicket; }
      ghost var before := Contents();
      reserved := reserved + {ticket};
      var ok;
      if o.sellsA {
        ok := a.Escrow(u, o.offer.amount);
      } else {
        ok := b.Escrow(u, o.offer.amount);
      }
      if !ok {
        reserved := reserved - {ticket};
        return Short;
      }
      status := Done;
      if o.sellsA {
        TradeAndRest(aToB, bToA, a, b, o.offer, before.a);
      } else {
        TradeAndRest(bToA, aToB, b, a, o.offer, before.b);
      }
    }

    method ExecOffers(orders: seq<Order>)
      requires Distinct() && Sound(Contents()) && forall i :: 0 <= i < |orders| ==> Priced(orders[i].offer)
      modifies this, aToB, bToA, a, b
      ensures Contents() == RunOrders(old(Contents()), orders)
    {
      hide Sound, Priced, Trade;
      var i := 0;
      while i < |orders|
        invariant 0 <= i <= |orders| && Sound(Contents())
        invariant RunOrders(old(Contents()), orders) == RunOrders(Contents(), orders[i..])
      {
        StepKeeps(Contents(), orders[i]);
        assert orders[i..][0] == orders[i] && orders[i..][1..] == orders[i + 1..];
        var status := ExecOneOffer(orders[i]);
        if Throws(status) { return; }
        i := i + 1;
      }
    }
  }
}
