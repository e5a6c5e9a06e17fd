/** What a transaction does to a block's shared state, as a list of atomic actions, and
    the direct reading of such a list: all of it happens, or none of it. */
module Ledger {
  import opened OfferCategories
  import opened Wrappers
  import Pricing

  const NATIVE: nat := 0
  const MAX_OPS: nat := 256
  const MAX_SEQ_NUMS: nat := 64
  const MIN_STARTING_BALANCE: nat := 100
  const MAX_AMOUNT: nat := 0x1_0000_0000_0000

  /** An account's balance of one asset. */
  datatype Cell = Cell(account: nat, asset: nat)

  datatype OfferId = OfferId(market: nat, price: nat, owner: nat, id: nat)

  /** What at most one transaction of a block may take: a sequence number, the id of a new
      account, or the cancellation of an offer. */
  datatype Resource = SeqNo(account: nat, seqNo: nat) | NewAccount(id: nat) | Mark(offer: OfferId)

  /** How an operation ends without a status: the throw at an asset number out of range, or
      the access to an orderbook past the last one. */
  datatype Fault = InvalidAsset | PastTheEnd

  /** What comes back from an operation: a status code, or a fault instead of one. */
  datatype Status =
    | Success | InvalidTxFormat | FeeBidTooLow | SourceAccountNexist | BadSignature
    | SeqNumTooLow | SeqNumTooHigh | SeqNumTempInUse | InsufficientBalance | StartingBalanceTooLow
    | NewAccountAlreadyExists | NewAccountTempReserved | InvalidAmount | InvalidOfferCategory | InvalidPrice
    | CancelOfferTargetNexist | RecipientAccountNexist | InvalidPrintMoneyAmount | InvalidOperationType
    | Threw(fault: Fault)

  datatype Operation =
    | CreateAccount(id: nat, balance: int)
    | CreateOffer(sell: nat, buy: nat, price: nat, amount: int)
    | CancelOffer(sell: nat, buy: nat, price: nat, offerId: nat)
    | Payment(receiver: nat, asset: nat, amount: int)
    | MoneyPrinter(asset: nat, amount: int)
    | Unknown

  datatype Transaction = Transaction(source: nat, seqNo: nat, maxFee: nat, goodSignature: bool, ops: seq<Operation>)

  /** What stays fixed while a block is processed: the committed accounts and offers, the
      last committed sequence numbers, and the number of assets. */
  datatype Base = Base(accounts: set<nat>, lastSeq: map<nat, nat>, offers: map<OfferId, nat>, assets: nat)

  ghost predicate SoundBase(b: Base) {
    && (forall u :: u in b.accounts ==> u in b.lastSeq)
    && (forall o :: o in b.offers ==> o.market < NumOrderbooks(b.assets))
  }

  /** What a block's transactions change. */
  datatype Ledger = Ledger(avail: map<Cell, int>, taken: set<Resource>, rests: map<OfferId, nat>)

  function At(m: map<Cell, int>, c: Cell): int {
    if c in m then m[c] else 0
  }

  // ---- a transaction as actions ----

  datatype Action =
    | Take(resource: Resource)
    | Debit(cell: Cell, amount: nat)
    | Credit(cell: Cell, amount: nat)
    | Rest(offer: OfferId, size: nat)
    | Reject(status: Status)

  function FeeRequired(ops: nat): nat { 10 + 5 * ops }

  predicate ValidAmount(a: int) { 0 < a <= MAX_AMOUNT }

  predicate ValidPrice(p: nat) { p <= Pricing.MAX_PRICE && p != 0 }

  /** Looking up the market of a category. A cancellation does so without validating the
      category first. */
  datatype Lookup = Found(market: nat) | Lost(fault: Fault)

  function LookUp(b: Base, sell: nat, buy: nat): Lookup {
    match CategoryToIdx(b.assets, sell, buy)
    case None => Lost(InvalidAsset)
    case Some(market) => if market < NumOrderbooks(b.assets) then Found(market) else Lost(PastTheEnd)
  }

  /** Exactly which categories are lost: those with an asset out of range, and selling the
      last asset for itself. */
  lemma LookUpExact(b: Base, sell: nat, buy: nat)
    ensures LookUp(b, sell, buy) == Lost(InvalidAsset) <==> sell >= b.assets || buy >= b.assets
    ensures LookUp(b, sell, buy) == Lost(PastTheEnd) <==> sell == buy && sell + 1 == b.assets
  {
    if sell < b.assets && buy < b.assets {
      if sell != buy {
        IndexInverts(b.assets, sell, buy);
      } else if sell + 1 < b.assets {
        DiagonalCollides(b.assets, sell);
        IndexInverts(b.assets, sell, sell + 1);
      } else {
        LastDiagonal(b.assets);
      }
    }
  }

  /** The fault of an operation that is reached, if it has one. */
  function FaultOf(b: Base, op: Operation): Option<Fault> {
    if op.CancelOffer? && LookUp(b, op.sell, op.buy).Lost? then Some(LookUp(b, op.sell, op.buy).fault) else None
  }

  /** The bound on the number of operations in the transaction format. */
  predicate WellFormed(tx: Transaction) {
    |tx.ops| <= MAX_OPS
  }

  function OpActions(b: Base, source: nat, opId: nat, created: set<nat>, op: Operation): seq<Action> {
    match op
    case CreateAccount(id, balance) =>
      if balance < MIN_STARTING_BALANCE then [Reject(StartingBalanceTooLow)]
      else if id in b.accounts then [Reject(NewAccountAlreadyExists)]
      else [Take(NewAccount(id)), Debit(Cell(source, NATIVE), balance),
            if ValidAmount(balance) then Credit(Cell(id, NATIVE), balance) else Reject(InvalidAmount)]
    case CreateOffer(sell, buy, price, amount) =>
      if !ValidCategory(b.assets, sell, buy) then [Reject(InvalidOfferCategory)]
      else if !ValidPrice(price) then [Reject(InvalidPrice)]
      else if !ValidAmount(amount) then [Reject(InvalidAmount)]
      else [Rest(OfferId(Index(b.assets, sell, buy), price, source, opId), amount), Debit(Cell(source, sell), amount)]
    case CancelOffer(sell, buy, price, offerId) =>
      (match LookUp(b, sell, buy)
       case Lost(fault) => [Reject(Threw(fault))]
       case Found(market) =>
         var o := OfferId(market, price, source, offerId);
         if o !in b.offers then [Reject(CancelOfferTargetNexist)]
         else [Take(Mark(o)), Credit(Cell(source, sell), b.offers[o])])
    case Payment(receiver, asset, amount) =>
      if !ValidAmount(amount) then [Reject(InvalidAmount)]
      else if receiver !in b.accounts && receiver !in created then [Reject(RecipientAccountNexist)]
      else [Debit(Cell(source, asset), amount), Credit(Cell(receiver, asset), amount)]
    case MoneyPrinter(asset, amount) =>
      if amount < 0 then [Reject(InvalidPrintMoneyAmount)] else [Credit(Cell(source, asset), amount)]
    case Unknown => [Reject(InvalidOperationType)]
  }

  /** The accounts that these operations create. */
  function CreatedBy(ops: seq<Operation>): set<nat> {
    set op | op in ops && op.CreateAccount? :: op.id
  }

  /** The actions of the first i operations. */
  function OpsActions(b: Base, tx: Transaction, i: nat): seq<Action>
    requires i <= |tx.ops|
  {
    if i == 0 then []
    else
      OpsActions(b, tx, i - 1) +
      OpActions(b, tx.source, tx.seqNo + (i - 1), CreatedBy(tx.ops[..i - 1]), tx.ops[i - 1])
  }

  /** Whether a sequence number is above the last committed one and within the window. */
  function SeqWindow(last: nat, seqNo: nat): Status {
    if seqNo <= last then SeqNumTooLow
    else if seqNo - last < MAX_OPS || (seqNo - last) / MAX_OPS - 1 >= MAX_SEQ_NUMS then SeqNumTooHigh
    else Success
  }

  /** What is checked before a transaction touches anything. */
  function Admission(b: Base, tx: Transaction): Status
    requires SoundBase(b)
  {
    if tx.seqNo % MAX_OPS != 0 then InvalidTxFormat
    else if FeeRequired(|tx.ops|) > tx.maxFee then FeeBidTooLow
    else if tx.source !in b.accounts then SourceAccountNexist
    else if !tx.goodSignature then BadSignature
    else SeqWindow(b.lastSeq[tx.source], tx.seqNo)
  }

  function Opening(tx: Transaction): seq<Action> {
    [Take(SeqNo(tx.source, tx.seqNo)), Debit(Cell(tx.source, NATIVE), FeeRequired(|tx.ops|))]
  }

  function TxActions(b: Base, tx: Transaction): seq<Action>
    requires SoundBase(b)
  {
    var s := Admission(b, tx);
    if s != Success then [Reject(s)] else Opening(tx) + OpsActions(b, tx, |tx.ops|)
  }

  // ---- the direct reading ----

  datatype Outcome = Done(ledger: Ledger) | Failed(status: Status)

  predicate Thrown(d: Outcome) { d.Failed? && d.status.Threw? }

  function InUse(r: Resource): Status {
    match r
    case SeqNo(_, _) => SeqNumTempInUse
    case NewAccount(_) => NewAccountTempReserved
    case Mark(_) => CancelOfferTargetNexist
  }

  /** One action on the ledger itself. Balances are checked only when asked. */
  function Apply(checked: bool, l: Ledger, a: Action): Outcome {
    match a
    case Take(r) => if r in l.taken then Failed(InUse(r)) else Done(l.(taken := l.taken + {r}))
    case Debit(c, x) =>
      if checked && At(l.avail, c) < x then Failed(InsufficientBalance)
      else Done(l.(avail := l.avail[c := At(l.avail, c) - x]))
    case Credit(c, x) => Done(l.(avail := l.avail[c := At(l.avail, c) + x]))
    case Rest(o, x) => Done(l.(rests := l.rests[o := x]))
    case Reject(s) => Failed(s)
  }

  /** All the actions in order, or the status of the first that fails. */
  function Direct(checked: bool, l: Ledger, acts: seq<Action>): Outcome {
    if acts == [] then Done(l)
    else
      var before := Direct(checked, l, acts[..|acts| - 1]);
      if before.Failed? then before else Apply(checked, before.ledger, acts[|acts| - 1])
  }

  lemma DirectSnoc(checked: bool, l: Ledger, acts: seq<Action>, a: Action)
    ensures var d := Direct(checked, l, acts);
      Direct(checked, l, acts + [a]) == if d.Failed? then d else Apply(checked, d.ledger, a)
  {
    assert (acts + [a])[..|acts|] == acts;
  }

  lemma {:induction false} DirectAppend(checked: bool, l: Ledger, acts: seq<Action>, more: seq<Action>)
    ensures var d := Direct(checked, l, acts);
      Direct(checked, l, acts + more) == if d.Failed? then d else Direct(checked, d.ledger, more)
    decreases |more|
  {
    if more == [] {
      assert acts + more == acts;
    } else {
      var init, last := more[..|more| - 1], more[|more| - 1];
      assert acts + more == (acts + init) + [last] && more == init + [last];
      DirectAppend(checked, l, acts, init);
      DirectSnoc(checked, l, acts + init, last);
    }
  }

  // ---- balances and resources as one kind of level ----

  /** A quantity of the ledger: a balance, or whether a resource is taken. */
  datatype Facet = Balance(cell: Cell) | Holding(resource: Resource)

  function Level(l: Ledger, f: Facet): int {
    match f
    case Balance(c) => At(l.avail, c)
    case Holding(r) => if r in l.taken then 1 else 0
  }

  /** How an action moves a level. */
  function Push(a: Action, f: Facet): int {
    if a.Take? && f == Holding(a.resource) then 1
    else if a.Debit? && f == Balance(a.cell) then 0 - a.amount
    else if a.Credit? && f == Balance(a.cell) then a.amount
    else 0
  }

  function Weight(acts: seq<Action>, f: Facet): int {
    if acts == [] then 0 else Weight(acts[..|acts| - 1], f) + Push(acts[|acts| - 1], f)
  }

  lemma WeightSnoc(acts: seq<Action>, a: Action, f: Facet)
    ensures Weight(acts + [a], f) == Weight(acts, f) + Push(a, f)
  {
    assert (acts + [a])[..|acts|] == acts;
  }

  lemma {:induction false} HoldingNonnegative(acts: seq<Action>, r: Resource)
    ensures Weight(acts, Holding(r)) >= 0
  {
    if acts != [] { HoldingNonnegative(acts[..|acts| - 1], r); }
  }

  lemma ApplyLevel(checked: bool, l: Ledger, a: Action, f: Facet)
    ensures var d := Apply(checked, l, a);
      d.Done? ==> Level(d.ledger, f) == Level(l, f) + Push(a, f)
  {
  }

  /** A list that is carried out moves every level by its weight. */
  lemma {:induction false} DirectLevel(checked: bool, l: Ledger, acts: seq<Action>, f: Facet)
    ensures var d := Direct(checked, l, acts);
      d.Done? ==> Level(d.ledger, f) == Level(l, f) + Weight(acts, f)
  {
    if acts != [] {
      var init, last := acts[..|acts| - 1], acts[|acts| - 1];
      DirectLevel(checked, l, init, f);
      var d := Direct(checked, l, init);
      if d.Done? { ApplyLevel(checked, d.ledger, last, f); }
    }
  }

  ghost predicate NoReject(acts: seq<Action>) {
    forall i :: 0 <= i < |acts| ==> !acts[i].Reject?
  }

  /** No resource is wanted twice, or wanted when already taken. */
  ghost predicate Available(l: Ledger, acts: seq<Action>) {
    forall r :: Level(l, Holding(r)) + Weight(acts, Holding(r)) <= 1
  }

  /** Every withdrawal is covered by what came before it in the list. */
  ghost predicate Covered(l: Ledger, acts: seq<Action>) {
    forall i :: 0 <= i < |acts| && acts[i].Debit? ==> CoveredAt(l, acts[..i], acts[i])
  }

  ghost predicate CoveredAt(l: Ledger, before: seq<Action>, a: Action)
    requires a.Debit?
  {
    a.amount <= At(l.avail, a.cell) + Weight(before, Balance(a.cell))
  }

  /** Exactly which lists are carried out. */
  lemma {:induction false} DirectExact(checked: bool, l: Ledger, acts: seq<Action>)
    ensures Direct(checked, l, acts).Done? <==>
      NoReject(acts) && Available(l, acts) && (checked ==> Covered(l, acts))
  {
    if acts == [] {
    } else {
      var init, last := acts[..|acts| - 1], acts[|acts| - 1];
      assert acts == init + [last];
      DirectExact(checked, l, init);
      AvailableSnoc(l, init, last);
      CoveredSnoc(l, init, last);
      RejectSnoc(init, last);
      var d := Direct(checked, l, init);
      if d.Done? {
        if last.Take? { DirectLevel(checked, l, init, Holding(last.resource)); }
        if last.Debit? { DirectLevel(checked, l, init, Balance(last.cell)); }
      }
    }
  }

  lemma RejectSnoc(init: seq<Action>, last: Action)
    ensures NoReject(init + [last]) <==> NoReject(init) && !last.Reject?
  {
    var acts := init + [last];
    if NoReject(acts) {
      assert acts[|init|] == last;
      forall i | 0 <= i < |init| ensures !init[i].Reject? { assert acts[i] == init[i]; }
    }
  }

  lemma AvailableSnoc(l: Ledger, init: seq<Action>, last: Action)
    ensures Available(l, init + [last]) <==>
      Available(l, init)
      && (last.Take? ==> Level(l, Holding(last.resource)) + Weight(init, Holding(last.resource)) == 0)
  {
    hide Level;
    var acts := init + [last];
    forall r ensures Weight(acts, Holding(r)) == Weight(init, Holding(r)) + Push(last, Holding(r)) {
      WeightSnoc(init, last, Holding(r));
    }
    if Available(l, acts) {
      forall r ensures Level(l, Holding(r)) + Weight(init, Holding(r)) <= 1 {
        assert Level(l, Holding(r)) + Weight(acts, Holding(r)) <= 1;
      }
      if last.Take? {
        HoldingNonnegative(init, last.resource);
        LevelNonnegative(l, last.resource);
        assert Level(l, Holding(last.resource)) + Weight(acts, Holding(last.resource)) <= 1;
      }
    } else if Available(l, init) {
      var r :| Level(l, Holding(r)) + Weight(acts, Holding(r)) > 1;
      assert Level(l, Holding(r)) + Weight(init, Holding(r)) <= 1;
    }
  }

  lemma LevelNonnegative(l: Ledger, r: Resource)
    ensures Level(l, Holding(r)) >= 0
  {
  }

  lemma CoveredSnoc(l: Ledger, init: seq<Action>, last: Action)
    ensures Covered(l, init + [last]) <==> Covered(l, init) && (last.Debit? ==> CoveredAt(l, init, last))
  {
    hide CoveredAt;
    var acts := init + [last];
    forall i | 0 <= i < |init| ensures acts[i] == init[i] && acts[..i] == init[..i] {}
    assert acts[..|init|] == init && acts[|init|] == last;
    if Covered(l, acts) {
      forall i | 0 <= i < |init| && init[i].Debit? ensures CoveredAt(l, init[..i], init[i]) {
        assert CoveredAt(l, acts[..i], acts[i]);
      }
    }
  }

  lemma DirectOne(checked: bool, l: Ledger, a: Action)
    ensures Direct(checked, l, [a]) == Apply(checked, l, a)
  {
    DirectSnoc(checked, l, [], a);
    assert [] + [a] == [a];
  }

  function Then(checked: bool, d: Outcome, a: Action): Outcome {
    if d.Failed? then d else Apply(checked, d.ledger, a)
  }

  lemma DirectTwo(checked: bool, l: Ledger, a: Action, b: Action)
    ensures Direct(checked, l, [a, b]) == Then(checked, Apply(checked, l, a), b)
  {
    DirectOne(checked, l, a);
    DirectSnoc(checked, l, [a], b);
    assert [a] + [b] == [a, b];
  }

  lemma DirectThree(checked: bool, l: Ledger, a: Action, b: Action, c: Action)
    ensures Direct(checked, l, [a, b, c]) == Then(checked, Then(checked, Apply(checked, l, a), b), c)
  {
    DirectTwo(checked, l, a, b);
    DirectSnoc(checked, l, [a, b], c);
    assert [a, b] + [c] == [a, b, c];
  }

  // ---- supply ----

  ghost function SumOf<K(!new)>(m: map<K, int>): int
    decreases |m|
  {
    if m == map[] then 0 else var k :| k in m; m[k] + SumOf(m - {k})
  }

  lemma {:induction false} SumRemove<K(!new)>(m: map<K, int>, k: K)
    requires k in m
    ensures SumOf(m) == m[k] + SumOf(m - {k})
    decreases |m|
  {
    var j :| j in m && SumOf(m) == m[j] + SumOf(m - {j});
    if j != k {
      SumRemove(m - {j}, k);
      SumRemove(m - {k}, j);
      assert (m - {j}) - {k} == (m - {k}) - {j};
    }
  }

  lemma SumPut<K(!new)>(m: map<K, int>, k: K, v: int)
    ensures SumOf(m[k := v]) == SumOf(m) + v - (if k in m then m[k] else 0)
  {
    SumRemove(m[k := v], k);
    if k in m {
      SumRemove(m, k);
      assert m[k := v] - {k} == m - {k};
    } else {
      assert m[k := v] - {k} == m;
    }
  }

  predicate Sells(b: Base, o: OfferId, asset: nat) {
    o.market < NumOrderbooks(b.assets) && SellOf(b.assets, o.market) == asset
  }

  function BalancesOf(l: Ledger, asset: nat): map<Cell, int> {
    map c | c in l.avail && c.asset == asset :: l.avail[c]
  }

  /** Committed offers that nobody has cancelled. */
  function OpenOf(b: Base, l: Ledger, asset: nat): map<OfferId, int> {
    map o | o in b.offers && Sells(b, o, asset) && Mark(o) !in l.taken :: b.offers[o]
  }

  function RestingOf(b: Base, l: Ledger, asset: nat): map<OfferId, int> {
    map o | o in l.rests && Sells(b, o, asset) :: l.rests[o]
  }

  /** All of an asset: in accounts, in open offers and in new offers. */
  ghost function Supply(b: Base, l: Ledger, asset: nat): int {
    SumOf(BalancesOf(l, asset)) + SumOf(OpenOf(b, l, asset)) + SumOf(RestingOf(b, l, asset))
  }

  lemma CellSupply(b: Base, l: Ledger, c: Cell, v: int, asset: nat)
    ensures Supply(b, l.(avail := l.avail[c := v]), asset) ==
      Supply(b, l, asset) + (if c.asset == asset then v - At(l.avail, c) else 0)
  {
    hide Sells;
    var m := l.(avail := l.avail[c := v]);
    if c.asset == asset {
      assert BalancesOf(m, asset) == BalancesOf(l, asset)[c := v];
      SumPut(BalancesOf(l, asset), c, v);
    } else {
      assert BalancesOf(m, asset) == BalancesOf(l, asset);
    }
    assert OpenOf(b, m, asset) == OpenOf(b, l, asset);
    assert RestingOf(b, m, asset) == RestingOf(b, l, asset);
  }

  lemma RestSupply(b: Base, l: Ledger, o: OfferId, v: nat, asset: nat)
    requires o !in l.rests
    ensures Supply(b, l.(rests := l.rests[o := v]), asset) == Supply(b, l, asset)
      + (if Sells(b, o, asset) then v else 0)
  {
    hide Sells;
    var m := l.(rests := l.rests[o := v]);
    if Sells(b, o, asset) {
      assert RestingOf(b, m, asset) == RestingOf(b, l, asset)[o := v];
      SumPut(RestingOf(b, l, asset), o, v);
    } else {
      assert RestingOf(b, m, asset) == RestingOf(b, l, asset);
    }
    assert OpenOf(b, m, asset) == OpenOf(b, l, asset);
    assert BalancesOf(m, asset) == BalancesOf(l, asset);
  }

  lemma TakeSupply(b: Base, l: Ledger, r: Resource, asset: nat)
    requires r !in l.taken
    ensures Supply(b, l.(taken := l.taken + {r}), asset) == Supply(b, l, asset)
      - (if r.Mark? && r.offer in b.offers && Sells(b, r.offer, asset) then b.offers[r.offer] else 0)
  {
    hide Sells;
    var m := l.(taken := l.taken + {r});
    assert BalancesOf(m, asset) == BalancesOf(l, asset);
    assert RestingOf(b, m, asset) == RestingOf(b, l, asset);
    if r.Mark? && r.offer in b.offers && Sells(b, r.offer, asset) {
      assert OpenOf(b, m, asset) == OpenOf(b, l, asset) - {r.offer};
      SumRemove(OpenOf(b, l, asset), r.offer);
    } else {
      assert OpenOf(b, m, asset) == OpenOf(b, l, asset);
    }
  }

  /** What an operation adds to the supply of an asset. */
  function Printed(op: Operation, asset: nat): int {
    if op.MoneyPrinter? && op.asset == asset then op.amount else 0
  }

  function PrintedBy(ops: seq<Operation>, asset: nat): int {
    if ops == [] then 0 else PrintedBy(ops[..|ops| - 1], asset) + Printed(ops[|ops| - 1], asset)
  }

  /** The market found sells what the category sells, even when its assets are the same. */
  lemma FoundSells(b: Base, sell: nat, buy: nat)
    requires LookUp(b, sell, buy).Found?
    ensures LookUp(b, sell, buy).market < NumOrderbooks(b.assets)
    ensures SellOf(b.assets, LookUp(b, sell, buy).market) == sell
  {
    if sell != buy {
      IndexInverts(b.assets, sell, buy);
    } else {
      DiagonalSells(b.assets, sell);
    }
  }

  /** Move an amount into or out of a cell. */
  lemma MoveSupply(b: Base, checked: bool, l: Ledger, a: Action, asset: nat)
    requires a.Debit? || a.Credit?
    ensures var d := Apply(checked, l, a);
      d.Done? ==>
        Supply(b, d.ledger, asset)
          == Supply(b, l, asset) + (if a.cell.asset != asset then 0 else if a.Debit? then 0 - a.amount else a.amount)
  {
    hide Supply;
    CellSupply(b, l, a.cell, At(l.avail, a.cell) + (if a.Debit? then 0 - a.amount else a.amount), asset);
  }

  /** Two actions of which the second moves back what the first takes away. */
  lemma PairSupply(b: Base, checked: bool, l: Ledger, p: Action, q: Action, asset: nat)
    requires q.Debit? || q.Credit?
    requires p.Debit? ==> q.Credit? && q.cell.asset == p.cell.asset && q.amount == p.amount
    requires p.Rest? ==>
      q.Debit? && q.amount == p.size && p.offer !in l.rests && (Sells(b, p.offer, asset) <==> q.cell.asset == asset)
    requires p.Take? ==>
      && p.resource.Mark? && p.resource.offer in b.offers && q.Credit?
      && q.amount == b.offers[p.resource.offer] && (Sells(b, p.resource.offer, asset) <==> q.cell.asset == asset)
    requires !p.Credit? && !p.Reject?
    ensures var d := Direct(checked, l, [p, q]);
      d.Done? ==> Supply(b, d.ledger, asset) == Supply(b, l, asset)
  {
    hide Supply, Direct, Sells;
    DirectTwo(checked, l, p, q);
    if Direct(checked, l, [p, q]).Done? {
      var m := Apply(checked, l, p).ledger;
      MoveSupply(b, checked, m, q, asset);
      match p
      case Take(r) => TakeSupply(b, l, r, asset);
      case Debit(c, x) => MoveSupply(b, checked, l, p, asset);
      case Rest(o, x) => RestSupply(b, l, o, x, asset);
    }
  }

  lemma CreateSupply(b: Base, checked: bool, l: Ledger, r: Resource, p: Action, q: Action, asset: nat)
    requires !r.Mark? && p.Debit? && (q.Reject? || (q.Credit? && q.cell.asset == p.cell.asset && q.amount == p.amount))
    ensures var d := Direct(checked, l, [Take(r), p, q]);
      d.Done? ==> Supply(b, d.ledger, asset) == Supply(b, l, asset)
  {
    hide Supply, Direct;
    DirectThree(checked, l, Take(r), p, q);
    if Direct(checked, l, [Take(r), p, q]).Done? {
      TakeSupply(b, l, r, asset);
      var m := Apply(checked, l, Take(r)).ledger;
      DirectTwo(checked, m, p, q);
      PairSupply(b, checked, m, p, q, asset);
    }
  }

  /** An operation that is carried out adds to the supply only what it prints. */
  lemma OpSupply(b: Base, checked: bool, l: Ledger, source: nat, opId: nat, created: set<nat>, op: Operation,
                 asset: nat)
    requires SoundBase(b)
    requires forall o :: o in l.rests ==> o.owner != source || o.id != opId
    ensures var d := Direct(checked, l, OpActions(b, source, opId, created, op));
      d.Done? ==> Supply(b, d.ledger, asset) == Supply(b, l, asset) + Printed(op, asset)
  {
    hide Supply, Direct, SoundBase, SellOf, Index, LookUp;
    var acts := OpActions(b, source, opId, created, op);
    if |acts| == 1 {
      DirectOne(checked, l, acts[0]);
      assert acts == [acts[0]];
      if acts[0].Credit? { MoveSupply(b, checked, l, acts[0], asset); }
    } else if op.CreateAccount? {
      assert acts == [acts[0], acts[1], acts[2]];
      CreateSupply(b, checked, l, acts[0].resource, acts[1], acts[2], asset);
    } else {
      assert acts == [acts[0], acts[1]];
      if op.CreateOffer? { IndexInverts(b.assets, op.sell, op.buy); }
      if op.CancelOffer? { FoundSells(b, op.sell, op.buy); }
      PairSupply(b, checked, l, acts[0], acts[1], asset);
    }
  }

  /** Every new offer comes from a sequence number that is taken. */
  ghost predicate Traced(l: Ledger) {
    forall o :: o in l.rests ==> SeqNo(o.owner, o.id - o.id % MAX_OPS) in l.taken
  }

  /** The new offers are earlier ones, or those of a transaction's first i operations. */
  ghost predicate RestsFrom(before: Ledger, now: Ledger, source: nat, seqNo: nat, i: nat) {
    && before.taken <= now.taken
    && forall o :: o in now.rests ==> o in before.rests || (o.owner == source && seqNo <= o.id < seqNo + i)
  }

  lemma OpRests(b: Base, checked: bool, before: Ledger, l: Ledger, source: nat, seqNo: nat, i: nat,
                created: set<nat>, op: Operation)
    requires RestsFrom(before, l, source, seqNo, i)
    ensures var d := Direct(checked, l, OpActions(b, source, seqNo + i, created, op));
      d.Done? ==> RestsFrom(before, d.ledger, source, seqNo, i + 1)
  {
    hide Direct, Index, LookUp;
    var acts := OpActions(b, source, seqNo + i, created, op);
    if |acts| == 1 {
      assert acts == [acts[0]];
      DirectOne(checked, l, acts[0]);
    } else if |acts| == 2 {
      assert acts == [acts[0], acts[1]];
      DirectTwo(checked, l, acts[0], acts[1]);
    } else {
      assert acts == [acts[0], acts[1], acts[2]];
      DirectThree(checked, l, acts[0], acts[1], acts[2]);
    }
  }

  lemma AlignedId(id: nat, seqNo: nat)
    requires seqNo % MAX_OPS == 0 && seqNo <= id < seqNo + MAX_OPS
    ensures id - id % MAX_OPS == seqNo
  {
  }

  /** Where a transaction's first i operations leave the ledger. */
  function After(b: Base, checked: bool, l: Ledger, tx: Transaction, i: nat): Outcome
    requires i <= |tx.ops|
  {
    Direct(checked, l, Opening(tx) + OpsActions(b, tx, i))
  }

  lemma AfterNext(b: Base, checked: bool, l: Ledger, tx: Transaction, i: nat)
    requires 0 < i <= |tx.ops|
    ensures var d := After(b, checked, l, tx, i - 1);
      After(b, checked, l, tx, i) ==
        if d.Failed? then d
        else Direct(checked, d.ledger,
                    OpActions(b, tx.source, tx.seqNo + (i - 1), CreatedBy(tx.ops[..i - 1]), tx.ops[i - 1]))
  {
    var acts := OpActions(b, tx.source, tx.seqNo + (i - 1), CreatedBy(tx.ops[..i - 1]), tx.ops[i - 1]);
    var init := Opening(tx) + OpsActions(b, tx, i - 1);
    assert Opening(tx) + OpsActions(b, tx, i) == init + acts;
    DirectAppend(checked, l, init, acts);
  }

  lemma AfterOpening(b: Base, checked: bool, l: Ledger, tx: Transaction)
    ensures After(b, checked, l, tx, 0) == Then(checked, Apply(checked, l, Opening(tx)[0]), Opening(tx)[1])
  {
    DirectTwo(checked, l, Opening(tx)[0], Opening(tx)[1]);
    assert Opening(tx) + [] == [Opening(tx)[0], Opening(tx)[1]];
  }

  /** Once an operation has failed the transaction has. */
  lemma {:induction false} AfterFails(b: Base, checked: bool, l: Ledger, tx: Transaction, i: nat, n: nat)
    requires i <= n <= |tx.ops| && After(b, checked, l, tx, i).Failed?
    ensures After(b, checked, l, tx, n) == After(b, checked, l, tx, i)
  {
    hide After, OpActions;
    if i < n {
      AfterFails(b, checked, l, tx, i, n - 1);
      AfterNext(b, checked, l, tx, n);
    }
  }

  // ---- faults ----

  predicate Faults(a: Action) { a.Reject? && a.status.Threw? }

  ghost predicate NoThrow(acts: seq<Action>) {
    forall i :: 0 <= i < |acts| ==> !Faults(acts[i])
  }

  lemma {:induction false} DirectThrowless(checked: bool, l: Ledger, acts: seq<Action>)
    requires NoThrow(acts)
    ensures !Thrown(Direct(checked, l, acts))
  {
    if acts != [] {
      var init := acts[..|acts| - 1];
      assert forall i :: 0 <= i < |init| ==> init[i] == acts[i];
      DirectThrowless(checked, l, init);
    }
  }

  /** An operation that is reached faults exactly when its market is lost. */
  lemma OpThrows(b: Base, checked: bool, l: Ledger, source: nat, opId: nat, created: set<nat>, op: Operation,
                 fault: Fault)
    ensures Direct(checked, l, OpActions(b, source, opId, created, op)) == Failed(Threw(fault))
      <==> FaultOf(b, op) == Some(fault)
  {
    hide LookUp, Index;
    var acts := OpActions(b, source, opId, created, op);
    if FaultOf(b, op).Some? {
      DirectOne(checked, l, acts[0]);
    } else {
      DirectThrowless(checked, l, acts);
    }
  }

  /** Operation i is reached with every earlier action carried out, and faults. */
  ghost predicate FaultAt(b: Base, checked: bool, l: Ledger, tx: Transaction, i: nat, fault: Fault)
    requires i < |tx.ops|
  {
    After(b, checked, l, tx, i).Done? && FaultOf(b, tx.ops[i]) == Some(fault)
  }

  lemma {:induction false} AfterThrows(b: Base, checked: bool, l: Ledger, tx: Transaction, n: nat, fault: Fault)
    requires n <= |tx.ops|
    ensures After(b, checked, l, tx, n) == Failed(Threw(fault))
      <==> exists i :: 0 <= i < n && FaultAt(b, checked, l, tx, i, fault)
  {
    hide After, OpActions, FaultOf;
    if n == 0 {
      AfterOpening(b, checked, l, tx);
    } else {
      AfterThrows(b, checked, l, tx, n - 1, fault);
      AfterNext(b, checked, l, tx, n);
      var d := After(b, checked, l, tx, n - 1);
      if d.Done? {
        OpThrows(b, checked, d.ledger, tx.source, tx.seqNo + (n - 1), CreatedBy(tx.ops[..n - 1]), tx.ops[n - 1], fault);
        assert FaultAt(b, checked, l, tx, n - 1, fault) <==> FaultOf(b, tx.ops[n - 1]) == Some(fault);
      }
    }
  }

  /** A transaction ends in a fault exactly when it is admitted and reaches, with every
      earlier action carried out, a cancellation whose market is lost. */
  lemma TxThrows(b: Base, checked: bool, l: Ledger, tx: Transaction, fault: Fault)
    requires SoundBase(b)
    ensures Direct(checked, l, TxActions(b, tx)) == Failed(Threw(fault)) <==>
      Admission(b, tx) == Success && exists i :: 0 <= i < |tx.ops| && FaultAt(b, checked, l, tx, i, fault)
  {
    hide FaultAt;
    if Admission(b, tx) != Success {
      DirectOne(checked, l, Reject(Admission(b, tx)));
    } else {
      AfterThrows(b, checked, l, tx, |tx.ops|, fault);
    }
  }

  /** Two transactions that end in a fault: one cancels in an asset that does not exist, one
      cancels the last asset against itself. */
  lemma CancelCanThrow(b: Base, l: Ledger, source: nat, seqNo: nat, price: nat, offerId: nat)
    requires SoundBase(b) && source in b.accounts && b.assets > 0
    requires seqNo % MAX_OPS == 0 && SeqWindow(b.lastSeq[source], seqNo) == Success
    requires SeqNo(source, seqNo) !in l.taken && At(l.avail, Cell(source, NATIVE)) >= FeeRequired(1)
    ensures var n := b.assets;
      var past := Transaction(source, seqNo, FeeRequired(1), true, [CancelOffer(n, 0, price, offerId)]);
      var last := Transaction(source, seqNo, FeeRequired(1), true, [CancelOffer(n - 1, n - 1, price, offerId)]);
      && Direct(true, l, TxActions(b, past)) == Failed(Threw(InvalidAsset))
      && Direct(true, l, TxActions(b, last)) == Failed(Threw(PastTheEnd))
  {
    hide SoundBase, SeqWindow;
    var n := b.assets;
    var past := Transaction(source, seqNo, FeeRequired(1), true, [CancelOffer(n, 0, price, offerId)]);
    var last := Transaction(source, seqNo, FeeRequired(1), true, [CancelOffer(n - 1, n - 1, price, offerId)]);
    LookUpExact(b, n, 0);
    LookUpExact(b, n - 1, n - 1);
    AfterOpening(b, true, l, past);
    AfterOpening(b, true, l, last);
    assert FaultAt(b, true, l, past, 0, InvalidAsset);
    assert FaultAt(b, true, l, last, 0, PastTheEnd);
    TxThrows(b, true, l, past, InvalidAsset);
    TxThrows(b, true, l, last, PastTheEnd);
  }

  function Fee(tx: Transaction, asset: nat): nat {
    if asset == NATIVE then FeeRequired(|tx.ops|) else 0
  }

  lemma {:induction false} AfterSupply(b: Base, checked: bool, l: Ledger, tx: Transaction, i: nat, asset: nat)
    requires WellFormed(tx) && SoundBase(b) && i <= |tx.ops| && tx.seqNo % MAX_OPS == 0 && Traced(l)
    ensures var d := After(b, checked, l, tx, i);
      d.Done? ==>
        && RestsFrom(l, d.ledger, tx.source, tx.seqNo, i) && SeqNo(tx.source, tx.seqNo) !in l.taken
        && SeqNo(tx.source, tx.seqNo) in d.ledger.taken
        && Supply(b, d.ledger, asset) == Supply(b, l, asset) - Fee(tx, asset) + PrintedBy(tx.ops[..i], asset)
  {
    hide Supply, Direct, After, OpActions, SoundBase;
    var d := After(b, checked, l, tx, i);
    if d.Done? {
      if i == 0 {
        AfterOpening(b, checked, l, tx);
        var cell := Cell(tx.source, NATIVE);
        TakeSupply(b, l, SeqNo(tx.source, tx.seqNo), asset);
        var m := Apply(checked, l, Opening(tx)[0]).ledger;
        CellSupply(b, m, cell, At(m.avail, cell) - FeeRequired(|tx.ops|), asset);
      } else {
        AfterSupply(b, checked, l, tx, i - 1, asset);
        AfterNext(b, checked, l, tx, i);
        var m := After(b, checked, l, tx, i - 1).ledger;
        NextSupply(b, checked, l, m, tx, i - 1, asset);
      }
    }
  }

  lemma NextSupply(b: Base, checked: bool, l: Ledger, m: Ledger, tx: Transaction, i: nat, asset: nat)
    requires WellFormed(tx) && SoundBase(b) && i < |tx.ops| && tx.seqNo % MAX_OPS == 0 && Traced(l)
    requires RestsFrom(l, m, tx.source, tx.seqNo, i) && SeqNo(tx.source, tx.seqNo) !in l.taken
    ensures var d := Direct(checked, m, OpActions(b, tx.source, tx.seqNo + i, CreatedBy(tx.ops[..i]), tx.ops[i]));
      d.Done? ==>
        && RestsFrom(l, d.ledger, tx.source, tx.seqNo, i + 1) && m.taken <= d.ledger.taken
        && Supply(b, d.ledger, asset)
           == Supply(b, m, asset) + PrintedBy(tx.ops[..i + 1], asset) - PrintedBy(tx.ops[..i], asset)
  {
    hide Supply, Direct, OpActions, SoundBase;
    forall o | o in m.rests ensures o.owner != tx.source || o.id != tx.seqNo + i {
      if o in l.rests && o.owner == tx.source && o.id == tx.seqNo + i { AlignedId(o.id, tx.seqNo); }
    }
    OpSupply(b, checked, m, tx.source, tx.seqNo + i, CreatedBy(tx.ops[..i]), tx.ops[i], asset);
    OpRests(b, checked, l, m, tx.source, tx.seqNo, i, CreatedBy(tx.ops[..i]), tx.ops[i]);
    OpRests(b, checked, m, m, tx.source, tx.seqNo, i, CreatedBy(tx.ops[..i]), tx.ops[i]);
    assert tx.ops[..i + 1][..i] == tx.ops[..i];
  }

  /** A transaction that is carried out changes the supply of an asset by what it prints and
      the fee it pays, and every new offer stays traced to a taken sequence number. */
  lemma TxSupply(b: Base, checked: bool, l: Ledger, tx: Transaction, asset: nat)
    requires WellFormed(tx) && SoundBase(b) && Traced(l)
    ensures var d := Direct(checked, l, TxActions(b, tx));
      d.Done? ==>
        && Traced(d.ledger)
        && Supply(b, d.ledger, asset) == Supply(b, l, asset) - Fee(tx, asset) + PrintedBy(tx.ops, asset)
  {
    hide Supply;
    var d := Direct(checked, l, TxActions(b, tx));
    if Admission(b, tx) != Success {
      DirectOne(checked, l, Reject(Admission(b, tx)));
    } else if d.Done? {
      AfterSupply(b, checked, l, tx, |tx.ops|, asset);
      assert tx.ops[..|tx.ops|] == tx.ops;
      forall o | o in d.ledger.rests ensures SeqNo(o.owner, o.id - o.id % MAX_OPS) in d.ledger.taken {
        if o !in l.rests { AlignedId(o.id, tx.seqNo); }
      }
    }
  }

  // ---- runs ----

  /** One block's transactions one after the other: each happens entirely or not at all, and
      a fault ends the run. */
  function Block(b: Base, checked: bool, l: Ledger, txs: seq<Transaction>): Outcome
    requires SoundBase(b)
    decreases |txs|
  {
    if txs == [] then Done(l)
    else
      var d := Direct(checked, l, TxActions(b, txs[0]));
      if Thrown(d) then d else Block(b, checked, if d.Done? then d.ledger else l, txs[1..])
  }

  /** What the transactions that happen print, less their fees. */
  function Issued(b: Base, checked: bool, l: Ledger, txs: seq<Transaction>, asset: nat): int
    requires SoundBase(b)
    decreases |txs|
  {
    if txs == [] then 0
    else
      var d := Direct(checked, l, TxActions(b, txs[0]));
      if Thrown(d) then 0
      else if d.Failed? then Issued(b, checked, l, txs[1..], asset)
      else PrintedBy(txs[0].ops, asset) - Fee(txs[0], asset) + Issued(b, checked, d.ledger, txs[1..], asset)
  }

  /** Over every run the supply of an asset changes only by money printed and fees paid. */
  lemma {:induction false} BlockSupply(b: Base, checked: bool, l: Ledger, txs: seq<Transaction>, asset: nat)
    requires SoundBase(b) && (forall i :: 0 <= i < |txs| ==> WellFormed(txs[i])) && Traced(l)
    ensures var d := Block(b, checked, l, txs);
      if d.Done? then Supply(b, d.ledger, asset) == Supply(b, l, asset) + Issued(b, checked, l, txs, asset)
      else Thrown(d)
    decreases |txs|
  {
    hide Supply, Direct, TxActions, SoundBase, WellFormed, Traced;
    if txs != [] {
      TxSupply(b, checked, l, txs[0], asset);
      var d := Direct(checked, l, TxActions(b, txs[0]));
      if !Thrown(d) { BlockSupply(b, checked, if d.Done? then d.ledger else l, txs[1..], asset); }
    }
  }

  // ---- ledgers that read the same ----

  /** The same balances, counting a missing one as zero. */
  ghost predicate Same(x: Ledger, y: Ledger) {
    x.taken == y.taken && x.rests == y.rests && forall c :: At(x.avail, c) == At(y.avail, c)
  }

  ghost predicate SameOutcome(d: Outcome, e: Outcome) {
    if d.Done? then e.Done? && Same(d.ledger, e.ledger) else d == e
  }

  lemma ApplySame(checked: bool, x: Ledger, y: Ledger, a: Action)
    requires Same(x, y)
    ensures SameOutcome(Apply(checked, x, a), Apply(checked, y, a))
  {
    if a.Debit? || a.Credit? { assert At(x.avail, a.cell) == At(y.avail, a.cell); }
    var d, e := Apply(checked, x, a), Apply(checked, y, a);
    if d.Done? {
      forall c ensures At(d.ledger.avail, c) == At(e.ledger.avail, c) { assert At(x.avail, c) == At(y.avail, c); }
    }
  }

  lemma {:induction false} DirectSame(checked: bool, x: Ledger, y: Ledger, acts: seq<Action>)
    requires Same(x, y)
    ensures SameOutcome(Direct(checked, x, acts), Direct(checked, y, acts))
  {
    hide Same, Apply;
    if acts != [] {
      DirectSame(checked, x, y, acts[..|acts| - 1]);
      var d, e := Direct(checked, x, acts[..|acts| - 1]), Direct(checked, y, acts[..|acts| - 1]);
      if d.Done? { ApplySame(checked, d.ledger, e.ledger, acts[|acts| - 1]); }
    }
  }

  function Or0<K>(m: map<K, int>, k: K): int { if k in m then m[k] else 0 }

  lemma {:induction false} SumSame<K(!new)>(m: map<K, int>, n: map<K, int>)
    requires forall k :: Or0(m, k) == Or0(n, k)
    ensures SumOf(m) == SumOf(n)
    decreases |m| + |n|
  {
    hide SumOf;
    if m == map[] && n == map[] {
    } else {
      var k :| k in m || k in n;
      assert Or0(m, k) == Or0(n, k);
      var p, q := m - {k}, n - {k};
      forall j ensures Or0(p, j) == Or0(q, j) {
        assert Or0(m, j) == Or0(n, j);
      }
      if k in m { SumRemove(m, k); } else { assert p == m; }
      if k in n { SumRemove(n, k); } else { assert q == n; }
      SumSame(p, q);
    }
  }

  lemma SupplySame(b: Base, x: Ledger, y: Ledger, asset: nat)
    requires Same(x, y)
    ensures Supply(b, x, asset) == Supply(b, y, asset)
  {
    var m, n := BalancesOf(x, asset), BalancesOf(y, asset);
    forall c ensures Or0(m, c) == Or0(n, c) { assert At(x.avail, c) == At(y.avail, c); }
    SumSame(m, n);
    OtherSame(b, x, y, asset);
  }

  lemma OtherSame(b: Base, x: Ledger, y: Ledger, asset: nat)
    requires x.taken == y.taken && x.rests == y.rests
    ensures OpenOf(b, x, asset) == OpenOf(b, y, asset) && RestingOf(b, x, asset) == RestingOf(b, y, asset)
  {
    hide Sells;
  }
}
