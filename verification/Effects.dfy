/** What a transaction does, stated from its operations: whose balance moves by how much, which
    offers it makes, what it reserves, and what must hold for it to be carried out at all. */
module Effects {
  import opened OfferCategories
  import opened Ledger
  import opened Producers

  // ---- one operation ----

  /** The offer that a cancellation names. */
  function Named(b: Base, source: nat, op: Operation): OfferId
    requires op.CancelOffer?
  {
    OfferId(if op.sell < b.assets && op.buy < b.assets then Index(b.assets, op.sell, op.buy) else 0,
            op.price, source, op.offerId)
  }

  function AmountOf(offers: map<OfferId, nat>, o: OfferId): nat {
    if o in offers then offers[o] else 0
  }

  /** What account u gets of asset a: the receiver of a payment, a created account, and the sender
      of a cancellation or a printing. */
  function Gets(b: Base, source: nat, op: Operation, u: nat, a: nat): int {
    match op
    case CreateAccount(id, balance) => if u == id && a == NATIVE then balance else 0
    case CreateOffer(_, _, _, _) => 0
    case CancelOffer(sell, _, _, _) => if u == source && a == sell then AmountOf(b.offers, Named(b, source, op)) else 0
    case Payment(receiver, asset, amount) => if u == receiver && a == asset then amount else 0
    case MoneyPrinter(asset, amount) => if u == source && a == asset then amount else 0
    case Unknown => 0
  }

  /** What account u gives: always the sender. */
  function Gives(source: nat, op: Operation, u: nat, a: nat): int {
    match op
    case CreateAccount(_, balance) => if u == source && a == NATIVE then balance else 0
    case CreateOffer(sell, _, _, amount) => if u == source && a == sell then amount else 0
    case CancelOffer(_, _, _, _) => 0
    case Payment(_, asset, amount) => if u == source && a == asset then amount else 0
    case MoneyPrinter(_, _) => 0
    case Unknown => 0
  }

  /** What must hold of an operation by itself, given the accounts created before it. */
  ghost predicate Permitted(b: Base, source: nat, created: set<nat>, op: Operation) {
    match op
    case CreateAccount(id, balance) => MIN_STARTING_BALANCE <= balance <= MAX_AMOUNT && id !in b.accounts
    case CreateOffer(sell, buy, price, amount) =>
      sell != buy && sell < b.assets && buy < b.assets && 0 < price < 0x1_0000_0000_0000 && 0 < amount <= MAX_AMOUNT
    case CancelOffer(sell, buy, price, offerId) =>
      sell < b.assets && buy < b.assets && Named(b, source, op) in b.offers
    case Payment(receiver, asset, amount) =>
      0 < amount <= MAX_AMOUNT && (receiver in b.accounts || receiver in created)
    case MoneyPrinter(asset, amount) => amount >= 0
    case Unknown => false
  }

  lemma ActionsOne(x: Action, f: Facet)
    ensures Weight([x], f) == Push(x, f) && (NoReject([x]) <==> !x.Reject?)
  {
    hide Weight, Push, NoReject;
    assert [] + [x] == [x];
    WeightSnoc([], x, f);
    RejectSnoc([], x);
    NoActions(f);
  }

  lemma NoActions(f: Facet)
    ensures Weight([], f) == 0 && NoReject([])
  {
  }

  lemma ActionsTwo(x: Action, y: Action, f: Facet)
    ensures Weight([x, y], f) == Push(x, f) + Push(y, f)
    ensures NoReject([x, y]) <==> !x.Reject? && !y.Reject?
  {
    hide Weight, Push, NoReject;
    assert [x] + [y] == [x, y];
    ActionsOne(x, f);
    WeightSnoc([x], y, f);
    RejectSnoc([x], y);
  }

  lemma ActionsThree(x: Action, y: Action, z: Action, f: Facet)
    ensures Weight([x, y, z], f) == Push(x, f) + Push(y, f) + Push(z, f)
    ensures NoReject([x, y, z]) <==> !x.Reject? && !y.Reject? && !z.Reject?
  {
    hide Weight, Push, NoReject;
    assert [x, y] + [z] == [x, y, z];
    ActionsTwo(x, y, f);
    WeightSnoc([x, y], z, f);
    RejectSnoc([x, y], z);
  }

  /** An operation is not rejected exactly when it is permitted, and then moves every balance by
      what the account gets less what it gives. */
  lemma OpEffect(b: Base, source: nat, opId: nat, created: set<nat>, op: Operation, u: nat, a: nat)
    requires SoundBase(b)
    ensures var acts := OpActions(b, source, opId, created, op);
      && (NoReject(acts) <==> Permitted(b, source, created, op))
      && (NoReject(acts) ==>
            Weight(acts, Balance(Cell(u, a))) == Gets(b, source, op, u, a) - Gives(source, op, u, a))
  {
    hide Weight, NoReject, Index, LookUp, SoundBase;
    var acts, f := OpActions(b, source, opId, created, op), Balance(Cell(u, a));
    if |acts| == 1 {
      assert acts == [acts[0]];
      ActionsOne(acts[0], f);
      if op.CancelOffer? { CancelNames(b, source, op); }
    } else if op.CreateAccount? {
      assert acts == [acts[0], acts[1], acts[2]];
      ActionsThree(acts[0], acts[1], acts[2], f);
    } else {
      assert acts == [acts[0], acts[1]];
      ActionsTwo(acts[0], acts[1], f);
      if op.CancelOffer? { CancelNames(b, source, op); }
    }
  }

  lemma CancelNames(b: Base, source: nat, op: Operation)
    requires SoundBase(b) && op.CancelOffer?
    ensures var found := LookUp(b, op.sell, op.buy);
      && (found.Found? ==>
            op.sell < b.assets && op.buy < b.assets &&
            Named(b, source, op) == OfferId(found.market, op.price, source, op.offerId))
      && (found.Lost? && op.sell < b.assets && op.buy < b.assets ==> Named(b, source, op) !in b.offers)
  {
    hide Index;
  }

  // ---- the operations of a transaction ----

  /** What the operations change of a balance. */
  function Change(b: Base, source: nat, ops: seq<Operation>, u: nat, a: nat): int {
    if ops == [] then 0
    else
      var last := ops[|ops| - 1];
      Change(b, source, ops[..|ops| - 1], u, a) + Gets(b, source, last, u, a) - Gives(source, last, u, a)
  }

  ghost predicate AllPermitted(b: Base, source: nat, ops: seq<Operation>) {
    forall i :: 0 <= i < |ops| ==> Permitted(b, source, CreatedBy(ops[..i]), ops[i])
  }

  lemma {:induction false} RejectAppend(acts: seq<Action>, more: seq<Action>)
    ensures NoReject(acts + more) <==> NoReject(acts) && NoReject(more)
    decreases |more|
  {
    if more == [] {
      assert acts + more == acts;
    } else {
      var init, last := more[..|more| - 1], more[|more| - 1];
      assert acts + more == (acts + init) + [last] && more == init + [last];
      RejectAppend(acts, init);
      RejectSnoc(acts + init, last);
      RejectSnoc(init, last);
    }
  }

  lemma {:induction false} OpsEffect(b: Base, tx: Transaction, i: nat, u: nat, a: nat)
    requires SoundBase(b) && i <= |tx.ops|
    ensures var acts := OpsActions(b, tx, i);
      && (NoReject(acts) <==> AllPermitted(b, tx.source, tx.ops[..i]))
      && (NoReject(acts) ==> Weight(acts, Balance(Cell(u, a))) == Change(b, tx.source, tx.ops[..i], u, a))
  {
    hide OpActions, Permitted, SoundBase, NoReject, Weight, Gets, Gives, CreatedBy, AllPermitted;
    if i == 0 {
      NothingDone(b, tx, u, a);
    } else {
      var before := OpsActions(b, tx, i - 1);
      var acts := OpActions(b, tx.source, tx.seqNo + (i - 1), CreatedBy(tx.ops[..i - 1]), tx.ops[i - 1]);
      OpsEffect(b, tx, i - 1, u, a);
      OpEffect(b, tx.source, tx.seqNo + (i - 1), CreatedBy(tx.ops[..i - 1]), tx.ops[i - 1], u, a);
      RejectAppend(before, acts);
      WeightAppend(before, acts, Balance(Cell(u, a)));
      assert tx.ops[..i][..i - 1] == tx.ops[..i - 1];
      PermittedMore(b, tx.source, tx.ops, i - 1);
    }
  }

  lemma NothingDone(b: Base, tx: Transaction, u: nat, a: nat)
    ensures NoReject([]) && Weight([], Balance(Cell(u, a))) == 0
    ensures AllPermitted(b, tx.source, tx.ops[..0]) && Change(b, tx.source, tx.ops[..0], u, a) == 0
  {
  }

  lemma PermittedMore(b: Base, source: nat, ops: seq<Operation>, i: nat)
    requires i < |ops|
    ensures AllPermitted(b, source, ops[..i + 1]) <==>
      AllPermitted(b, source, ops[..i]) && Permitted(b, source, CreatedBy(ops[..i]), ops[i])
  {
    hide Permitted, CreatedBy;
    var more, init := ops[..i + 1], ops[..i];
    assert forall j :: 0 <= j <= i ==> more[..j] == ops[..j];
    assert forall j :: 0 <= j < i ==> init[..j] == ops[..j] && init[j] == more[j] == ops[j];
    if AllPermitted(b, source, more) {
      assert Permitted(b, source, CreatedBy(more[..i]), more[i]);
      forall j | 0 <= j < i ensures Permitted(b, source, CreatedBy(init[..j]), init[j]) {
        assert Permitted(b, source, CreatedBy(more[..j]), more[j]);
      }
    }
    if AllPermitted(b, source, init) && Permitted(b, source, CreatedBy(ops[..i]), ops[i]) {
      forall j | 0 <= j <= i ensures Permitted(b, source, CreatedBy(more[..j]), more[j]) {
        if j < i { assert Permitted(b, source, CreatedBy(init[..j]), init[j]); }
      }
    }
  }

  // ---- a transaction ----

  /** What must hold of a transaction by itself. */
  ghost predicate Allowed(b: Base, tx: Transaction)
    requires SoundBase(b)
  {
    && tx.seqNo % MAX_OPS == 0 && FeeRequired(|tx.ops|) <= tx.maxFee && tx.source in b.accounts && tx.goodSignature
    && b.lastSeq[tx.source] + MAX_OPS <= tx.seqNo < b.lastSeq[tx.source] + MAX_OPS * (MAX_SEQ_NUMS + 1)
    && AllPermitted(b, tx.source, tx.ops)
  }

  /** What a transaction changes of a balance: its operations, and the fee of its sender. */
  function Net(b: Base, tx: Transaction, u: nat, a: nat): int {
    Change(b, tx.source, tx.ops, u, a) - (if u == tx.source && a == NATIVE then FeeRequired(|tx.ops|) else 0)
  }

  lemma WindowIs(last: nat, seqNo: nat)
    ensures SeqWindow(last, seqNo) == Success <==> last + MAX_OPS <= seqNo < last + MAX_OPS * (MAX_SEQ_NUMS + 1)
  {
  }

  /** A transaction is not rejected exactly when it is allowed, and then moves every balance by its
      net change. */
  lemma TxEffect(b: Base, tx: Transaction, u: nat, a: nat)
    requires SoundBase(b)
    ensures var acts := TxActions(b, tx);
      && (NoReject(acts) <==> Allowed(b, tx))
      && (NoReject(acts) ==> Weight(acts, Balance(Cell(u, a))) == Net(b, tx, u, a))
  {
    hide OpActions, Permitted, NoReject, Weight, Change, AllPermitted, SeqWindow, OpsActions;
    var f := Balance(Cell(u, a));
    if tx.source in b.accounts { WindowIs(b.lastSeq[tx.source], tx.seqNo); }
    if Admission(b, tx) != Success {
      ActionsOne(Reject(Admission(b, tx)), f);
    } else {
      assert tx.ops[..|tx.ops|] == tx.ops;
      OpsEffect(b, tx, |tx.ops|, u, a);
      RejectAppend(Opening(tx), OpsActions(b, tx, |tx.ops|));
      WeightAppend(Opening(tx), OpsActions(b, tx, |tx.ops|), f);
      ActionsTwo(Opening(tx)[0], Opening(tx)[1], f);
      assert Opening(tx) == [Opening(tx)[0], Opening(tx)[1]];
    }
  }

  /** Every balance moves exactly so. */
  ghost predicate Moved(b: Base, was: Ledger, now: Ledger, tx: Transaction) {
    forall u, a :: At(now.avail, Cell(u, a)) == At(was.avail, Cell(u, a)) + Net(b, tx, u, a)
  }

  /** After a transaction that is carried out every account has, of every asset, what it had, what
      payments and creations give it, and for the sender what it cancels and prints, less what it
      pays, offers, gives to the accounts it creates, and the fee. */
  lemma TxMoves(b: Base, checked: bool, l: Ledger, tx: Transaction)
    requires SoundBase(b)
    ensures var d := Direct(checked, l, TxActions(b, tx)); d.Done? ==> Allowed(b, tx) && Moved(b, l, d.ledger, tx)
  {
    hide TxActions, Allowed, SoundBase, Net, NoReject, Direct;
    var acts := TxActions(b, tx);
    var d := Direct(checked, l, acts);
    if d.Done? {
      DirectExact(checked, l, acts);
      TxEffect(b, tx, 0, 0);
      forall u, a ensures At(d.ledger.avail, Cell(u, a)) == At(l.avail, Cell(u, a)) + Net(b, tx, u, a) {
        TxEffect(b, tx, u, a);
        DirectLevel(checked, l, acts, Balance(Cell(u, a)));
      }
    }
  }

  lemma {:induction false} GivesOnly(b: Base, source: nat, ops: seq<Operation>, u: nat, a: nat)
    requires AllPermitted(b, source, ops) && source in b.accounts
    requires u !in b.accounts && u !in CreatedBy(ops)
    ensures Change(b, source, ops, u, a) == 0
  {
    if ops != [] {
      var n := |ops| - 1;
      assert ops[..n + 1] == ops;
      PermittedMore(b, source, ops, n);
      assert ops[n] in ops;
      assert forall op :: op in ops[..n] ==> op in ops;
      GivesOnly(b, source, ops[..n], u, a);
    }
  }

  /** Nobody without an account before, and not created by it, gets anything. */
  lemma StrangersKeep(b: Base, checked: bool, l: Ledger, tx: Transaction, u: nat, a: nat)
    requires SoundBase(b) && u !in b.accounts && u !in CreatedBy(tx.ops)
    ensures var d := Direct(checked, l, TxActions(b, tx));
      d.Done? ==> At(d.ledger.avail, Cell(u, a)) == At(l.avail, Cell(u, a))
  {
    hide Direct, TxActions, AllPermitted, Change, CreatedBy;
    TxMoves(b, checked, l, tx);
    if Direct(checked, l, TxActions(b, tx)).Done? { GivesOnly(b, tx.source, tx.ops, u, a); }
  }

  lemma AllowedActions(b: Base, tx: Transaction)
    requires SoundBase(b) && Allowed(b, tx)
    ensures TxActions(b, tx) == Opening(tx) + OpsActions(b, tx, |tx.ops|)
  {
    hide OpsActions, AllPermitted;
    WindowIs(b.lastSeq[tx.source], tx.seqNo);
  }

  // ---- offers and reservations ----

  /** The offers that the first i operations make, each under its own number. */
  function Made(b: Base, tx: Transaction, i: nat): map<OfferId, nat>
    requires i <= |tx.ops|
  {
    if i == 0 then map[]
    else
      var op := tx.ops[i - 1];
      if op.CreateOffer? && op.sell < b.assets && op.buy < b.assets && op.amount > 0 then
        var o := OfferId(Index(b.assets, op.sell, op.buy), op.price, tx.source, tx.seqNo + (i - 1));
        Made(b, tx, i - 1)[o := op.amount]
      else Made(b, tx, i - 1)
  }

  lemma OpMakes(b: Base, source: nat, opId: nat, created: set<nat>, op: Operation)
    requires Permitted(b, source, created, op) && SoundBase(b)
    ensures OffersIn(OpActions(b, source, opId, created, op)) ==
      if op.CreateOffer? then map[OfferId(Index(b.assets, op.sell, op.buy), op.price, source, opId) := op.amount]
      else map[]
  {
    hide Index, LookUp, SoundBase;
    var acts := OpActions(b, source, opId, created, op);
    if op.CancelOffer? { CancelNames(b, source, op); }
    if |acts| == 1 {
      assert acts == [acts[0]];
      OffersOne(acts[0]);
    } else if op.CreateAccount? {
      assert acts == [acts[0], acts[1], acts[2]];
      OffersThree(acts[0], acts[1], acts[2]);
    } else {
      assert acts == [acts[0], acts[1]];
      OffersTwo(acts[0], acts[1]);
    }
  }

  lemma OffersOne(x: Action)
    ensures OffersIn([x]) == if x.Rest? then map[x.offer := x.size] else map[]
  {
    assert [x][..0] == [];
  }

  lemma OffersTwo(x: Action, y: Action)
    requires !y.Rest?
    ensures OffersIn([x, y]) == if x.Rest? then map[x.offer := x.size] else map[]
  {
    assert [x, y][..1] == [x];
    OffersOne(x);
  }

  lemma OffersThree(x: Action, y: Action, z: Action)
    requires !x.Rest? && !y.Rest? && !z.Rest?
    ensures OffersIn([x, y, z]) == map[]
  {
    assert [x, y, z][..2] == [x, y];
    OffersTwo(x, y);
  }

  lemma {:induction false} OpsMake(b: Base, tx: Transaction, i: nat)
    requires SoundBase(b) && i <= |tx.ops| && AllPermitted(b, tx.source, tx.ops)
    ensures OffersIn(OpsActions(b, tx, i)) == Made(b, tx, i)
  {
    hide OpActions, SoundBase, Index, CreatedBy;
    if i > 0 {
      var op := tx.ops[i - 1];
      OpsMake(b, tx, i - 1);
      assert Permitted(b, tx.source, CreatedBy(tx.ops[..i - 1]), op);
      OpMakes(b, tx.source, tx.seqNo + (i - 1), CreatedBy(tx.ops[..i - 1]), op);
      OffersAppend(OpsActions(b, tx, i - 1),
                   OpActions(b, tx.source, tx.seqNo + (i - 1), CreatedBy(tx.ops[..i - 1]), op));
    }
  }

  /** The offers of a transaction that is carried out are those its operations make. */
  lemma TxMakes(b: Base, checked: bool, l: Ledger, tx: Transaction)
    requires SoundBase(b)
    ensures var d := Direct(checked, l, TxActions(b, tx));
      d.Done? ==> d.ledger.rests == l.rests + Made(b, tx, |tx.ops|)
  {
    hide Direct, OpsActions, Made, AllPermitted, SoundBase, SeqWindow;
    TxMoves(b, checked, l, tx);
    var acts := TxActions(b, tx);
    DirectOffers(checked, l, acts);
    if Direct(checked, l, acts).Done? {
      AllowedActions(b, tx);
      OffersAppend(Opening(tx), OpsActions(b, tx, |tx.ops|));
      OpeningTakes(tx);
      OpsMake(b, tx, |tx.ops|);
    }
  }

  /** Whether the operations reserve a resource: the id of an account they create, or an offer that
      they cancel. */
  ghost predicate Reserves(b: Base, source: nat, ops: seq<Operation>, r: Resource) {
    exists op :: op in ops && OpReserves(b, source, op, r)
  }

  ghost predicate OpReserves(b: Base, source: nat, op: Operation, r: Resource) {
    || (op.CreateAccount? && r == NewAccount(op.id))
    || (op.CancelOffer? && r == Mark(Named(b, source, op)))
  }

  lemma OpHolds(b: Base, source: nat, opId: nat, created: set<nat>, op: Operation, r: Resource)
    requires Permitted(b, source, created, op) && SoundBase(b)
    ensures Weight(OpActions(b, source, opId, created, op), Holding(r)) == if OpReserves(b, source, op, r) then 1 else 0
  {
    hide Weight, Index, LookUp, SoundBase, NoReject;
    var acts := OpActions(b, source, opId, created, op);
    if op.CancelOffer? { CancelNames(b, source, op); }
    if |acts| == 1 {
      assert acts == [acts[0]];
      ActionsOne(acts[0], Holding(r));
    } else if op.CreateAccount? {
      assert acts == [acts[0], acts[1], acts[2]];
      ActionsThree(acts[0], acts[1], acts[2], Holding(r));
    } else {
      assert acts == [acts[0], acts[1]];
      ActionsTwo(acts[0], acts[1], Holding(r));
    }
  }

  lemma ReservesMore(b: Base, source: nat, ops: seq<Operation>, i: nat, r: Resource)
    requires i < |ops|
    ensures Reserves(b, source, ops[..i + 1], r) <==>
      Reserves(b, source, ops[..i], r) || OpReserves(b, source, ops[i], r)
  {
    hide OpReserves;
    assert ops[..i + 1] == ops[..i] + [ops[i]];
  }

  lemma {:induction false} OpsHold(b: Base, tx: Transaction, i: nat, r: Resource)
    requires SoundBase(b) && i <= |tx.ops| && AllPermitted(b, tx.source, tx.ops)
    ensures Weight(OpsActions(b, tx, i), Holding(r)) > 0 <==> Reserves(b, tx.source, tx.ops[..i], r)
    ensures Weight(OpsActions(b, tx, i), Holding(r)) >= 0
  {
    hide OpActions, SoundBase, CreatedBy, Reserves, OpReserves, Weight, Permitted;
    if i == 0 {
      NothingHeld(b, tx, r);
    } else {
      var op := tx.ops[i - 1];
      OpsHold(b, tx, i - 1, r);
      assert Permitted(b, tx.source, CreatedBy(tx.ops[..i - 1]), op);
      OpHolds(b, tx.source, tx.seqNo + (i - 1), CreatedBy(tx.ops[..i - 1]), op, r);
      WeightAppend(OpsActions(b, tx, i - 1),
                   OpActions(b, tx.source, tx.seqNo + (i - 1), CreatedBy(tx.ops[..i - 1]), op), Holding(r));
      ReservesMore(b, tx.source, tx.ops, i - 1, r);
    }
  }

  lemma NothingHeld(b: Base, tx: Transaction, r: Resource)
    ensures Weight([], Holding(r)) == 0 && !Reserves(b, tx.source, tx.ops[..0], r)
  {
  }

  /** It takes its sequence number, the ids of the accounts it creates and the offers it cancels, and
      nothing else. */
  lemma TxTakes(b: Base, checked: bool, l: Ledger, tx: Transaction, r: Resource)
    requires SoundBase(b)
    ensures var d := Direct(checked, l, TxActions(b, tx));
      d.Done? ==>
        (r in d.ledger.taken <==>
          r in l.taken || r == SeqNo(tx.source, tx.seqNo) || Reserves(b, tx.source, tx.ops, r))
  {
    hide Direct, OpsActions, AllPermitted, SoundBase, SeqWindow, Reserves, Weight, NoReject, Available;
    TxMoves(b, checked, l, tx);
    var acts := TxActions(b, tx);
    if Direct(checked, l, acts).Done? {
      AllowedActions(b, tx);
      DirectLevel(checked, l, acts, Holding(r));
      WeightAppend(Opening(tx), OpsActions(b, tx, |tx.ops|), Holding(r));
      ActionsTwo(Opening(tx)[0], Opening(tx)[1], Holding(r));
      assert Opening(tx) == [Opening(tx)[0], Opening(tx)[1]];
      assert tx.ops[..|tx.ops|] == tx.ops;
      OpsHold(b, tx, |tx.ops|, r);
    }
  }

  // ---- blocks ----

  /** The transactions of a block that are carried out. */
  function Carried(b: Base, checked: bool, l: Ledger, txs: seq<Transaction>): seq<Transaction>
    requires SoundBase(b)
    decreases |txs|
  {
    if txs == [] then []
    else
      var d := Direct(checked, l, TxActions(b, txs[0]));
      if Thrown(d) then []
      else if d.Failed? then Carried(b, checked, l, txs[1..])
      else [txs[0]] + Carried(b, checked, d.ledger, txs[1..])
  }

  function NetOf(b: Base, txs: seq<Transaction>, u: nat, a: nat): int
    decreases |txs|
  {
    if txs == [] then 0 else Net(b, txs[0], u, a) + NetOf(b, txs[1..], u, a)
  }

  /** Over a run every balance moves by the net changes of the transactions carried out. */
  lemma {:induction false} BlockMoves(b: Base, checked: bool, l: Ledger, txs: seq<Transaction>, u: nat, a: nat)
    requires SoundBase(b)
    ensures var d := Block(b, checked, l, txs);
      d.Done? ==>
        At(d.ledger.avail, Cell(u, a)) == At(l.avail, Cell(u, a)) + NetOf(b, Carried(b, checked, l, txs), u, a)
    decreases |txs|
  {
    hide SoundBase, TxActions, Direct, Net, Allowed;
    if txs != [] {
      var d := Direct(checked, l, TxActions(b, txs[0]));
      TxMoves(b, checked, l, txs[0]);
      if !Thrown(d) {
        var m := if d.Done? then d.ledger else l;
        BlockMoves(b, checked, m, txs[1..], u, a);
        if d.Done? {
          var rest := Carried(b, checked, m, txs[1..]);
          assert ([txs[0]] + rest)[1..] == rest;
        }
      }
    }
  }

  lemma {:induction false} NetSnoc(b: Base, txs: seq<Transaction>, tx: Transaction, u: nat, a: nat)
    ensures NetOf(b, txs + [tx], u, a) == NetOf(b, txs, u, a) + Net(b, tx, u, a)
    decreases |txs|
  {
    hide Net;
    if txs == [] {
      assert ([] + [tx])[1..] == [];
    } else {
      assert (txs + [tx])[1..] == txs[1..] + [tx];
      NetSnoc(b, txs[1..], tx, u, a);
    }
  }

  /** A validated block moves every balance by the net changes of all its transactions. */
  lemma {:induction false} ValidateMoves(b: Base, l: Ledger, txs: seq<Transaction>, u: nat, a: nat)
    requires SoundBase(b)
    ensures var d := Validate(b, l, txs);
      d.Done? ==> At(d.ledger.avail, Cell(u, a)) == At(l.avail, Cell(u, a)) + NetOf(b, txs, u, a)
    decreases |txs|
  {
    hide SoundBase, TxActions, Direct, Net, Allowed;
    if txs != [] {
      var init, tx := txs[..|txs| - 1], txs[|txs| - 1];
      assert txs == init + [tx];
      ValidateMoves(b, l, init, u, a);
      NetSnoc(b, init, tx, u, a);
      var d := Validate(b, l, init);
      if d.Done? { TxMoves(b, false, d.ledger, tx); }
    }
  }
}
