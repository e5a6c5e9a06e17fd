/** Processing and validating one transaction, operation by operation. A transaction that is
    processed does exactly what its actions do directly, or nothing at all. */
module Transactions {
  import opened OfferCategories
  import opened Ledger
  import opened DatabaseViews
  import Effects
  import opened Wrappers

  /** One thread's new offers, in front of the books' cancellation marks. Undoing is only
      for block production. */
  class SerialManager {
    const base: Base
    const producing: bool
    var marks: set<Resource>
    var newOffers: map<OfferId, nat>

    constructor (base: Base, producing: bool)
      ensures this.base == base && this.producing == producing && marks == {} && newOffers == map[]
    {
      this.base, this.producing := base, producing;
      marks, newOffers := {}, map[];
    }

    method AddOffer(o: OfferId, amount: nat)
      modifies this`newOffers
      ensures newOffers == old(newOffers)[o := amount]
    {
      newOffers := newOffers[o := amount];
    }

    method UnwindAddOffer(o: OfferId)
      modifies this`newOffers
      ensures newOffers == if producing then old(newOffers) - {o} else old(newOffers)
    {
      if producing { newOffers := newOffers - {o}; }
    }

    method DeleteOffer(o: OfferId) returns (found: Option<nat>)
      modifies this`marks
      ensures found == if o in base.offers && Mark(o) !in old(marks) then Some(base.offers[o]) else None
      ensures marks == if found.Some? then old(marks) + {Mark(o)} else old(marks)
    {
      if o !in base.offers || Mark(o) in marks { return None; }
      marks := marks + {Mark(o)};
      found := Some(base.offers[o]);
    }

    method UndeleteOffer(o: OfferId)
      modifies this`marks
      ensures marks == if producing then old(marks) - {Mark(o)} else old(marks)
    {
      if producing { marks := marks - {Mark(o)}; }
    }
  }

  function StatusOf(d: Outcome): Status {
    if d.Done? then Success else d.status
  }

  /** The ids reserved are earlier ones and those of the accounts created here. */
  ghost predicate IdsFrom(before: set<Resource>, ids: set<Resource>, created: set<nat>) {
    && (forall r :: r in ids <==> r in before || (r.NewAccount? && r.id in created))
    && (forall u :: u in created ==> NewAccount(u) !in before)
  }

  lemma ApplyReject(checked: bool, l: Ledger, a: Action)
    requires a.Reject?
    ensures Apply(checked, l, a) == Failed(a.status)
  {
  }

  function SeqsOf(l: Ledger): set<Resource> { set r | r in l.taken && r.SeqNo? }

  function IdsOf(l: Ledger): set<Resource> { set r | r in l.taken && r.NewAccount? }

  lemma ApplyTake(checked: bool, l: Ledger, r: Resource)
    ensures var d := Apply(checked, l, Take(r));
      d == if r in l.taken then Failed(InUse(r)) else Done(l.(taken := l.taken + {r}))
  {
  }

  lemma MovedSame(b: Base, checked: bool, l: Ledger, now: Ledger, tx: Transaction)
    requires SoundBase(b)
    requires var d := Direct(checked, l, TxActions(b, tx)); d.Done? && Same(now, d.ledger)
    ensures Effects.Moved(b, l, now, tx)
  {
    hide Direct, TxActions, SoundBase, Effects.Net;
    Effects.TxMoves(b, checked, l, tx);
  }

  class SerialTransactionHandler {
    const db: MemoryDatabase
    const manager: SerialManager

    ghost function Contents(): Ledger
      reads db, manager
    {
      Ledger(db.available, db.seqs + db.ids + manager.marks, manager.newOffers)
    }

    ghost predicate Valid()
      reads db, manager
    {
      db.Valid() && db.base == manager.base && forall r :: r in manager.marks ==> r.Mark?
    }

    constructor (db: MemoryDatabase, manager: SerialManager)
      ensures this.db == db && this.manager == manager
    {
      this.db, this.manager := db, manager;
    }

    /** A transaction's view of the database, with the local offers and the marks, shows a
        ledger. */
    ghost predicate Shows(view: DatabaseView, d: Ledger)
      reads this, db, manager, view
    {
      && Valid() && view.db == db && view.Valid() && view.buffered == manager.producing
      && (forall c :: view.Total(c) == At(d.avail, c))
      && d.taken == db.seqs + db.ids + manager.marks && d.rests == manager.newOffers
    }

    lemma ShowsValid(view: DatabaseView, d: Ledger)
      requires Shows(view, d)
      ensures view.Valid() && view.db == db && view.buffered == manager.producing && d.rests == manager.newOffers
    {
    }

    /** Withdraw from an account, as a payment or into escrow. */
    method Withdraw(view: DatabaseView, c: Cell, x: nat, escrow: bool, ghost d: Ledger) returns (status: Status)
      requires Shows(view, d) && view.Reaches(c.account) && x > 0
      modifies view`buffer, view`side, view`local, db`available
      ensures var e := Apply(view.buffered, d, Action.Debit(c, x));
        status == StatusOf(e) && (status == Success <==> e.Done?) && (e.Done? ==> Shows(view, e.ledger))
      ensures view.Valid() && (view.buffered ==> forall k :: view.Own(k) == old(view.Own(k)))
    {
      hide SoundBase;
      assert view.Total(c) == At(d.avail, c);
      if escrow { status := view.Escrow(c, x); } else { status := view.TransferAvailable(c, 0 - x); }
    }

    /** Credit an account, as a payment or out of escrow. */
    method Deposit(view: DatabaseView, c: Cell, x: nat, escrow: bool, ghost d: Ledger) returns (status: Status)
      requires Shows(view, d) && view.Reaches(c.account)
      modifies view`buffer, view`side, view`local, db`available
      ensures var e := Apply(view.buffered, d, Action.Credit(c, x));
        status == StatusOf(e) == Success && e.Done? && Shows(view, e.ledger)
      ensures view.buffered ==> forall k :: view.Own(k) == old(view.Own(k))
    {
      hide SoundBase;
      if escrow { status := view.Escrow(c, 0 - x); } else { status := view.TransferAvailable(c, x); }
    }

    /** Reserve the id of a new account. */
    method Reserve(view: DatabaseView, id: nat, ghost d: Ledger, ghost ids0: set<Resource>) returns (status: Status)
      requires Shows(view, d) && IdsFrom(ids0, db.ids, view.newAccounts)
      modifies view`newAccounts, db`ids
      ensures var e := Apply(view.buffered, d, Take(NewAccount(id)));
        && status == (if id in db.base.accounts then NewAccountAlreadyExists else StatusOf(e))
        && (status == Success ==> e.Done?) && Shows(view, if status == Success then e.ledger else d)
      ensures view.buffered ==> forall k :: view.Own(k) == old(view.Own(k))
      ensures IdsFrom(ids0, db.ids, view.newAccounts)
      ensures view.newAccounts == if status == Success then old(view.newAccounts) + {id} else old(view.newAccounts)
    {
      hide SoundBase;
      status := view.CreateNewAccount(id);
      assert status == Success ==> db.seqs + db.ids + manager.marks == d.taken + {NewAccount(id)};
    }

    method ProcessCreateAccount(view: DatabaseView, source: nat, opId: nat, op: Operation,
                                ghost d: Ledger, ghost ids0: set<Resource>) returns (status: Status)
      requires Shows(view, d) && source in db.base.accounts && op.CreateAccount?
      requires IdsFrom(ids0, db.ids, view.newAccounts)
      modifies view`buffer, view`side, view`local, view`newAccounts, db`available, db`ids
      ensures var e := Direct(view.buffered, d, OpActions(db.base, source, opId, old(view.newAccounts), op));
        status == StatusOf(e) && (e.Done? ==> Shows(view, e.ledger))
      ensures view.Valid() && (view.buffered ==> forall k :: view.Own(k) == old(view.Own(k)))
      ensures IdsFrom(ids0, db.ids, view.newAccounts)
      ensures status == Success ==> view.newAccounts == old(view.newAccounts) + {op.id}
    {
      hide SoundBase, Direct, Shows, Apply, IdsFrom;
      ghost var acts := OpActions(db.base, source, opId, view.newAccounts, op);
      ShowsValid(view, d);
      if op.balance < MIN_STARTING_BALANCE {
        DirectOne(view.buffered, d, acts[0]);
        ApplyReject(view.buffered, d, acts[0]);
        return StartingBalanceTooLow;
      }
      status := Reserve(view, op.id, d, ids0);
      if op.id in db.base.accounts {
        DirectOne(view.buffered, d, acts[0]);
        ApplyReject(view.buffered, d, acts[0]);
        ShowsValid(view, d);
        return;
      }
      assert acts == [acts[0], acts[1], acts[2]];
      DirectThree(view.buffered, d, acts[0], acts[1], acts[2]);
      if status != Success { ShowsValid(view, d); return; }
      ghost var d1 := Apply(view.buffered, d, acts[0]).ledger;
      ShowsValid(view, d1);
      status := Withdraw(view, Cell(source, NATIVE), op.balance, false, d1);
      if status != Success { return; }
      ghost var d2 := Apply(view.buffered, d1, acts[1]).ledger;
      if !ValidAmount(op.balance) {
        ApplyReject(view.buffered, d2, acts[2]);
        return InvalidAmount;
      }
      status := Deposit(view, Cell(op.id, NATIVE), op.balance, false, d2);
      ShowsValid(view, Apply(view.buffered, d2, acts[2]).ledger);
    }

    method Place(view: DatabaseView, o: OfferId, x: nat, ghost d: Ledger)
      requires Shows(view, d)
      modifies manager`newOffers
      ensures var e := Apply(view.buffered, d, Rest(o, x)); e.Done? && Shows(view, e.ledger)
      ensures manager.newOffers == old(manager.newOffers)[o := x]
    {
      hide SoundBase;
      manager.AddOffer(o, x);
    }

    method ProcessCreateOffer(view: DatabaseView, source: nat, opId: nat, op: Operation, ghost d: Ledger)
      returns (status: Status)
      requires Shows(view, d) && source in db.base.accounts && op.CreateOffer?
      requires forall o :: o in d.rests ==> o.owner != source || o.id != opId
      modifies view`buffer, view`side, view`local, db`available, manager`newOffers
      ensures var e := Direct(view.buffered, d, OpActions(db.base, source, opId, view.newAccounts, op));
        status == StatusOf(e) && (e.Done? ==> Shows(view, e.ledger))
      ensures view.Valid() && (view.buffered ==> forall k :: view.Own(k) == old(view.Own(k)))
      ensures status != Success && manager.producing ==> manager.newOffers == old(manager.newOffers)
    {
      hide SoundBase, Direct, Index, Shows, Apply;
      ghost var acts := OpActions(db.base, source, opId, view.newAccounts, op);
      ShowsValid(view, d);
      if |acts| == 1 {
        DirectOne(view.buffered, d, acts[0]);
        ApplyReject(view.buffered, d, acts[0]);
      }
      if !ValidCategory(db.base.assets, op.sell, op.buy) { return InvalidOfferCategory; }
      if !ValidPrice(op.price) { return InvalidPrice; }
      if !ValidAmount(op.amount) { return InvalidAmount; }
      assert acts == [acts[0], acts[1]];
      DirectTwo(view.buffered, d, acts[0], acts[1]);
      var o := OfferId(Index(db.base.assets, op.sell, op.buy), op.price, source, opId);
      Place(view, o, op.amount, d);
      ghost var d1 := Apply(view.buffered, d, acts[0]).ledger;
      ShowsValid(view, d1);
      status := Withdraw(view, Cell(source, op.sell), op.amount, true, d1);
      if status != Success {
        assert o !in d.rests;
        manager.UnwindAddOffer(o);
        assert manager.producing ==> manager.newOffers == old(manager.newOffers);
      }
    }

    method MarkOffer(view: DatabaseView, o: OfferId, ghost d: Ledger) returns (found: Option<nat>)
      requires Shows(view, d)
      modifies manager`marks
      ensures found.None? <==>
        o !in db.base.offers || Apply(view.buffered, d, Take(Mark(o))) == Failed(CancelOfferTargetNexist)
      ensures found.Some? ==>
        && found.value == db.base.offers[o] && Apply(view.buffered, d, Take(Mark(o))).Done?
        && Shows(view, Apply(view.buffered, d, Take(Mark(o))).ledger)
      ensures found.None? ==> manager.marks == old(manager.marks)
    {
      hide SoundBase;
      found := manager.DeleteOffer(o);
      assert found.Some? ==> db.seqs + db.ids + manager.marks == d.taken + {Mark(o)};
    }

    method ProcessCancelOffer(view: DatabaseView, source: nat, opId: nat, op: Operation, ghost d: Ledger)
      returns (status: Status)
      requires Shows(view, d) && source in db.base.accounts && op.CancelOffer?
      modifies view`buffer, view`side, view`local, db`available, manager`marks
      ensures var e := Direct(view.buffered, d, OpActions(db.base, source, opId, view.newAccounts, op));
        status == StatusOf(e) && (e.Done? ==> Shows(view, e.ledger))
      ensures view.Valid() && (view.buffered ==> forall k :: view.Own(k) == old(view.Own(k)))
      ensures status != Success ==> manager.marks == old(manager.marks)
    {
      hide SoundBase, Direct, LookUp, Shows, Apply;
      ghost var acts := OpActions(db.base, source, opId, view.newAccounts, op);
      ShowsValid(view, d);
      if |acts| == 1 {
        DirectOne(view.buffered, d, acts[0]);
        ApplyReject(view.buffered, d, acts[0]);
      } else {
        assert acts == [acts[0], acts[1]];
        DirectTwo(view.buffered, d, acts[0], acts[1]);
      }
      var found := LookUp(db.base, op.sell, op.buy);
      if found.Lost? { return Threw(found.fault); }
      var o := OfferId(found.market, op.price, source, op.offerId);
      var amount := MarkOffer(view, o, d);
      if amount.None? { return CancelOfferTargetNexist; }
      ghost var d1 := Apply(view.buffered, d, acts[0]).ledger;
      ShowsValid(view, d1);
      // A release from escrow always succeeds, so the mark is never taken back here.
      status := Deposit(view, Cell(source, op.sell), amount.value, true, d1);
      ShowsValid(view, Apply(view.buffered, d1, acts[1]).ledger);
    }

    method ProcessPayment(view: DatabaseView, source: nat, opId: nat, op: Operation, ghost d: Ledger)
      returns (status: Status)
      requires Shows(view, d) && source in db.base.accounts && op.Payment?
      modifies view`buffer, view`side, view`local, db`available
      ensures var e := Direct(view.buffered, d, OpActions(db.base, source, opId, view.newAccounts, op));
        status == StatusOf(e) && (e.Done? ==> Shows(view, e.ledger))
      ensures view.Valid() && (view.buffered ==> forall k :: view.Own(k) == old(view.Own(k)))
    {
      hide SoundBase, Direct, Shows, Apply;
      ghost var acts := OpActions(db.base, source, opId, view.newAccounts, op);
      ShowsValid(view, d);
      if |acts| == 1 {
        DirectOne(view.buffered, d, acts[0]);
        ApplyReject(view.buffered, d, acts[0]);
      }
      if !ValidAmount(op.amount) { return InvalidAmount; }
      if !view.LookupUser(op.receiver) { return RecipientAccountNexist; }
      assert acts == [acts[0], acts[1]];
      DirectTwo(view.buffered, d, acts[0], acts[1]);
      status := Withdraw(view, Cell(source, op.asset), op.amount, false, d);
      if status != Success { return; }
      ghost var d1 := Apply(view.buffered, d, acts[0]).ledger;
      status := Deposit(view, Cell(op.receiver, op.asset), op.amount, false, d1);
      ShowsValid(view, Apply(view.buffered, d1, acts[1]).ledger);
    }

    method ProcessMoneyPrinter(view: DatabaseView, source: nat, opId: nat, op: Operation, ghost d: Ledger)
      returns (status: Status)
      requires Shows(view, d) && source in db.base.accounts && op.MoneyPrinter?
      modifies view`buffer, view`side, view`local, db`available
      ensures var e := Direct(view.buffered, d, OpActions(db.base, source, opId, view.newAccounts, op));
        status == StatusOf(e) && (e.Done? ==> Shows(view, e.ledger))
      ensures view.Valid() && (view.buffered ==> forall k :: view.Own(k) == old(view.Own(k)))
    {
      hide SoundBase, Direct;
      DirectOne(view.buffered, d, OpActions(db.base, source, opId, view.newAccounts, op)[0]);
      if op.amount < 0 { return InvalidPrintMoneyAmount; }
      status := Deposit(view, Cell(source, op.asset), op.amount, false, d);
    }

    // ---- one transaction ----

    method ProcessOperation(view: DatabaseView, tx: Transaction, i: nat, ghost d: Ledger, ghost ids0: set<Resource>)
      returns (status: Status)
      requires Shows(view, d) && tx.source in db.base.accounts && i < |tx.ops|
      requires IdsFrom(ids0, db.ids, view.newAccounts) && view.newAccounts == CreatedBy(tx.ops[..i])
      requires forall o :: o in d.rests ==> o.owner != tx.source || o.id != tx.seqNo + i
      modifies view`buffer, view`side, view`local, view`newAccounts, db`available, db`ids, manager
      ensures var e := Direct(view.buffered, d,
        OpActions(db.base, tx.source, tx.seqNo + i, CreatedBy(tx.ops[..i]), tx.ops[i]));
        status == StatusOf(e) && (status == Success <==> e.Done?) && (e.Done? ==> Shows(view, e.ledger))
      ensures status == Success ==> view.newAccounts == CreatedBy(tx.ops[..i + 1])
      ensures view.Valid() && (view.buffered ==> forall k :: view.Own(k) == old(view.Own(k)))
      ensures IdsFrom(ids0, db.ids, view.newAccounts)
      ensures status != Success && manager.producing ==>
        manager.newOffers == old(manager.newOffers) && manager.marks == old(manager.marks)
    {
      hide SoundBase, Direct, Shows, IdsFrom, OpActions;
      var op, opId := tx.ops[i], tx.seqNo + i;
      ShowsValid(view, d);
      CreatedNext(tx.ops, i);
      OpStatus(db.base, view.buffered, d, tx.source, opId, CreatedBy(tx.ops[..i]), op);
      match op
      case CreateAccount(_, _) => status := ProcessCreateAccount(view, tx.source, opId, op, d, ids0);
      case CreateOffer(_, _, _, _) => status := ProcessCreateOffer(view, tx.source, opId, op, d);
      case CancelOffer(_, _, _, _) => status := ProcessCancelOffer(view, tx.source, opId, op, d);
      case Payment(_, _, _) => status := ProcessPayment(view, tx.source, opId, op, d);
      case MoneyPrinter(_, _) => status := ProcessMoneyPrinter(view, tx.source, opId, op, d);
      case Unknown => status := InvalidOperationType;
    }

    /** Undo the offers and cancellations of a transaction's first n operations, the last
        one first. */
    method UnwindTransaction(tx: Transaction, n: nat, ghost l0: Ledger)
      requires SoundBase(db.base) && WellFormed(tx) && n <= |tx.ops| && manager.producing
      requires db.base == manager.base && tx.seqNo % MAX_OPS == 0 && Traced(l0)
      requires After(db.base, true, l0, tx, n).Done? && Placed(After(db.base, true, l0, tx, n).ledger)
      modifies manager
      ensures Placed(l0)
    {
      hide SoundBase, After, Index, LookUp, Traced;
      var i: nat := n;
      while i > 0
        invariant i <= n && After(db.base, true, l0, tx, i).Done? && Placed(After(db.base, true, l0, tx, i).ledger)
      {
        i := i - 1;
        StepBack(db.base, l0, tx, i);
        var op := tx.ops[i];
        if op.CreateOffer? {
          manager.UnwindAddOffer(OfferId(Index(db.base.assets, op.sell, op.buy), op.price, tx.source, tx.seqNo + i));
        } else if op.CancelOffer? {
          manager.UndeleteOffer(OfferId(LookUp(db.base, op.sell, op.buy).market, op.price, tx.source, op.offerId));
        }
      }
      BackAtStart(db.base, l0, tx);
    }

    /** The local offers and the marks are those of a ledger. */
    ghost predicate Placed(d: Ledger)
      reads this, manager
    {
      manager.newOffers == d.rests && forall r :: r in manager.marks <==> r in d.taken && r.Mark?
    }

    /** What unwinding a view needs to come back to a ledger. */
    ghost predicate Undoable(view: DatabaseView, l0: Ledger)
      reads this, db, view
    {
      && view.db == db && view.Valid() && view.buffered
      && (forall k :: view.Own(k) == At(l0.avail, k))
      && view.reservations !! SeqsOf(l0) && db.seqs == SeqsOf(l0) + view.reservations
      && IdsFrom(IdsOf(l0), db.ids, view.newAccounts)
    }

    /** Process the operations in order until one fails. */
    method ProcessOperations(view: DatabaseView, tx: Transaction, ghost l0: Ledger) returns (status: Status, done: nat)
      requires SoundBase(db.base) && WellFormed(tx) && tx.source in db.base.accounts
      requires tx.seqNo % MAX_OPS == 0 && Traced(l0) && manager.producing && view.newAccounts == {}
      requires Undoable(view, l0)
      requires After(db.base, true, l0, tx, 0).Done? && Shows(view, After(db.base, true, l0, tx, 0).ledger)
      modifies view`buffer, view`side, view`local, view`newAccounts, db`available, db`ids, manager
      ensures Undoable(view, l0)
      ensures status == StatusOf(After(db.base, true, l0, tx, |tx.ops|))
      ensures status == Success <==> After(db.base, true, l0, tx, |tx.ops|).Done?
      ensures status == Success ==> Shows(view, After(db.base, true, l0, tx, |tx.ops|).ledger)
      ensures status != Success ==>
        && done <= |tx.ops| && After(db.base, true, l0, tx, done).Done?
        && Placed(After(db.base, true, l0, tx, done).ledger)
    {
      hide SoundBase, After, Shows, Traced, OpActions, Direct;
      done := 0;
      ShowsValid(view, After(db.base, true, l0, tx, 0).ledger);
      CreatedByNone(tx.ops);
      while done < |tx.ops|
        invariant done <= |tx.ops| && After(db.base, true, l0, tx, done).Done?
        invariant Shows(view, After(db.base, true, l0, tx, done).ledger)
        invariant Undoable(view, l0) && view.newAccounts == CreatedBy(tx.ops[..done])
      {
        ghost var d := After(db.base, true, l0, tx, done).ledger;
        FreshIds(db.base, true, l0, tx, done);
        AfterNext(db.base, true, l0, tx, done + 1);
        ShowsPlaced(view, d);
        status := ProcessOperation(view, tx, done, d, IdsOf(l0));
        if status != Success {
          AfterFails(db.base, true, l0, tx, done + 1, |tx.ops|);
          return;
        }
        done := done + 1;
      }
      status := Success;
    }

    /** Reserve the sequence number and charge the fee. */
    method OpenTransaction(view: DatabaseView, tx: Transaction, ghost l0: Ledger) returns (status: Status)
      requires Shows(view, l0) && tx.source in db.base.accounts
      requires view.reservations == {} && view.newAccounts == {}
      modifies view, db`available, db`seqs
      ensures view.newAccounts == {}
      ensures var w, d := SeqWindow(db.base.lastSeq[tx.source], tx.seqNo), After(db.base, view.buffered, l0, tx, 0);
        && status == (if w != Success then w else StatusOf(d))
        && (status == Success <==> w == Success && d.Done?)
        && (status == Success ==> Shows(view, d.ledger))
      ensures old(view.buffered && Undoable(view, l0)) ==> Undoable(view, l0)
    {
      hide SoundBase, After, Apply, IdsFrom;
      ghost var acts := Opening(tx);
      AfterOpening(db.base, view.buffered, l0, tx);
      ApplyTake(view.buffered, l0, SeqNo(tx.source, tx.seqNo));
      KindsOf(view, l0);
      status := view.ReserveSequenceNumber(tx.source, tx.seqNo);
      if status != Success { return; }
      ghost var d := Apply(view.buffered, l0, acts[0]).ledger;
      assert db.seqs + db.ids + manager.marks == d.taken;
      status := Withdraw(view, Cell(tx.source, NATIVE), FeeRequired(|tx.ops|), false, d);
    }

    lemma KindsOf(view: DatabaseView, d: Ledger)
      requires Shows(view, d)
      ensures db.seqs == SeqsOf(d) && db.ids == IdsOf(d) && Placed(d)
    {
    }

    /** Unwinding the view, once the offers and marks are back, is coming back. */
    method UnwindView(view: DatabaseView, ghost l0: Ledger)
      requires Undoable(view, l0) && Placed(l0) && db.base == manager.base
      requires forall c :: At(l0.avail, c) >= 0
      modifies db`available, db`seqs, db`ids
      ensures Valid() && db.Solvent() && Same(Contents(), l0)
    {
      hide SoundBase;
      view.Unwind();
      assert db.seqs == SeqsOf(l0);
      assert db.ids == IdsOf(l0);
      forall r ensures r in Contents().taken <==> r in l0.taken {
        assert r.SeqNo? || r.NewAccount? || r.Mark?;
      }
      forall c ensures At(db.available, c) == At(l0.avail, c) >= 0 { assert old(view.Own(c)) == At(l0.avail, c); }
      forall c | c in db.available ensures db.available[c] >= 0 { assert At(db.available, c) >= 0; }
    }

    /** Process one transaction in block production: all that it does directly, or nothing.
        A failure at any point leaves every balance, reservation, cancellation and new offer
        as it was. At a fault the process ends, so nothing is said of its state. */
    method ProcessTransaction(tx: Transaction) returns (status: Status)
      requires Valid() && manager.producing && db.Solvent() && Traced(Contents()) && WellFormed(tx)
      modifies db, manager
      ensures var d := Direct(true, old(Contents()), TxActions(db.base, tx));
        && status == StatusOf(d) && (status == Success <==> d.Done?)
        && (!status.Threw? ==>
              Valid() && db.Solvent() && Same(Contents(), if d.Done? then d.ledger else old(Contents())))
      ensures status == Success ==> Effects.Moved(db.base, old(Contents()), Contents(), tx)
    {
      hide SoundBase, After, Direct, Traced, Shows, Undoable, Placed, IdsFrom, SeqWindow, TxActions, Effects.Moved;
      ghost var l0 := Contents();
      Outcomes(db.base, true, l0, tx);
      if tx.seqNo % MAX_OPS != 0 { return InvalidTxFormat; }
      if FeeRequired(|tx.ops|) > tx.maxFee { return FeeBidTooLow; }
      if tx.source !in db.base.accounts { return SourceAccountNexist; }
      if !tx.goodSignature { return BadSignature; }
      var view := new DatabaseView(db, true);
      StartView(view);
      status := OpenTransaction(view, tx, l0);
      if status != Success {
        UnwindView(view, l0);
        return;
      }
      var done;
      status, done := ProcessOperations(view, tx, l0);
      if status.Threw? { return; }
      if status != Success {
        UnwindTransaction(tx, done, l0);
        UnwindView(view, l0);
        return;
      }
      CommitView(view, After(db.base, true, l0, tx, |tx.ops|).ledger);
      MovedSame(db.base, true, l0, Contents(), tx);
    }

    /** A new view shows the ledger as it is. */
    lemma StartView(view: DatabaseView)
      requires Valid() && view.db == db && view.Valid() && view.buffered == manager.producing
      requires view.newAccounts == {} && view.reservations == {}
      requires forall c :: view.Total(c) == view.Own(c) == At(db.available, c)
      ensures Shows(view, Contents()) && (view.buffered ==> Undoable(view, Contents())) && Placed(Contents())
    {
      assert db.seqs == SeqsOf(Contents());
      assert db.ids == IdsOf(Contents());
    }

    method CommitView(view: DatabaseView, ghost d: Ledger)
      requires Shows(view, d)
      modifies db`available, db`uncommitted
      ensures Valid() && (view.buffered ==> db.Solvent()) && Same(Contents(), d)
    {
      hide SoundBase;
      view.Commit();
      forall c ensures At(db.available, c) == At(d.avail, c) { assert old(view.Total(c)) == At(d.avail, c); }
    }

    /** A run of transactions in block production, up to the first fault. */
    method ProcessTransactions(txs: seq<Transaction>) returns (fault: Option<Fault>)
      requires Valid() && manager.producing && db.Solvent() && Traced(Contents())
      requires forall i :: 0 <= i < |txs| ==> WellFormed(txs[i])
      modifies db, manager
      ensures var d := Block(db.base, true, old(Contents()), txs);
        && (fault.Some? <==> Thrown(d)) && (fault.Some? ==> d == Failed(Threw(fault.value)))
        && (fault.None? ==> Valid() && db.Solvent() && d.Done? && Same(Contents(), d.ledger))
    {
      hide SoundBase, Direct, WellFormed, Traced, TxActions, Same;
      var i := 0;
      SameSelf(Contents());
      assert txs[0..] == txs;
      ghost var l := Contents();
      while i < |txs|
        invariant 0 <= i <= |txs| && Valid() && db.Solvent() && Traced(l) && Same(Contents(), l)
        invariant Block(db.base, true, old(Contents()), txs) == Block(db.base, true, l, txs[i..])
      {
        assert txs[i..][0] == txs[i] && txs[i..][1..] == txs[i + 1..];
        ghost var now := Contents();
        TracedSame(now, l);
        DirectSame(true, now, l, TxActions(db.base, txs[i]));
        TxSupply(db.base, true, l, txs[i], 0);
        var status := ProcessTransaction(txs[i]);
        ghost var d, e := Direct(true, now, TxActions(db.base, txs[i])), Direct(true, l, TxActions(db.base, txs[i]));
        if status.Threw? { return Some(status.fault); }
        SameChain(Contents(), if d.Done? then d.ledger else now, if e.Done? then e.ledger else l);
        l := if e.Done? then e.ledger else l;
        i := i + 1;
      }
      fault := None;
    }

    /** Apply the operations in order until one is refused. */
    method ValidateOperations(view: DatabaseView, tx: Transaction, ghost l0: Ledger) returns (status: Status)
      requires SoundBase(db.base) && WellFormed(tx) && tx.source in db.base.accounts
      requires tx.seqNo % MAX_OPS == 0 && Traced(l0) && !view.buffered && view.newAccounts == {}
      requires After(db.base, false, l0, tx, 0).Done? && Shows(view, After(db.base, false, l0, tx, 0).ledger)
      modifies view`buffer, view`side, view`local, view`newAccounts, db`available, db`ids, manager
      ensures status == StatusOf(After(db.base, false, l0, tx, |tx.ops|))
      ensures status == Success <==> After(db.base, false, l0, tx, |tx.ops|).Done?
      ensures status == Success ==> Shows(view, After(db.base, false, l0, tx, |tx.ops|).ledger)
    {
      hide SoundBase, After, Shows, Traced, OpActions, Direct, IdsFrom;
      var i := 0;
      ghost var ids0 := db.ids;
      ShowsValid(view, After(db.base, false, l0, tx, 0).ledger);
      CreatedByNone(tx.ops);
      IdsFromNone(ids0);
      while i < |tx.ops|
        invariant i <= |tx.ops| && After(db.base, false, l0, tx, i).Done?
        invariant Shows(view, After(db.base, false, l0, tx, i).ledger)
        invariant IdsFrom(ids0, db.ids, view.newAccounts) && view.newAccounts == CreatedBy(tx.ops[..i])
      {
        ghost var d := After(db.base, false, l0, tx, i).ledger;
        FreshIds(db.base, false, l0, tx, i);
        AfterNext(db.base, false, l0, tx, i + 1);
        status := ProcessOperation(view, tx, i, d, ids0);
        if status != Success {
          AfterFails(db.base, false, l0, tx, i + 1, |tx.ops|);
          return;
        }
        i := i + 1;
      }
      status := Success;
    }

    /** Validate one transaction: apply it without checking balances. Neither a refusal nor a
        fault undoes anything, for then the block is refused. */
    method ValidateTransaction(tx: Transaction) returns (ok: bool, fault: Option<Fault>)
      requires Valid() && !manager.producing && Traced(Contents()) && WellFormed(tx)
      modifies db, manager
      ensures var d := Direct(false, old(Contents()), TxActions(db.base, tx));
        && (ok <==> d.Done?) && (ok ==> Valid() && Same(Contents(), d.ledger))
        && (fault.Some? <==> Thrown(d)) && (fault.Some? ==> d == Failed(Threw(fault.value)))
      ensures ok ==> Effects.Moved(db.base, old(Contents()), Contents(), tx)
    {
      hide SoundBase, After, Direct, Traced, Shows, Undoable, Placed, SeqWindow, TxActions, Effects.Moved;
      ghost var l0 := Contents();
      Outcomes(db.base, false, l0, tx);
      fault := None;
      if tx.seqNo % MAX_OPS != 0 || tx.source !in db.base.accounts { return false, fault; }
      if FeeRequired(|tx.ops|) > tx.maxFee || !tx.goodSignature { return false, fault; }
      var view := new DatabaseView(db, false);
      StartView(view);
      var status := OpenTransaction(view, tx, l0);
      if status != Success {
        OpeningThrowless(db.base, false, l0, tx);
        return false, fault;
      }
      status := ValidateOperations(view, tx, l0);
      ok := status == Success;
      if status.Threw? { fault := Some(status.fault); }
      if ok {
        CommitView(view, After(db.base, false, l0, tx, |tx.ops|).ledger);
        MovedSame(db.base, false, l0, Contents(), tx);
      }
    }

    lemma ShowsPlaced(view: DatabaseView, d: Ledger)
      requires Shows(view, d)
      ensures Placed(d)
    {
    }
  }

  // ---- facts about a transaction's steps ----

  /** The outcome of a transaction in terms of its admission and its operations. */
  lemma Outcomes(b: Base, checked: bool, l0: Ledger, tx: Transaction)
    requires SoundBase(b)
    ensures var d := Direct(checked, l0, TxActions(b, tx));
      && (Admission(b, tx) != Success ==> d == Failed(Admission(b, tx)))
      && (Admission(b, tx) == Success ==>
            d == After(b, checked, l0, tx, |tx.ops|)
            && (After(b, checked, l0, tx, 0).Failed? ==> d == After(b, checked, l0, tx, 0)))
  {
    hide OpActions;
    if Admission(b, tx) != Success {
      DirectOne(checked, l0, Reject(Admission(b, tx)));
    } else if After(b, checked, l0, tx, 0).Failed? {
      AfterFails(b, checked, l0, tx, 0, |tx.ops|);
    }
  }

  lemma OpeningThrowless(b: Base, checked: bool, l0: Ledger, tx: Transaction)
    requires SoundBase(b)
    ensures !Thrown(After(b, checked, l0, tx, 0)) && !Admission(b, tx).Threw?
  {
    AfterOpening(b, checked, l0, tx);
  }

  lemma SameSelf(l: Ledger)
    ensures Same(l, l)
  {
  }

  lemma SameChain(x: Ledger, y: Ledger, z: Ledger)
    requires Same(x, y) && Same(y, z)
    ensures Same(x, z)
  {
    forall c ensures At(x.avail, c) == At(z.avail, c) {
      assert At(x.avail, c) == At(y.avail, c) == At(z.avail, c);
    }
  }

  lemma TracedSame(x: Ledger, y: Ledger)
    requires Same(x, y) && Traced(y)
    ensures Traced(x)
  {
  }

  lemma IdsFromNone(ids: set<Resource>)
    ensures IdsFrom(ids, ids, {})
  {
  }

  lemma CreatedByNone(ops: seq<Operation>)
    ensures CreatedBy(ops[..0]) == {}
  {
  }

  lemma CreatedNext(ops: seq<Operation>, i: nat)
    requires i < |ops|
    ensures CreatedBy(ops[..i + 1]) == CreatedBy(ops[..i]) + (if ops[i].CreateAccount? then {ops[i].id} else {})
  {
    assert ops[..i + 1] == ops[..i] + [ops[i]];
  }

  lemma {:induction false} FailedStatus(checked: bool, l: Ledger, acts: seq<Action>)
    requires forall i :: 0 <= i < |acts| && acts[i].Reject? ==> acts[i].status != Success
    ensures StatusOf(Direct(checked, l, acts)) == Success <==> Direct(checked, l, acts).Done?
  {
    if acts != [] {
      var init := acts[..|acts| - 1];
      assert forall i :: 0 <= i < |init| ==> init[i] == acts[i];
      FailedStatus(checked, l, init);
    }
  }

  lemma OpStatus(b: Base, checked: bool, l: Ledger, source: nat, opId: nat, created: set<nat>, op: Operation)
    ensures var e := Direct(checked, l, OpActions(b, source, opId, created, op));
      && (StatusOf(e) == Success <==> e.Done?)
      && (op.Unknown? ==> e == Failed(InvalidOperationType))
  {
    FailedStatus(checked, l, OpActions(b, source, opId, created, op));
    if op.Unknown? { DirectOne(checked, l, Reject(InvalidOperationType)); }
  }

  /** An operation's offer id is not in use. */
  lemma FreshIds(b: Base, checked: bool, l0: Ledger, tx: Transaction, i: nat)
    requires SoundBase(b) && WellFormed(tx) && i < |tx.ops| && tx.seqNo % MAX_OPS == 0 && Traced(l0)
    requires After(b, checked, l0, tx, i).Done?
    ensures forall o :: o in After(b, checked, l0, tx, i).ledger.rests ==> o.owner != tx.source || o.id != tx.seqNo + i
  {
    hide After, SoundBase, Supply;
    AfterSupply(b, checked, l0, tx, i, 0);
    var d := After(b, checked, l0, tx, i).ledger;
    forall o | o in d.rests ensures o.owner != tx.source || o.id != tx.seqNo + i {
      if o in l0.rests && o.owner == tx.source && o.id == tx.seqNo + i { AlignedId(o.id, tx.seqNo); }
    }
  }

  /** How the offers and marks differ before and after one operation. */
  lemma StepBack(b: Base, l0: Ledger, tx: Transaction, i: nat)
    requires SoundBase(b) && WellFormed(tx) && i < |tx.ops| && tx.seqNo % MAX_OPS == 0 && Traced(l0)
    requires After(b, true, l0, tx, i + 1).Done?
    ensures After(b, true, l0, tx, i).Done?
    ensures tx.ops[i].CreateOffer? ==> ValidCategory(b.assets, tx.ops[i].sell, tx.ops[i].buy)
    ensures tx.ops[i].CancelOffer? ==> LookUp(b, tx.ops[i].sell, tx.ops[i].buy).Found?
    ensures var d, e, op := After(b, true, l0, tx, i).ledger, After(b, true, l0, tx, i + 1).ledger, tx.ops[i];
      && d.rests == (if op.CreateOffer? then
           e.rests - {OfferId(Index(b.assets, op.sell, op.buy), op.price, tx.source, tx.seqNo + i)} else e.rests)
      && forall r: Resource :: r.Mark? ==>
           (r in d.taken <==> (r in e.taken && !(op.CancelOffer?
             && r.offer == OfferId(LookUp(b, op.sell, op.buy).market, op.price, tx.source, op.offerId))))
  {
    hide After, SoundBase, Index, LookUp, Traced, Direct;
    AfterNext(b, true, l0, tx, i + 1);
    FreshIds(b, true, l0, tx, i);
    var d, e, op := After(b, true, l0, tx, i).ledger, After(b, true, l0, tx, i + 1).ledger, tx.ops[i];
    var acts := OpActions(b, tx.source, tx.seqNo + i, CreatedBy(tx.ops[..i]), op);
    if |acts| == 1 {
      assert acts == [acts[0]];
      DirectOne(true, d, acts[0]);
    } else if |acts| == 2 {
      assert acts == [acts[0], acts[1]];
      DirectTwo(true, d, acts[0], acts[1]);
      if op.CreateOffer? { assert d.rests == d.rests[acts[0].offer := acts[0].size] - {acts[0].offer}; }
    } else {
      assert acts == [acts[0], acts[1], acts[2]];
      DirectThree(true, d, acts[0], acts[1], acts[2]);
    }
  }

  /** Opening a transaction touches no offer. */
  lemma BackAtStart(b: Base, l0: Ledger, tx: Transaction)
    requires After(b, true, l0, tx, 0).Done?
    ensures var d := After(b, true, l0, tx, 0).ledger;
      d.rests == l0.rests && forall r: Resource :: r.Mark? ==> (r in d.taken <==> r in l0.taken)
  {
    hide After;
    AfterOpening(b, true, l0, tx);
  }
}
