/** The memory database's shared balances and reservations, and the view of it through which
    one transaction works: buffered in block production, direct in validation. */
module DatabaseViews {
  import opened Ledger

  // ---- one balance, against other threads ----

  function SumSeq(s: seq<int>): int {
    if s == [] then 0 else SumSeq(s[..|s| - 1]) + s[|s| - 1]
  }

  class RevertableAsset {
    var available: int
    var committedAvailable: int

    constructor (amount: int)
      ensures available == amount && committedAvailable == amount
    {
      available, committedAvailable := amount, amount;
    }

    /** The compare-and-swap loop. Entry i of others is what other threads add between the
        load and the swap of attempt i; a swap that finds a changed value is retried. The
        outcome is that of one indivisible withdrawal after the first k of those changes. */
    method ConditionalTransferAvailable(amount: int, others: seq<int>) returns (ok: bool, ghost k: nat)
      modifies this`available
      ensures k <= |others|
      ensures ok <==> amount > 0 || old(available) + SumSeq(others[..k]) + amount >= 0
      ensures available == old(available) + SumSeq(others[..k]) + (if ok then amount else 0)
    {
      k := 0;
      if amount > 0 {
        available := available + amount;
        return true, 0;
      }
      var i := 0;
      while true
        invariant i <= |others| && k == i && available == old(available) + SumSeq(others[..i])
        decreases |others| - i
      {
        var current := available;
        var tentative := current + amount;
        if tentative < 0 { return false, i; }
        if i == |others| {
          available := tentative;
          return true, i;
        }
        assert others[..i + 1][..i] == others[..i];
        available := available + others[i];
        i, k := i + 1, k + 1;
        if available == current {
          available := tentative;
          return true, i;
        }
      }
    }

    method Commit() returns (amount: int)
      modifies this
      ensures available == old(available) == committedAvailable == amount
    {
      committedAvailable := available;
      amount := committedAvailable;
    }

    method Rollback()
      modifies this
      ensures available == committedAvailable == old(committedAvailable)
    {
      available := committedAvailable;
    }
  }

  // ---- the database ----

  class MemoryDatabase {
    const base: Base
    /** Balances of committed accounts and of accounts created in this block. */
    var available: map<Cell, int>
    var seqs: set<Resource>
    var ids: set<Resource>
    /** Accounts created in this block and not yet visible to lookups. */
    var uncommitted: set<nat>

    ghost predicate Valid()
      reads this
    {
      && SoundBase(base)
      && (forall c :: c in available ==> c.account in base.accounts || c.account in uncommitted)
      && (forall u :: u in uncommitted ==> NewAccount(u) in ids && u !in base.accounts)
      && (forall r :: r in seqs ==> r.SeqNo?) && (forall r :: r in ids ==> r.NewAccount?)
    }

    /** No balance is below zero. */
    ghost predicate Solvent()
      reads this
    {
      forall c :: c in available ==> available[c] >= 0
    }

    constructor (base: Base, available: map<Cell, int>)
      requires SoundBase(base) && forall c :: c in available ==> c.account in base.accounts
      ensures Valid() && this.base == base && this.available == available && seqs == {} && ids == {}
    {
      this.base, this.available := base, available;
      seqs, ids, uncommitted := {}, {}, {};
    }

    method ConditionalTransferAvailable(c: Cell, amount: int) returns (ok: bool)
      requires Valid() && c.account in base.accounts
      modifies this`available
      ensures Valid()
      ensures ok <==> amount > 0 || At(old(available), c) + amount >= 0
      ensures available == if ok then old(available)[c := At(old(available), c) + amount] else old(available)
    {
      ok := amount > 0 || At(available, c) + amount >= 0;
      if ok { available := available[c := At(available, c) + amount]; }
    }

    method TransferAvailable(c: Cell, amount: int)
      requires Valid() && c.account in base.accounts
      modifies this`available
      ensures Valid()
      ensures available == old(available)[c := At(old(available), c) + amount]
    {
      available := available[c := At(available, c) + amount];
    }

    method ReserveAccountCreation(id: nat) returns (status: Status)
      requires Valid()
      modifies this`ids
      ensures Valid()
      ensures status == if id in base.accounts then NewAccountAlreadyExists
                        else if NewAccount(id) in old(ids) then NewAccountTempReserved else Success
      ensures ids == if status == Success then old(ids) + {NewAccount(id)} else old(ids)
    {
      if id in base.accounts { return NewAccountAlreadyExists; }
      if NewAccount(id) in ids { return NewAccountTempReserved; }
      ids := ids + {NewAccount(id)};
      status := Success;
    }

    method ReleaseAccountCreation(id: nat)
      requires Valid() && id !in uncommitted
      modifies this`ids
      ensures Valid() && ids == old(ids) - {NewAccount(id)}
    {
      ids := ids - {NewAccount(id)};
    }

    /** Keep a created account, with the balances it has. */
    method CommitAccountCreation(id: nat, local: map<Cell, int>)
      requires Valid() && NewAccount(id) in ids && id !in base.accounts && id !in uncommitted
      modifies this`available, this`uncommitted
      ensures old(Solvent()) && (forall c :: c in local ==> local[c] >= 0) ==> Solvent()
      ensures Valid() && uncommitted == old(uncommitted) + {id}
      ensures forall c ::
        At(available, c) == if c.account == id && c in local then local[c] else At(old(available), c)
    {
      available := available + (map c | c in local && c.account == id :: local[c]);
      uncommitted := uncommitted + {id};
    }

    method ReserveSequenceNumber(account: nat, seqNo: nat) returns (status: Status)
      requires Valid() && account in base.accounts
      modifies this`seqs
      ensures Valid()
      ensures var w := SeqWindow(base.lastSeq[account], seqNo);
        status == if w != Success then w else if SeqNo(account, seqNo) in old(seqs) then SeqNumTempInUse else Success
      ensures seqs == if status == Success then old(seqs) + {SeqNo(account, seqNo)} else old(seqs)
    {
      status := SeqWindow(base.lastSeq[account], seqNo);
      if status != Success { return; }
      if SeqNo(account, seqNo) in seqs { return SeqNumTempInUse; }
      seqs := seqs + {SeqNo(account, seqNo)};
    }

    method ReleaseSequenceNumber(r: Resource)
      requires Valid()
      modifies this`seqs
      ensures Valid() && seqs == old(seqs) - {r}
    {
      seqs := seqs - {r};
    }
  }

  // ---- the view ----

  class DatabaseView {
    const db: MemoryDatabase
    const buffered: bool
    /** Credits to give on commit, and withdrawals made so far. */
    var buffer: map<Cell, int>
    var side: map<Cell, int>
    /** Accounts created here, and their own balances. */
    var newAccounts: set<nat>
    var local: map<Cell, int>
    var reservations: set<Resource>

    ghost predicate Valid()
      reads this, db
    {
      && db.Valid()
      && (buffered ==> db.Solvent())
      && (forall c :: c in buffer ==> buffer[c] >= 0 && c.account in db.base.accounts)
      && (forall c :: c in side ==> c.account in db.base.accounts)
      && (!buffered ==> buffer == map[] && side == map[])
      && (forall c :: c in local ==> c.account in newAccounts && (buffered ==> local[c] >= 0))
      && (forall u :: u in newAccounts ==> u !in db.base.accounts && u !in db.uncommitted && NewAccount(u) in db.ids)
    }

    /** The balance that the transaction sees. */
    ghost function Total(c: Cell): int
      reads this, db
    {
      At(db.available, c) + (if c.account in newAccounts then At(local, c) else At(buffer, c))
    }

    /** The balance before the transaction's own withdrawals. */
    ghost function Own(c: Cell): int
      reads this, db
    {
      At(db.available, c) - At(side, c)
    }

    ghost predicate Reaches(account: nat)
      reads this
    {
      account in db.base.accounts || account in newAccounts
    }

    constructor (db: MemoryDatabase, buffered: bool)
      requires db.Valid() && (buffered ==> db.Solvent())
      ensures Valid() && this.db == db && this.buffered == buffered && newAccounts == {} && reservations == {}
      ensures forall c :: Total(c) == Own(c) == At(db.available, c)
    {
      this.db, this.buffered := db, buffered;
      buffer, side, local := map[], map[], map[];
      newAccounts, reservations := {}, {};
    }

    /** An account created here: its own balance changes directly. */
    method ChangeLocal(c: Cell, amount: int) returns (ok: bool)
      requires Valid() && c.account in newAccounts
      modifies this`local
      ensures Valid()
      ensures ok <==> !buffered || amount > 0 || old(Total(c)) + amount >= 0
      ensures forall k :: Total(k) == old(Total(k)) + (if k == c && ok then amount else 0)
      ensures forall k :: Own(k) == old(Own(k))
    {
      hide SoundBase;
      assert c !in db.available;
      if buffered && amount <= 0 && At(local, c) + amount < 0 { return false; }
      local := local[c := At(local, c) + amount];
      ok := true;
    }

    /** An existing account: a credit is buffered, and a withdrawal uses the buffer first. */
    method ChangeBuffered(c: Cell, amount: int) returns (ok: bool)
      requires Valid() && buffered && c.account in db.base.accounts
      modifies this`buffer, this`side, db`available
      ensures Valid()
      ensures ok <==> amount >= 0 || old(Total(c)) + amount >= 0
      ensures forall k :: Total(k) == old(Total(k)) + (if k == c && ok then amount else 0)
      ensures forall k :: Own(k) == old(Own(k))
    {
      hide SoundBase;
      var newBuffer := At(buffer, c) + amount;
      if newBuffer < 0 {
        ok := db.ConditionalTransferAvailable(c, newBuffer);
        if !ok { return; }
        side := side[c := At(side, c) + newBuffer];
        newBuffer := 0;
      }
      buffer := buffer[c := newBuffer];
      ok := true;
    }

    /** Move an amount into an account (out of it when negative). */
    method TransferAvailable(c: Cell, amount: int) returns (status: Status)
      requires Valid() && Reaches(c.account)
      modifies this`buffer, this`side, this`local, db`available
      ensures Valid()
      ensures status == if buffered && amount < 0 && old(Total(c)) + amount < 0 then InsufficientBalance else Success
      ensures forall k :: Total(k) == old(Total(k)) + (if k == c && status == Success then amount else 0)
      ensures buffered ==> forall k :: Own(k) == old(Own(k))
    {
      hide SoundBase;
      var ok := true;
      if c.account in newAccounts {
        if buffered { LocalNonnegative(c); }
        ok := ChangeLocal(c, amount);
      } else if buffered {
        ok := ChangeBuffered(c, amount);
      } else {
        db.TransferAvailable(c, amount);
      }
      status := if ok then Success else InsufficientBalance;
    }

    lemma LocalNonnegative(c: Cell)
      requires Valid() && buffered && c.account in newAccounts
      ensures Total(c) >= 0
    {
      assert c !in db.available;
    }

    /** Lock up an amount of an account's money (release it when negative). */
    method Escrow(c: Cell, amount: int) returns (status: Status)
      requires Valid() && Reaches(c.account)
      modifies this`buffer, this`side, this`local, db`available
      ensures Valid()
      ensures status == if buffered && amount > 0 && old(Total(c)) - amount < 0 then InsufficientBalance else Success
      ensures forall k :: Total(k) == old(Total(k)) - (if k == c && status == Success then amount else 0)
      ensures buffered ==> forall k :: Own(k) == old(Own(k))
    {
      hide SoundBase;
      var ok := true;
      if c.account in newAccounts {
        if buffered { LocalNonnegative(c); }
        ok := ChangeLocal(c, -amount);
      } else if buffered {
        ok := ChangeBuffered(c, -amount);
      } else {
        db.TransferAvailable(c, -amount);
      }
      status := if ok then Success else InsufficientBalance;
    }

    predicate LookupUser(account: nat)
      reads this
    {
      account in db.base.accounts || account in newAccounts
    }

    method CreateNewAccount(id: nat) returns (status: Status)
      requires Valid()
      modifies this`newAccounts, db`ids
      ensures Valid()
      ensures status == if id in db.base.accounts then NewAccountAlreadyExists
                        else if NewAccount(id) in old(db.ids) then NewAccountTempReserved else Success
      ensures db.ids == if status == Success then old(db.ids) + {NewAccount(id)} else old(db.ids)
      ensures newAccounts == if status == Success then old(newAccounts) + {id} else old(newAccounts)
      ensures status == Success ==> id !in old(newAccounts) && NewAccount(id) !in old(db.ids)
      ensures forall k :: Total(k) == old(Total(k)) && Own(k) == old(Own(k))
    {
      status := db.ReserveAccountCreation(id);
      if status == Success { newAccounts := newAccounts + {id}; }
    }

    method ReserveSequenceNumber(account: nat, seqNo: nat) returns (status: Status)
      requires Valid() && account in db.base.accounts
      modifies this`reservations, db`seqs
      ensures Valid()
      ensures var w := SeqWindow(db.base.lastSeq[account], seqNo);
        status == if w != Success then w else if SeqNo(account, seqNo) in old(db.seqs) then SeqNumTempInUse else Success
      ensures db.seqs == if status == Success then old(db.seqs) + {SeqNo(account, seqNo)} else old(db.seqs)
      ensures reservations ==
        if status == Success then old(reservations) + {SeqNo(account, seqNo)} else old(reservations)
      ensures forall k :: Total(k) == old(Total(k)) && Own(k) == old(Own(k))
    {
      status := db.ReserveSequenceNumber(account, seqNo);
      if status == Success { reservations := reservations + {SeqNo(account, seqNo)}; }
    }

    /** Give every buffered credit. */
    method CommitBalances()
      requires Valid()
      modifies db`available
      ensures db.Valid() && (buffered ==> db.Solvent())
      ensures forall c :: At(db.available, c) == At(old(db.available), c) + At(buffer, c)
    {
      hide SoundBase;
      var cells := buffer.Keys;
      while cells != {}
        invariant cells <= buffer.Keys && db.Valid() && (buffered ==> db.Solvent())
        invariant forall c ::
          At(db.available, c) == At(old(db.available), c) + (if c in buffer && c !in cells then buffer[c] else 0)
      {
        var c :| c in cells;
        db.TransferAvailable(c, buffer[c]);
        cells := cells - {c};
      }
    }

    /** Keep the created accounts. */
    method CommitAccounts()
      requires db.Valid() && (buffered ==> db.Solvent())
      requires forall c :: c in local ==> c.account in newAccounts && (buffered ==> local[c] >= 0)
      requires forall u :: u in newAccounts ==>
        u !in db.base.accounts && u !in db.uncommitted && NewAccount(u) in db.ids
      modifies db`available, db`uncommitted
      ensures db.Valid() && (buffered ==> db.Solvent())
      ensures forall c ::
        At(db.available, c) == if c in local then local[c] else At(old(db.available), c)
    {
      hide SoundBase;
      var ids := newAccounts;
      while ids != {}
        invariant ids <= newAccounts && db.Valid() && (buffered ==> db.Solvent())
        invariant db.uncommitted == old(db.uncommitted) + (newAccounts - ids)
        invariant forall c ::
          At(db.available, c) == if c in local && c.account !in ids then local[c] else At(old(db.available), c)
      {
        var id :| id in ids;
        db.CommitAccountCreation(id, local);
        ids := ids - {id};
      }
    }

    /** The database then shows what the transaction saw. */
    method Commit()
      requires Valid()
      modifies db`available, db`uncommitted
      ensures db.Valid() && (buffered ==> db.Solvent())
      ensures forall c :: At(db.available, c) == old(Total(c))
    {
      hide SoundBase;
      CommitBalances();
      CommitAccounts();
    }

    /** Give back every withdrawal and reservation. */
    method Unwind()
      requires Valid() && reservations <= db.seqs
      modifies db`available, db`seqs, db`ids
      ensures db.Valid()
      ensures forall c :: At(db.available, c) == old(Own(c))
      ensures db.seqs == old(db.seqs) - reservations
      ensures forall r :: r in db.ids <==> r in old(db.ids) && !(r.NewAccount? && r.id in newAccounts)
    {
      var cells := side.Keys;
      while cells != {}
        invariant cells <= side.Keys && db.Valid() && db.seqs == old(db.seqs) && db.ids == old(db.ids)
        invariant forall c ::
          At(db.available, c) == At(old(db.available), c) - (if c in side && c !in cells then side[c] else 0)
      {
        var c :| c in cells;
        db.TransferAvailable(c, -side[c]);
        cells := cells - {c};
      }
      var ids := newAccounts;
      ghost var start := db.available;
      while ids != {}
        invariant ids <= newAccounts && db.Valid() && db.available == start && db.seqs == old(db.seqs)
        invariant forall r :: r in db.ids <==>
          (r in old(db.ids) && !(r.NewAccount? && r.id in newAccounts && r.id !in ids))
      {
        var id :| id in ids;
        db.ReleaseAccountCreation(id);
        ids := ids - {id};
      }
      var left := reservations;
      ghost var kept := db.ids;
      while left != {}
        invariant left <= reservations && db.Valid() && db.seqs == old(db.seqs) - (reservations - left)
        invariant db.available == start && db.ids == kept
      {
        var r :| r in left;
        db.ReleaseSequenceNumber(r);
        left := left - {r};
      }
    }
  }
}
