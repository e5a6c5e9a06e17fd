/** Producers that process transactions concurrently, as interleaved atomic steps on the
    shared ledger, and a validator that applies what they committed in another order. */
module Producers {
  import opened Ledger

  /** One transaction's buffered effects: credits not yet given, withdrawals already made
      (as negative amounts), and the resources it took. */
  datatype View = View(buffer: map<Cell, int>, side: map<Cell, int>, held: set<Resource>)

  datatype Worker =
    | Idle
    | Running(tx: Transaction, done: nat, view: View)
    | Committing(tx: Transaction, left: map<Cell, int>)
    | Unwinding(view: View)

  /** The shared ledger, the workers, what they have committed, and the new offers that the
      committed transactions leave with them. */
  datatype World = World(ledger: Ledger, workers: seq<Worker>, committed: seq<Transaction>, offers: map<OfferId, nat>)

  /** Worker w starts a transaction, performs its next action, ends its actions, gives one
      buffered credit, ends its commit, gives back one withdrawal or one resource, or ends
      its unwinding. A fault ends the process, so no step performs one. */
  datatype Step =
    | Start(w: nat, tx: Transaction)
    | Act(w: nat)
    | Finish(w: nat)
    | Give(w: nat, cell: Cell)
    | Commit(w: nat)
    | Return(w: nat, cell: Cell)
    | Release(w: nat, resource: Resource)
    | Abandon(w: nat)

  predicate Enabled(b: Base, g: World, s: Step)
    requires SoundBase(b)
  {
    && s.w < |g.workers|
    && var k := g.workers[s.w];
       match s
       case Start(_, tx) => k.Idle? && WellFormed(tx)
       case Act(_) => k.Running? && k.done < |TxActions(b, k.tx)| && !Faults(TxActions(b, k.tx)[k.done])
       case Finish(_) => k.Running? && k.done == |TxActions(b, k.tx)|
       case Give(_, c) => k.Committing? && c in k.left
       case Commit(_) => k.Committing? && k.left == map[]
       case Return(_, c) => k.Unwinding? && c in k.view.side
       case Release(_, r) => k.Unwinding? && r in k.view.held
       case Abandon(_) => k.Unwinding? && k.view.side == map[] && k.view.held == {}
  }

  /** One atomic action of a running worker. */
  function Perform(l: Ledger, tx: Transaction, done: nat, v: View, a: Action): (Ledger, Worker) {
    match a
    case Take(r) =>
      if r in l.taken then (l, Unwinding(v))
      else (l.(taken := l.taken + {r}), Running(tx, done + 1, v.(held := v.held + {r})))
    case Debit(c, x) =>
      var have := At(v.buffer, c);
      if have >= x then (l, Running(tx, done + 1, v.(buffer := v.buffer[c := have - x])))
      else if At(l.avail, c) < x - have then (l, Unwinding(v))
      else
        (l.(avail := l.avail[c := At(l.avail, c) - (x - have)]),
         Running(tx, done + 1, v.(buffer := v.buffer[c := 0], side := v.side[c := At(v.side, c) - (x - have)])))
    case Credit(c, x) => (l, Running(tx, done + 1, v.(buffer := v.buffer[c := At(v.buffer, c) + x])))
    case Rest(_, _) => (l, Running(tx, done + 1, v))
    case Reject(_) => (l, Unwinding(v))
  }

  /** The new offers of a list of actions. */
  function OffersIn(acts: seq<Action>): map<OfferId, nat> {
    if acts == [] then map[]
    else
      var last := acts[|acts| - 1];
      var m := OffersIn(acts[..|acts| - 1]);
      if last.Rest? then m[last.offer := last.size] else m
  }

  function TxOffers(b: Base, tx: Transaction): map<OfferId, nat>
    requires SoundBase(b)
  {
    OffersIn(TxActions(b, tx))
  }

  function Next(b: Base, g: World, s: Step): World
    requires SoundBase(b) && Enabled(b, g, s)
  {
    var k, l := g.workers[s.w], g.ledger;
    match s
    case Start(w, tx) => g.(workers := g.workers[w := Running(tx, 0, View(map[], map[], {}))])
    case Act(w) =>
      var (m, n) := Perform(l, k.tx, k.done, k.view, TxActions(b, k.tx)[k.done]);
      g.(ledger := m, workers := g.workers[w := n])
    case Finish(w) => g.(workers := g.workers[w := Committing(k.tx, k.view.buffer)])
    case Give(w, c) =>
      g.(ledger := l.(avail := l.avail[c := At(l.avail, c) + k.left[c]]),
         workers := g.workers[w := k.(left := k.left - {c})])
    case Commit(w) =>
      g.(workers := g.workers[w := Idle], committed := g.committed + [k.tx], offers := g.offers + TxOffers(b, k.tx))
    case Return(w, c) =>
      g.(ledger := l.(avail := l.avail[c := At(l.avail, c) - k.view.side[c]]),
         workers := g.workers[w := Unwinding(k.view.(side := k.view.side - {c}))])
    case Release(w, r) =>
      g.(ledger := l.(taken := l.taken - {r}),
         workers := g.workers[w := Unwinding(k.view.(held := k.view.held - {r}))])
    case Abandon(w) => g.(workers := g.workers[w := Idle])
  }

  // ---- what everyone has done to a level ----

  function TxWeight(b: Base, tx: Transaction, f: Facet): int
    requires SoundBase(b)
  {
    Weight(TxActions(b, tx), f)
  }

  /** What the transactions of a list do to a level. */
  function Tally(b: Base, txs: seq<Transaction>, f: Facet): int
    requires SoundBase(b)
  {
    if txs == [] then 0 else Tally(b, txs[..|txs| - 1], f) + TxWeight(b, txs[|txs| - 1], f)
  }

  /** What a worker has done to a level so far. */
  function Done(b: Base, k: Worker, f: Facet): int
    requires SoundBase(b)
  {
    match k
    case Idle => 0
    case Running(_, _, v) => ViewLevel(v, f)
    case Unwinding(v) => ViewLevel(v, f)
    case Committing(tx, left) => TxWeight(b, tx, f) - (if f.Balance? then At(left, f.cell) else 0)
  }

  function ViewLevel(v: View, f: Facet): int {
    match f
    case Balance(c) => At(v.side, c)
    case Holding(r) => if r in v.held then 1 else 0
  }

  function DoneAll(b: Base, ks: seq<Worker>, f: Facet): int
    requires SoundBase(b)
  {
    if ks == [] then 0 else DoneAll(b, ks[..|ks| - 1], f) + Done(b, ks[|ks| - 1], f)
  }

  lemma {:induction false} DoneUpdate(b: Base, ks: seq<Worker>, w: nat, k: Worker, f: Facet)
    requires SoundBase(b) && w < |ks|
    ensures DoneAll(b, ks[w := k], f) == DoneAll(b, ks, f) + Done(b, k, f) - Done(b, ks[w], f)
  {
    hide Done, SoundBase;
    var init := ks[..|ks| - 1];
    if w == |ks| - 1 {
      assert ks[w := k][..|ks| - 1] == init;
    } else {
      assert ks[w := k][..|ks| - 1] == init[w := k];
      DoneUpdate(b, init, w, k, f);
    }
  }

  lemma TallySnoc(b: Base, txs: seq<Transaction>, tx: Transaction, f: Facet)
    requires SoundBase(b)
    ensures Tally(b, txs + [tx], f) == Tally(b, txs, f) + TxWeight(b, tx, f)
  {
    assert (txs + [tx])[..|txs|] == txs;
  }

  // ---- the invariant ----

  /** A view's withdrawals and credits add up to what its actions ask for. */
  ghost predicate ViewSound(b: Base, tx: Transaction, done: nat, v: View)
    requires SoundBase(b)
  {
    && WellFormed(tx) && done <= |TxActions(b, tx)|
    && var acts := TxActions(b, tx)[..done];
       && NoReject(acts)
       && (forall c :: At(v.side, c) + At(v.buffer, c) == Weight(acts, Balance(c)))
       && (forall r :: ViewLevel(v, Holding(r)) == Weight(acts, Holding(r)))
  }

  ghost predicate Signs(v: View) {
    && (forall c :: c in v.buffer ==> v.buffer[c] >= 0)
    && (forall c :: c in v.side ==> v.side[c] <= 0)
  }

  ghost predicate WorkerSound(b: Base, k: Worker)
    requires SoundBase(b)
  {
    match k
    case Idle => true
    case Running(tx, done, v) => ViewSound(b, tx, done, v) && Signs(v)
    case Committing(tx, left) => Valid(b, tx) && forall c :: c in left ==> left[c] >= 0
    case Unwinding(v) => Signs(v)
  }

  /** A transaction none of whose actions is a rejection. */
  ghost predicate Valid(b: Base, tx: Transaction)
    requires SoundBase(b)
  {
    WellFormed(tx) && NoReject(TxActions(b, tx))
  }

  ghost predicate AllValid(b: Base, txs: seq<Transaction>)
    requires SoundBase(b)
  {
    forall i :: 0 <= i < |txs| ==> Valid(b, txs[i])
  }

  /** The ledger is the initial one, moved by what was committed and what each worker did. */
  ghost predicate Balanced(b: Base, l0: Ledger, g: World)
    requires SoundBase(b)
  {
    forall f :: Level(g.ledger, f) == Level(l0, f) + Tally(b, g.committed, f) + DoneAll(b, g.workers, f)
  }

  ghost predicate Solvent(l: Ledger) {
    forall c :: At(l.avail, c) >= 0
  }

  lemma SolventPut(l: Ledger, c: Cell, v: int)
    requires Solvent(l) && v >= 0
    ensures Solvent(l.(avail := l.avail[c := v]))
  {
    var m := l.(avail := l.avail[c := v]);
    forall k ensures At(m.avail, k) >= 0 { assert At(l.avail, k) >= 0; }
  }

  /** The new offers of a list of transactions. */
  function AllOffers(b: Base, txs: seq<Transaction>): map<OfferId, nat>
    requires SoundBase(b)
  {
    if txs == [] then map[] else AllOffers(b, txs[..|txs| - 1]) + TxOffers(b, txs[|txs| - 1])
  }

  ghost predicate Inv(b: Base, l0: Ledger, g: World)
    requires SoundBase(b)
  {
    && (forall w :: 0 <= w < |g.workers| ==> WorkerSound(b, g.workers[w]))
    && AllValid(b, g.committed) && g.offers == AllOffers(b, g.committed)
    && Balanced(b, l0, g) && Solvent(g.ledger)
  }

  /** A step that moves the ledger's levels as much as one worker's share keeps the balance. */
  lemma Moves(b: Base, l0: Ledger, g: World, w: nat, l: Ledger, k: Worker)
    requires SoundBase(b) && Balanced(b, l0, g) && w < |g.workers|
    requires forall f :: Level(l, f) - Level(g.ledger, f) == Done(b, k, f) - Done(b, g.workers[w], f)
    ensures Balanced(b, l0, World(l, g.workers[w := k], g.committed, g.offers))
  {
    hide Level, Done, SoundBase;
    var n := World(l, g.workers[w := k], g.committed, g.offers);
    forall f ensures Level(n.ledger, f) == Level(l0, f) + Tally(b, n.committed, f) + DoneAll(b, n.workers, f) {
      DoneUpdate(b, g.workers, w, k, f);
      assert Level(g.ledger, f) == Level(l0, f) + Tally(b, g.committed, f) + DoneAll(b, g.workers, f);
    }
  }

  lemma ViewNext(b: Base, tx: Transaction, done: nat, v: View, n: View)
    requires SoundBase(b) && ViewSound(b, tx, done, v) && done < |TxActions(b, tx)|
    requires var a := TxActions(b, tx)[done];
      && !a.Reject?
      && (forall c :: At(n.side, c) + At(n.buffer, c) == At(v.side, c) + At(v.buffer, c) + Push(a, Balance(c)))
      && (forall r :: ViewLevel(n, Holding(r)) == ViewLevel(v, Holding(r)) + Push(a, Holding(r)))
    ensures ViewSound(b, tx, done + 1, n)
  {
    hide TxActions, SoundBase, WellFormed, Push, ViewLevel;
    var acts := TxActions(b, tx);
    var a := acts[done];
    assert acts[..done + 1] == acts[..done] + [a];
    RejectSnoc(acts[..done], a);
    forall f ensures Weight(acts[..done + 1], f) == Weight(acts[..done], f) + Push(a, f) {
      WeightSnoc(acts[..done], a, f);
    }
  }

  /** What one action leaves: the same totals in the view as the action asks for, the same
      change in the ledger as in the worker's share, and no balance below zero. */
  ghost predicate Performed(l: Ledger, done: nat, v: View, a: Action, m: Ledger, k: Worker) {
    && (k.Running? || k.Unwinding?) && Signs(k.view) && Solvent(m)
    && (forall f :: Level(m, f) - Level(l, f) == ViewLevel(k.view, f) - ViewLevel(v, f))
    && (k.Running? ==> k.done == done + 1 && ViewStep(v, a, k.view))
  }

  ghost predicate ViewStep(v: View, a: Action, n: View) {
    && !a.Reject?
    && (forall c :: At(n.side, c) + At(n.buffer, c) == At(v.side, c) + At(v.buffer, c) + Push(a, Balance(c)))
    && (forall r :: ViewLevel(n, Holding(r)) == ViewLevel(v, Holding(r)) + Push(a, Holding(r)))
  }

  lemma PerformTake(l: Ledger, tx: Transaction, done: nat, v: View, a: Action)
    requires a.Take? && Signs(v) && Solvent(l) && forall r :: r in v.held ==> r in l.taken
    ensures var (m, k) := Perform(l, tx, done, v, a); Performed(l, done, v, a, m, k)
  {
  }

  lemma PerformDebit(l: Ledger, tx: Transaction, done: nat, v: View, a: Action)
    requires a.Debit? && Signs(v) && Solvent(l)
    ensures var (m, k) := Perform(l, tx, done, v, a); Performed(l, done, v, a, m, k)
  {
    var (m, k) := Perform(l, tx, done, v, a);
    if k.Running? {
      forall c ensures At(k.view.side, c) + At(k.view.buffer, c) == At(v.side, c) + At(v.buffer, c)
        + Push(a, Balance(c)) {}
    }
    if m != l { SolventPut(l, a.cell, At(m.avail, a.cell)); }
  }

  lemma PerformOther(l: Ledger, tx: Transaction, done: nat, v: View, a: Action)
    requires !a.Take? && !a.Debit? && Signs(v) && Solvent(l)
    ensures var (m, k) := Perform(l, tx, done, v, a); Performed(l, done, v, a, m, k)
  {
    var (m, k) := Perform(l, tx, done, v, a);
    if k.Running? {
      forall c ensures At(k.view.side, c) + At(k.view.buffer, c) == At(v.side, c) + At(v.buffer, c)
        + Push(a, Balance(c)) {}
    }
  }

  lemma PerformKeeps(b: Base, l: Ledger, tx: Transaction, done: nat, v: View)
    requires SoundBase(b) && ViewSound(b, tx, done, v) && Signs(v) && done < |TxActions(b, tx)| && Solvent(l)
    requires forall r :: r in v.held ==> r in l.taken
    ensures var (m, k) := Perform(l, tx, done, v, TxActions(b, tx)[done]);
      && WorkerSound(b, k) && Solvent(m)
      && forall f :: Level(m, f) - Level(l, f) == Done(b, k, f) - ViewLevel(v, f)
  {
    hide TxActions, SoundBase, WellFormed, Perform, Level, ViewLevel, Signs, Solvent, Push;
    var a := TxActions(b, tx)[done];
    if a.Take? { PerformTake(l, tx, done, v, a); }
    else if a.Debit? { PerformDebit(l, tx, done, v, a); }
    else { PerformOther(l, tx, done, v, a); }
    var (m, k) := Perform(l, tx, done, v, a);
    PerformSame(l, tx, done, v, a);
    if k.Running? { ViewNext(b, tx, done, v, k.view); }
  }

  lemma PerformSame(l: Ledger, tx: Transaction, done: nat, v: View, a: Action)
    ensures var (m, k) := Perform(l, tx, done, v, a); k.Running? ==> k.tx == tx
  {
  }

  // ---- every step keeps it ----

  lemma {:induction false} TallyNonnegative(b: Base, txs: seq<Transaction>, r: Resource)
    requires SoundBase(b)
    ensures Tally(b, txs, Holding(r)) >= 0
  {
    hide SoundBase;
    if txs != [] {
      TallyNonnegative(b, txs[..|txs| - 1], r);
      TxHolding(b, txs[|txs| - 1], r);
    }
  }

  lemma TxHolding(b: Base, tx: Transaction, r: Resource)
    requires SoundBase(b)
    ensures TxWeight(b, tx, Holding(r)) >= 0
  {
    HoldingNonnegative(TxActions(b, tx), r);
  }

  lemma DoneHolding(b: Base, k: Worker, r: Resource)
    requires SoundBase(b)
    ensures Done(b, k, Holding(r)) >= 0
  {
    if k.Committing? { TxHolding(b, k.tx, r); }
  }

  lemma {:induction false} DoneNonnegative(b: Base, ks: seq<Worker>, r: Resource)
    requires SoundBase(b)
    ensures DoneAll(b, ks, Holding(r)) >= 0
    ensures forall w :: 0 <= w < |ks| ==> DoneAll(b, ks, Holding(r)) >= Done(b, ks[w], Holding(r))
  {
    hide SoundBase, Done;
    if ks != [] {
      var init := ks[..|ks| - 1];
      DoneNonnegative(b, init, r);
      DoneHolding(b, ks[|ks| - 1], r);
      forall w | 0 <= w < |ks| ensures DoneAll(b, ks, Holding(r)) >= Done(b, ks[w], Holding(r)) {
        if w < |init| { assert ks[w] == init[w]; }
      }
    }
  }

  /** What a worker holds is taken. */
  lemma HeldTaken(b: Base, l0: Ledger, g: World, w: nat, v: View)
    requires SoundBase(b) && Balanced(b, l0, g) && w < |g.workers|
    requires forall f :: Done(b, g.workers[w], f) == ViewLevel(v, f)
    ensures forall r :: r in v.held ==> r in g.ledger.taken
  {
    hide SoundBase;
    forall r | r in v.held ensures r in g.ledger.taken {
      DoneNonnegative(b, g.workers, r);
      TallyNonnegative(b, g.committed, r);
      LevelNonnegative(l0, r);
      assert Level(g.ledger, Holding(r)) == Level(l0, Holding(r)) + Tally(b, g.committed, Holding(r))
        + DoneAll(b, g.workers, Holding(r));
      assert Done(b, g.workers[w], Holding(r)) == ViewLevel(v, Holding(r));
    }
  }

  lemma ActKeeps(b: Base, l0: Ledger, g: World, w: nat)
    requires SoundBase(b) && Inv(b, l0, g) && Enabled(b, g, Act(w))
    ensures Inv(b, l0, Next(b, g, Act(w)))
  {
    hide TxActions, SoundBase, WellFormed, Perform, Level, ViewLevel, Signs, Solvent, ViewSound, Balanced;
    var k := g.workers[w];
    assert WorkerSound(b, k);
    forall f ensures Done(b, k, f) == ViewLevel(k.view, f) {}
    HeldTaken(b, l0, g, w, k.view);
    PerformKeeps(b, g.ledger, k.tx, k.done, k.view);
    var (m, n) := Perform(g.ledger, k.tx, k.done, k.view, TxActions(b, k.tx)[k.done]);
    Moves(b, l0, g, w, m, n);
  }

  lemma FinishKeeps(b: Base, l0: Ledger, g: World, w: nat)
    requires SoundBase(b) && Inv(b, l0, g) && Enabled(b, g, Finish(w))
    ensures Inv(b, l0, Next(b, g, Finish(w)))
  {
    hide TxActions, SoundBase, WellFormed, Level, Solvent, Balanced;
    var k := g.workers[w];
    assert WorkerSound(b, k);
    var acts := TxActions(b, k.tx);
    assert acts[..k.done] == acts;
    var n := Committing(k.tx, k.view.buffer);
    forall f ensures Done(b, n, f) == Done(b, k, f) {
      if f.Balance? { assert At(k.view.side, f.cell) + At(k.view.buffer, f.cell) == Weight(acts, f); }
      else { assert ViewLevel(k.view, f) == Weight(acts, f); }
    }
    Moves(b, l0, g, w, g.ledger, n);
    assert NoReject(acts);
    assert WorkerSound(b, n);
    assert Next(b, g, Finish(w)) == World(g.ledger, g.workers[w := n], g.committed, g.offers);
  }

  lemma GiveKeeps(b: Base, l0: Ledger, g: World, w: nat, c: Cell)
    requires SoundBase(b) && Inv(b, l0, g) && Enabled(b, g, Give(w, c))
    ensures Inv(b, l0, Next(b, g, Give(w, c)))
  {
    hide SoundBase, Valid, Balanced, TxWeight;
    var k := g.workers[w];
    assert WorkerSound(b, k);
    var n := Next(b, g, Give(w, c));
    Moves(b, l0, g, w, n.ledger, n.workers[w]);
    assert At(g.ledger.avail, c) >= 0;
    SolventPut(g.ledger, c, At(n.ledger.avail, c));
  }

  lemma CommitBalanced(b: Base, l0: Ledger, g: World, w: nat)
    requires SoundBase(b) && Balanced(b, l0, g) && Enabled(b, g, Commit(w))
    ensures Balanced(b, l0, Next(b, g, Commit(w)))
  {
    hide SoundBase, Level, TxWeight, TxOffers;
    var k, n := g.workers[w], Next(b, g, Commit(w));
    forall f ensures Level(n.ledger, f) == Level(l0, f) + Tally(b, n.committed, f) + DoneAll(b, n.workers, f) {
      DoneUpdate(b, g.workers, w, Idle, f);
      TallySnoc(b, g.committed, k.tx, f);
      assert Level(g.ledger, f) == Level(l0, f) + Tally(b, g.committed, f) + DoneAll(b, g.workers, f);
    }
  }

  lemma CommitKeeps(b: Base, l0: Ledger, g: World, w: nat)
    requires SoundBase(b) && Inv(b, l0, g) && Enabled(b, g, Commit(w))
    ensures Inv(b, l0, Next(b, g, Commit(w)))
  {
    hide SoundBase, Valid, Solvent, Balanced, TxOffers;
    var k, n := g.workers[w], Next(b, g, Commit(w));
    assert WorkerSound(b, k);
    CommitBalanced(b, l0, g, w);
    assert n.committed[..|g.committed|] == g.committed;
    forall i | 0 <= i < |n.committed| ensures Valid(b, n.committed[i]) {
      if i < |g.committed| { assert n.committed[i] == g.committed[i]; }
    }
  }

  lemma ReturnKeeps(b: Base, l0: Ledger, g: World, w: nat, c: Cell)
    requires SoundBase(b) && Inv(b, l0, g) && Enabled(b, g, Return(w, c))
    ensures Inv(b, l0, Next(b, g, Return(w, c)))
  {
    hide SoundBase, Valid, Balanced;
    var k := g.workers[w];
    assert WorkerSound(b, k);
    var n := Next(b, g, Return(w, c));
    Moves(b, l0, g, w, n.ledger, n.workers[w]);
    assert At(g.ledger.avail, c) >= 0;
    SolventPut(g.ledger, c, At(n.ledger.avail, c));
  }

  lemma ReleaseKeeps(b: Base, l0: Ledger, g: World, w: nat, r: Resource)
    requires SoundBase(b) && Inv(b, l0, g) && Enabled(b, g, Release(w, r))
    ensures Inv(b, l0, Next(b, g, Release(w, r)))
  {
    hide SoundBase, Valid, Balanced;
    var k := g.workers[w];
    assert WorkerSound(b, k);
    HeldTaken(b, l0, g, w, k.view);
    var n := Next(b, g, Release(w, r));
    Moves(b, l0, g, w, n.ledger, n.workers[w]);
  }

  lemma StartKeeps(b: Base, l0: Ledger, g: World, w: nat, tx: Transaction)
    requires SoundBase(b) && Inv(b, l0, g) && Enabled(b, g, Start(w, tx))
    ensures Inv(b, l0, Next(b, g, Start(w, tx)))
  {
    hide SoundBase, Valid, Balanced;
    var n := Next(b, g, Start(w, tx));
    assert TxActions(b, tx)[..0] == [];
    Moves(b, l0, g, w, n.ledger, n.workers[w]);
  }

  lemma AbandonKeeps(b: Base, l0: Ledger, g: World, w: nat)
    requires SoundBase(b) && Inv(b, l0, g) && Enabled(b, g, Abandon(w))
    ensures Inv(b, l0, Next(b, g, Abandon(w)))
  {
    hide SoundBase, Valid, Balanced;
    Moves(b, l0, g, w, g.ledger, Idle);
  }

  lemma NextKeeps(b: Base, l0: Ledger, g: World, s: Step)
    requires SoundBase(b) && Inv(b, l0, g) && Enabled(b, g, s)
    ensures Inv(b, l0, Next(b, g, s))
  {
    hide SoundBase, Inv, Next, Enabled;
    match s
    case Start(w, tx) => StartKeeps(b, l0, g, w, tx);
    case Act(w) => ActKeeps(b, l0, g, w);
    case Finish(w) => FinishKeeps(b, l0, g, w);
    case Give(w, c) => GiveKeeps(b, l0, g, w, c);
    case Commit(w) => CommitKeeps(b, l0, g, w);
    case Return(w, c) => ReturnKeeps(b, l0, g, w, c);
    case Release(w, r) => ReleaseKeeps(b, l0, g, w, r);
    case Abandon(w) => AbandonKeeps(b, l0, g, w);
  }

  // ---- interleavings ----

  /** The steps lead from one world to another. */
  ghost predicate Trace(b: Base, g: World, steps: seq<Step>, h: World)
    requires SoundBase(b)
    decreases |steps|
  {
    if steps == [] then g == h else Enabled(b, g, steps[0]) && Trace(b, Next(b, g, steps[0]), steps[1..], h)
  }

  ghost predicate AllIdle(ks: seq<Worker>) {
    forall w :: 0 <= w < |ks| ==> ks[w].Idle?
  }

  lemma {:induction false} IdleDone(b: Base, ks: seq<Worker>, f: Facet)
    requires SoundBase(b) && AllIdle(ks)
    ensures DoneAll(b, ks, f) == 0
  {
    if ks != [] {
      var init := ks[..|ks| - 1];
      assert forall w :: 0 <= w < |init| ==> init[w] == ks[w];
      IdleDone(b, init, f);
    }
  }

  /** The invariant holds after every interleaving. */
  lemma {:induction false} TraceKeeps(b: Base, l0: Ledger, g: World, steps: seq<Step>, h: World)
    requires SoundBase(b) && Inv(b, l0, g) && Trace(b, g, steps, h)
    ensures Inv(b, l0, h)
    decreases |steps|
  {
    hide SoundBase, Inv, Enabled, Next;
    if steps != [] {
      NextKeeps(b, l0, g, steps[0]);
      TraceKeeps(b, l0, Next(b, g, steps[0]), steps[1..], h);
    }
  }

  lemma InitialInv(b: Base, g: World)
    requires SoundBase(b) && Solvent(g.ledger) && AllIdle(g.workers) && g.committed == [] && g.offers == map[]
    ensures Inv(b, g.ledger, g)
  {
    hide SoundBase, Level;
    forall f ensures Level(g.ledger, f) == Level(g.ledger, f) + Tally(b, g.committed, f) + DoneAll(b, g.workers, f) {
      IdleDone(b, g.workers, f);
    }
    assert Balanced(b, g.ledger, g);
  }

  // ---- the validator ----

  /** Apply transactions one after the other without checking balances; the first that is
      refused refuses the block. */
  function Validate(b: Base, l: Ledger, txs: seq<Transaction>): Outcome
    requires SoundBase(b)
  {
    if txs == [] then Outcome.Done(l)
    else
      var d := Validate(b, l, txs[..|txs| - 1]);
      if d.Failed? then d else Direct(false, d.ledger, TxActions(b, txs[|txs| - 1]))
  }

  ghost predicate NoClash(b: Base, l: Ledger, txs: seq<Transaction>)
    requires SoundBase(b)
  {
    forall r :: Level(l, Holding(r)) + Tally(b, txs, Holding(r)) <= 1
  }

  /** Exactly which blocks a validator accepts, and what it comes to. */
  lemma {:induction false} ValidatorExact(b: Base, l: Ledger, txs: seq<Transaction>)
    requires SoundBase(b) && forall i :: 0 <= i < |txs| ==> WellFormed(txs[i])
    ensures Validate(b, l, txs).Done? <==> AllValid(b, txs) && NoClash(b, l, txs)
    ensures Validate(b, l, txs).Done? ==>
      forall f :: Level(Validate(b, l, txs).ledger, f) == Level(l, f) + Tally(b, txs, f)
    decreases |txs|
  {
    hide SoundBase, Level, TxActions, WellFormed, Direct;
    if txs == [] {
      forall r ensures Level(l, Holding(r)) <= 1 { LevelAtMostOne(l, r); }
    } else {
      var init, tx := txs[..|txs| - 1], txs[|txs| - 1];
      assert txs == init + [tx];
      ValidatorExact(b, l, init);
      ClashSnoc(b, l, init, tx);
      ValidSnoc(b, init, tx);
      var d := Validate(b, l, init);
      if d.Done? {
        LastExact(b, l, d.ledger, init, tx);
        forall f | Direct(false, d.ledger, TxActions(b, tx)).Done?
          ensures Level(Direct(false, d.ledger, TxActions(b, tx)).ledger, f) == Level(l, f) + Tally(b, txs, f)
        {
          DirectLevel(false, d.ledger, TxActions(b, tx), f);
          TallySnoc(b, init, tx, f);
        }
      }
    }
  }

  /** The transactions before the n-th are accepted, and then that one faults. */
  ghost predicate FaultIn(b: Base, l: Ledger, txs: seq<Transaction>, n: nat, fault: Fault)
    requires SoundBase(b) && n < |txs|
  {
    var d := Validate(b, l, txs[..n]);
    && d.Done? && Admission(b, txs[n]) == Success
    && exists i :: 0 <= i < |txs[n].ops| && FaultAt(b, false, d.ledger, txs[n], i, fault)
  }

  /** Exactly which blocks make a validator fault. */
  lemma {:induction false} ValidatorThrows(b: Base, l: Ledger, txs: seq<Transaction>, fault: Fault)
    requires SoundBase(b)
    ensures Validate(b, l, txs) == Failed(Threw(fault)) <==> exists n :: 0 <= n < |txs| && FaultIn(b, l, txs, n, fault)
    decreases |txs|
  {
    hide SoundBase, TxActions, Direct, Admission, FaultAt;
    if txs != [] {
      var init, tx := txs[..|txs| - 1], txs[|txs| - 1];
      ValidatorThrows(b, l, init, fault);
      forall n | 0 <= n < |init| ensures FaultIn(b, l, init, n, fault) <==> FaultIn(b, l, txs, n, fault) {
        assert txs[..n] == init[..n];
      }
      var d := Validate(b, l, init);
      if d.Done? {
        TxThrows(b, false, d.ledger, tx, fault);
        assert FaultIn(b, l, txs, |txs| - 1, fault) <==> Validate(b, l, txs) == Failed(Threw(fault));
      } else {
        assert !FaultIn(b, l, txs, |txs| - 1, fault);
      }
    }
  }

  lemma LevelAtMostOne(l: Ledger, r: Resource)
    ensures Level(l, Holding(r)) <= 1
  {
  }

  lemma ValidSnoc(b: Base, init: seq<Transaction>, tx: Transaction)
    requires SoundBase(b)
    ensures AllValid(b, init + [tx]) <==> AllValid(b, init) && Valid(b, tx)
  {
    hide Valid, SoundBase;
    var txs := init + [tx];
    assert txs[|init|] == tx && forall i :: 0 <= i < |init| ==> txs[i] == init[i];
    if AllValid(b, txs) {
      forall i | 0 <= i < |init| ensures Valid(b, init[i]) { assert Valid(b, txs[i]); }
    }
  }

  lemma ClashSnoc(b: Base, l: Ledger, init: seq<Transaction>, tx: Transaction)
    requires SoundBase(b)
    ensures NoClash(b, l, init + [tx]) ==> NoClash(b, l, init)
  {
    hide SoundBase, Level, TxWeight;
    if NoClash(b, l, init + [tx]) {
      forall r ensures Level(l, Holding(r)) + Tally(b, init, Holding(r)) <= 1 {
        TallySnoc(b, init, tx, Holding(r));
        TxHolding(b, tx, r);
        assert Level(l, Holding(r)) + Tally(b, init + [tx], Holding(r)) <= 1;
      }
    }
  }

  lemma LastExact(b: Base, l: Ledger, m: Ledger, init: seq<Transaction>, tx: Transaction)
    requires SoundBase(b) && WellFormed(tx)
    requires forall f :: Level(m, f) == Level(l, f) + Tally(b, init, f)
    ensures Direct(false, m, TxActions(b, tx)).Done? <==> Valid(b, tx) && NoClash(b, l, init + [tx])
  {
    hide SoundBase, Level, TxActions, WellFormed, Direct;
    DirectExact(false, m, TxActions(b, tx));
    forall r
      ensures Level(m, Holding(r)) + Weight(TxActions(b, tx), Holding(r))
        == Level(l, Holding(r)) + Tally(b, init + [tx], Holding(r))
    {
      TallySnoc(b, init, tx, Holding(r));
    }
    if NoClash(b, l, init + [tx]) {
      forall r ensures Level(m, Holding(r)) + Weight(TxActions(b, tx), Holding(r)) <= 1 {
        assert Level(l, Holding(r)) + Tally(b, init + [tx], Holding(r)) <= 1;
      }
    }
  }

  // ---- new offers ----

  lemma {:induction false} DirectOffers(checked: bool, l: Ledger, acts: seq<Action>)
    ensures var d := Direct(checked, l, acts); d.Done? ==> d.ledger.rests == l.rests + OffersIn(acts)
  {
    if acts != [] { DirectOffers(checked, l, acts[..|acts| - 1]); }
  }

  /** A validated block adds exactly the new offers of its transactions. */
  lemma {:induction false} ValidateOffers(b: Base, l: Ledger, txs: seq<Transaction>)
    requires SoundBase(b)
    ensures var d := Validate(b, l, txs); d.Done? ==> d.ledger.rests == l.rests + AllOffers(b, txs)
  {
    hide SoundBase, TxActions, Direct, OffersIn;
    if txs != [] {
      var init, tx := txs[..|txs| - 1], txs[|txs| - 1];
      ValidateOffers(b, l, init);
      var d := Validate(b, l, init);
      if d.Done? { DirectOffers(false, d.ledger, TxActions(b, tx)); }
    }
  }

  /** The offers rested by actions are theirs. */
  ghost predicate OffersFrom(m: map<OfferId, nat>, tx: Transaction, n: nat) {
    forall o :: o in m ==> o.owner == tx.source && tx.seqNo <= o.id < tx.seqNo + n
  }

  lemma {:induction false} OffersAppend(acts: seq<Action>, more: seq<Action>)
    ensures OffersIn(acts + more) == OffersIn(acts) + OffersIn(more)
    decreases |more|
  {
    if more == [] {
      assert acts + more == acts;
    } else {
      var init, last := more[..|more| - 1], more[|more| - 1];
      assert (acts + more)[..|acts + more| - 1] == acts + init;
      OffersAppend(acts, init);
    }
  }

  /** The offer of one action, if it rests one. */
  function OfferOf(a: Action): map<OfferId, nat> {
    if a.Rest? then map[a.offer := a.size] else map[]
  }

  lemma OffersSnoc(acts: seq<Action>, a: Action)
    ensures OffersIn(acts + [a]) == OffersIn(acts) + OfferOf(a)
  {
    assert (acts + [a])[..|acts|] == acts;
  }

  lemma NoOffers()
    ensures OffersIn([]) == map[]
  {
  }

  lemma FewOffers(acts: seq<Action>)
    requires 1 <= |acts| <= 3
    ensures |acts| == 1 ==> OffersIn(acts) == OfferOf(acts[0])
    ensures |acts| == 2 ==> OffersIn(acts) == OfferOf(acts[0]) + OfferOf(acts[1])
    ensures |acts| == 3 ==> OffersIn(acts) == OfferOf(acts[0]) + OfferOf(acts[1]) + OfferOf(acts[2])
    decreases |acts|
  {
    hide OffersIn, OfferOf;
    var init, last := acts[..|acts| - 1], acts[|acts| - 1];
    assert acts == init + [last];
    OffersSnoc(init, last);
    if |acts| == 1 { NoOffers(); } else { FewOffers(init); }
  }

  lemma OpOffers(b: Base, source: nat, opId: nat, created: set<nat>, op: Operation)
    ensures forall o :: o in OffersIn(OpActions(b, source, opId, created, op)) ==> o.owner == source && o.id == opId
  {
    hide LookUp, OffersIn;
    FewOffers(OpActions(b, source, opId, created, op));
  }

  lemma {:induction false} OpsOffers(b: Base, tx: Transaction, i: nat)
    requires i <= |tx.ops|
    ensures OffersFrom(OffersIn(OpsActions(b, tx, i)), tx, i)
  {
    hide OpActions;
    if i == 0 {
      NoOffers();
    } else {
      OpsOffers(b, tx, i - 1);
      var acts := OpActions(b, tx.source, tx.seqNo + (i - 1), CreatedBy(tx.ops[..i - 1]), tx.ops[i - 1]);
      OffersAppend(OpsActions(b, tx, i - 1), acts);
      OpOffers(b, tx.source, tx.seqNo + (i - 1), CreatedBy(tx.ops[..i - 1]), tx.ops[i - 1]);
    }
  }

  lemma OpeningTakes(tx: Transaction)
    ensures OffersIn(Opening(tx)) == map[]
    ensures Weight(Opening(tx), Holding(SeqNo(tx.source, tx.seqNo))) == 1
  {
    var open, f := Opening(tx), Holding(SeqNo(tx.source, tx.seqNo));
    FewOffers(open);
    WeightSnoc([], open[0], f);
    WeightSnoc([open[0]], open[1], f);
    assert [] + [open[0]] == [open[0]] && open == [open[0]] + [open[1]];
  }

  /** A new offer names the sequence number that its transaction took. */
  lemma OfferNames(b: Base, tx: Transaction, o: OfferId)
    requires SoundBase(b) && WellFormed(tx) && o in TxOffers(b, tx)
    ensures TxWeight(b, tx, Holding(SeqNo(o.owner, o.id - o.id % MAX_OPS))) >= 1
  {
    hide SoundBase, OpsActions, OffersIn, Opening, Weight;
    if Admission(b, tx) != Success {
      FewOffers([Reject(Admission(b, tx))]);
    } else {
      var open, acts := Opening(tx), OpsActions(b, tx, |tx.ops|);
      OpeningTakes(tx);
      OffersAppend(open, acts);
      OpsOffers(b, tx, |tx.ops|);
      AlignedId(o.id, tx.seqNo);
      WeightAppend(open, acts, Holding(SeqNo(tx.source, tx.seqNo)));
      HoldingNonnegative(acts, SeqNo(tx.source, tx.seqNo));
    }
  }

  lemma {:induction false} WeightAppend(acts: seq<Action>, more: seq<Action>, f: Facet)
    ensures Weight(acts + more, f) == Weight(acts, f) + Weight(more, f)
    decreases |more|
  {
    if more == [] {
      assert acts + more == acts;
    } else {
      var init, last := more[..|more| - 1], more[|more| - 1];
      assert (acts + more)[..|acts + more| - 1] == acts + init;
      WeightAppend(acts, init, f);
    }
  }

  /** Without a clash no two transactions leave the same offer. */
  lemma OneMaker(b: Base, l: Ledger, txs: seq<Transaction>, i: nat, j: nat, o: OfferId)
    requires SoundBase(b) && NoClash(b, l, txs) && i <= j < |txs| && WellFormed(txs[i]) && WellFormed(txs[j])
    requires o in TxOffers(b, txs[i]) && o in TxOffers(b, txs[j])
    ensures i == j
  {
    hide SoundBase, TxWeight, TxOffers, Level;
    var r := SeqNo(o.owner, o.id - o.id % MAX_OPS);
    OfferNames(b, txs[i], o);
    OfferNames(b, txs[j], o);
    LevelNonnegative(l, r);
    assert Level(l, Holding(r)) + Tally(b, txs, Holding(r)) <= 1;
    if i < j {
      var rest := txs[..j] + txs[j + 1..];
      TallyRemove(b, txs, j, Holding(r));
      assert rest[i] == txs[i];
      TallyRemove(b, rest, i, Holding(r));
      TallyNonnegative(b, rest[..i] + rest[i + 1..], r);
    }
  }

  ghost predicate Makes(b: Base, txs: seq<Transaction>, i: nat, o: OfferId)
    requires SoundBase(b) && i < |txs|
  {
    o in TxOffers(b, txs[i])
  }

  /** Each new offer is some transaction's, with the amount that it gave. */
  lemma {:induction false} OffersMade(b: Base, l: Ledger, txs: seq<Transaction>, o: OfferId)
    requires SoundBase(b) && NoClash(b, l, txs) && forall i :: 0 <= i < |txs| ==> WellFormed(txs[i])
    ensures o in AllOffers(b, txs) <==> exists i :: 0 <= i < |txs| && Makes(b, txs, i, o)
    ensures forall i :: 0 <= i < |txs| && Makes(b, txs, i, o) ==> AllOffers(b, txs)[o] == TxOffers(b, txs[i])[o]
  {
    hide SoundBase, TxOffers, NoClash, WellFormed;
    if txs != [] {
      var init, tx := txs[..|txs| - 1], txs[|txs| - 1];
      assert txs == init + [tx];
      ClashSnoc(b, l, init, tx);
      OffersMade(b, l, init, o);
      assert forall i :: 0 <= i < |init| ==> (Makes(b, init, i, o) <==> Makes(b, txs, i, o));
      assert Makes(b, txs, |init|, o) <==> o in TxOffers(b, tx);
      if o in TxOffers(b, tx) {
        forall i | 0 <= i < |init| ensures !Makes(b, txs, i, o) {
          if Makes(b, txs, i, o) { OneMaker(b, l, txs, i, |init|, o); }
        }
      }
    }
  }

  /** The new offers do not depend on the order. */
  lemma OffersPermute(b: Base, l: Ledger, xs: seq<Transaction>, ys: seq<Transaction>)
    requires SoundBase(b) && multiset(xs) == multiset(ys) && NoClash(b, l, xs) && NoClash(b, l, ys)
    requires AllValid(b, xs) && AllValid(b, ys)
    ensures AllOffers(b, xs) == AllOffers(b, ys)
  {
    hide SoundBase, TxOffers, NoClash, AllOffers, AllValid, WellFormed;
    ValidWellFormed(b, xs);
    ValidWellFormed(b, ys);
    forall o
      ensures o in AllOffers(b, xs) <==> o in AllOffers(b, ys)
      ensures o in AllOffers(b, xs) ==> AllOffers(b, xs)[o] == AllOffers(b, ys)[o]
    {
      OffersMade(b, l, xs, o);
      OffersMade(b, l, ys, o);
      forall i | 0 <= i < |xs| && Makes(b, xs, i, o)
        ensures o in AllOffers(b, ys) && AllOffers(b, ys)[o] == TxOffers(b, xs[i])[o]
      {
        assert xs[i] in multiset(ys);
        var j :| 0 <= j < |ys| && ys[j] == xs[i];
        assert Makes(b, ys, j, o);
      }
      forall i | 0 <= i < |ys| && Makes(b, ys, i, o) ensures o in AllOffers(b, xs) {
        assert ys[i] in multiset(xs);
        var j :| 0 <= j < |xs| && xs[j] == ys[i];
        assert Makes(b, xs, j, o);
      }
    }
  }

  // ---- order does not matter ----

  lemma {:induction false} TallyRemove(b: Base, txs: seq<Transaction>, i: nat, f: Facet)
    requires SoundBase(b) && i < |txs|
    ensures Tally(b, txs, f) == Tally(b, txs[..i] + txs[i + 1..], f) + TxWeight(b, txs[i], f)
    decreases |txs|
  {
    hide SoundBase, TxWeight;
    var init, last := txs[..|txs| - 1], txs[|txs| - 1];
    if i == |txs| - 1 {
      assert txs[..i] + txs[i + 1..] == init;
    } else {
      TallyRemove(b, init, i, f);
      assert txs[..i] + txs[i + 1..] == (init[..i] + init[i + 1..]) + [last];
      TallySnoc(b, init[..i] + init[i + 1..], last, f);
    }
  }

  lemma WithoutOne<T>(txs: seq<T>, i: nat)
    requires i < |txs|
    ensures multiset(txs[..i] + txs[i + 1..]) == multiset(txs) - multiset{txs[i]}
  {
    assert txs == txs[..i] + [txs[i]] + txs[i + 1..];
  }

  lemma WithoutLast<T>(xs: seq<T>)
    requires xs != []
    ensures multiset(xs[..|xs| - 1]) == multiset(xs) - multiset{xs[|xs| - 1]}
  {
    assert xs == xs[..|xs| - 1] + [xs[|xs| - 1]];
  }

  /** Where the last element of one list is in another order of it. */
  lemma LastIn<T>(xs: seq<T>, ys: seq<T>) returns (i: nat)
    requires multiset(xs) == multiset(ys) && xs != []
    ensures i < |ys| && ys[i] == xs[|xs| - 1]
    ensures multiset(xs[..|xs| - 1]) == multiset(ys[..i] + ys[i + 1..])
  {
    var last := xs[|xs| - 1];
    assert last in multiset(xs);
    assert last in multiset(ys);
    i :| 0 <= i < |ys| && ys[i] == last;
    WithoutOne(ys, i);
    WithoutLast(xs);
  }

  lemma {:induction false} TallyPermutes(b: Base, xs: seq<Transaction>, ys: seq<Transaction>, f: Facet)
    requires SoundBase(b) && multiset(xs) == multiset(ys)
    ensures Tally(b, xs, f) == Tally(b, ys, f)
    decreases |xs|
  {
    hide SoundBase, TxWeight;
    if xs == [] {
      assert |multiset(ys)| == |ys| && |multiset(xs)| == 0;
    } else {
      var i := LastIn(xs, ys);
      TallyRemove(b, ys, i, f);
      TallyPermutes(b, xs[..|xs| - 1], ys[..i] + ys[i + 1..], f);
    }
  }

  lemma SameValid(b: Base, xs: seq<Transaction>, ys: seq<Transaction>)
    requires SoundBase(b) && multiset(xs) == multiset(ys) && AllValid(b, xs)
    ensures AllValid(b, ys)
  {
    hide SoundBase, Valid;
    forall i | 0 <= i < |ys| ensures Valid(b, ys[i]) {
      assert ys[i] in multiset(ys);
      assert ys[i] in multiset(xs);
    }
  }

  lemma ValidWellFormed(b: Base, txs: seq<Transaction>)
    requires SoundBase(b) && AllValid(b, txs)
    ensures forall i :: 0 <= i < |txs| ==> WellFormed(txs[i])
  {
    forall i | 0 <= i < |txs| ensures WellFormed(txs[i]) { assert Valid(b, txs[i]); }
  }

  /** Whatever the interleaving, a validator accepts the committed transactions in any
      order and comes to the producers' balances, none negative, to the same taken resources,
      and to the same new offers. */
  lemma AnyOrder(b: Base, g0: World, steps: seq<Step>, g: World, order: seq<Transaction>)
    requires SoundBase(b) && Solvent(g0.ledger) && AllIdle(g0.workers)
    requires g0.committed == [] && g0.offers == map[]
    requires Trace(b, g0, steps, g) && AllIdle(g.workers) && multiset(order) == multiset(g.committed)
    ensures forall i :: 0 <= i < |order| ==> WellFormed(order[i])
    ensures var d := Validate(b, g0.ledger, order);
      && d.Done? && d.ledger.taken == g.ledger.taken && d.ledger.rests == g0.ledger.rests + g.offers
      && forall c :: At(d.ledger.avail, c) == At(g.ledger.avail, c) >= 0
  {
    hide SoundBase, WellFormed, Valid, Trace, Validate, Level, AllOffers, TxOffers;
    EmptyOffers(b);
    InitialInv(b, g0);
    TraceKeeps(b, g0.ledger, g0, steps, g);
    SameValid(b, g.committed, order);
    ValidWellFormed(b, order);
    forall f ensures Level(g.ledger, f) == Level(g0.ledger, f) + Tally(b, order, f) {
      assert Level(g.ledger, f) == Level(g0.ledger, f) + Tally(b, g.committed, f) + DoneAll(b, g.workers, f);
      IdleDone(b, g.workers, f);
      TallyPermutes(b, order, g.committed, f);
    }
    forall r ensures Level(g0.ledger, Holding(r)) + Tally(b, order, Holding(r)) <= 1 {
      LevelAtMostOne(g.ledger, r);
      assert Level(g.ledger, Holding(r)) == Level(g0.ledger, Holding(r)) + Tally(b, order, Holding(r));
    }
    ValidatorExact(b, g0.ledger, order);
    forall r ensures Level(g0.ledger, Holding(r)) + Tally(b, g.committed, Holding(r)) <= 1 {
      TallyPermutes(b, order, g.committed, Holding(r));
      assert Level(g0.ledger, Holding(r)) + Tally(b, order, Holding(r)) <= 1;
    }
    OffersPermute(b, g0.ledger, order, g.committed);
    ValidateOffers(b, g0.ledger, order);
    SameLevels(Validate(b, g0.ledger, order).ledger, g.ledger);
  }

  lemma EmptyOffers(b: Base)
    requires SoundBase(b)
    ensures AllOffers(b, []) == map[]
  {
  }

  /** Equal levels are equal balances and equal taken resources. */
  lemma SameLevels(x: Ledger, y: Ledger)
    requires forall f :: Level(x, f) == Level(y, f)
    ensures x.taken == y.taken && forall c :: At(x.avail, c) == At(y.avail, c)
  {
    forall r ensures r in x.taken <==> r in y.taken { assert Level(x, Holding(r)) == Level(y, Holding(r)); }
    forall c ensures At(x.avail, c) == At(y.avail, c) { assert Level(x, Balance(c)) == Level(y, Balance(c)); }
  }

  // ---- a producer on its own ----

  /** The first n actions of a list, performed without interference. */
  function Solo(l: Ledger, tx: Transaction, acts: seq<Action>, n: nat): (Ledger, Worker)
    requires n <= |acts|
  {
    if n == 0 then (l, Running(tx, 0, View(map[], map[], {})))
    else
      var (m, k) := Solo(l, tx, acts, n - 1);
      if k.Running? then Perform(m, tx, n - 1, k.view, acts[n - 1]) else (m, k)
  }

  /** What a running worker would leave if it committed now. */
  ghost predicate Commits(d: Ledger, m: Ledger, v: View) {
    && d.taken == m.taken && Signs(v) && Solvent(m)
    && forall c :: At(d.avail, c) == At(m.avail, c) + At(v.buffer, c)
  }

  lemma PerformCommits(d: Ledger, m: Ledger, tx: Transaction, done: nat, v: View, a: Action)
    requires Commits(d, m, v)
    ensures var (n, k) := Perform(m, tx, done, v, a); var e := Apply(true, d, a);
      && (e.Done? <==> k.Running?)
      && (e.Done? ==> k.tx == tx && k.done == done + 1 && Commits(e.ledger, n, k.view))
      && (k.Running? || k.Unwinding?)
  {
    var (n, k) := Perform(m, tx, done, v, a);
    var e := Apply(true, d, a);
    if a.Debit? {
      assert At(d.avail, a.cell) == At(m.avail, a.cell) + At(v.buffer, a.cell);
      assert At(m.avail, a.cell) >= 0;
      if k.Running? && n != m { SolventPut(m, a.cell, At(n.avail, a.cell)); }
    }
    if e.Done? && k.Running? {
      forall c ensures At(e.ledger.avail, c) == At(n.avail, c) + At(k.view.buffer, c) {
        assert At(d.avail, c) == At(m.avail, c) + At(v.buffer, c);
      }
    }
  }

  /** Eager withdrawals and buffered credits accept exactly the transactions that a direct
      reading accepts, and committing comes to the same ledger. */
  lemma {:induction false} SoloDirect(l: Ledger, tx: Transaction, acts: seq<Action>, n: nat)
    requires Solvent(l) && n <= |acts|
    ensures var (m, k) := Solo(l, tx, acts, n); var d := Direct(true, l, acts[..n]);
      && (d.Done? <==> k.Running?) && (k.Running? || k.Unwinding?)
      && (d.Done? ==> k.tx == tx && k.done == n && Commits(d.ledger, m, k.view))
  {
    hide Commits, Perform, Apply, Solvent;
    if n == 0 {
      StartCommits(l);
    } else {
      SoloDirect(l, tx, acts, n - 1);
      var (m, k) := Solo(l, tx, acts, n - 1);
      var d := Direct(true, l, acts[..n - 1]);
      assert acts[..n] == acts[..n - 1] + [acts[n - 1]];
      DirectSnoc(true, l, acts[..n - 1], acts[n - 1]);
      if d.Done? { PerformCommits(d.ledger, m, tx, n - 1, k.view, acts[n - 1]); }
    }
  }

  lemma StartCommits(l: Ledger)
    requires Solvent(l)
    ensures Commits(l, l, View(map[], map[], {}))
  {
  }
}
