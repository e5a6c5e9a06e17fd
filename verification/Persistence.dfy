/** Batched persistence of orderbook thunks, and exactly when the five-phase batch
    leaves the book that applying the thunks one block at a time would leave.

    Keys are the trie keys read as big-endian numbers: price, then owner, then
    offer id. The database maps a key to the amount of its offer. */
module Persistence {

  type Key = nat

  /** Owner and offer id take the low 128 bits of a key. */
  const PRICE_SPAN: nat := 0x1_0000_0000_0000_0000_0000_0000_0000_0000
  /** The all-ones key that marks a thunk without a partially executed offer. */
  const MAX_KEY: nat := 0x1_0000_0000_0000 * PRICE_SPAN - 1

  function PriceOf(k: Key): nat { k / PRICE_SPAN }

  datatype Offer = Offer(key: Key, amount: nat)

  /** What one block did to the book: offers cancelled, offers added in key order, and
      the offer that partially executed, below which everything cleared. */
  datatype Thunk = Thunk(block: nat, deleted: seq<Key>, added: seq<Offer>,
                         existsPartial: bool, partialKey: Key, partialAmount: int)

  // ---- one block at a time ----

  ghost predicate IsAdded(added: seq<Offer>, k: Key) {
    exists i :: 0 <= i < |added| && added[i].key == k
  }

  ghost predicate SortedOffers(added: seq<Offer>) {
    forall i, j :: 0 <= i < j < |added| ==> added[i].key < added[j].key
  }

  function AddedMap(added: seq<Offer>): (m: map<Key, nat>)
    ensures forall k :: k in m <==> IsAdded(added, k)
    ensures SortedOffers(added) ==>
      forall i :: 0 <= i < |added| ==> added[i].key in m && m[added[i].key] == added[i].amount
  {
    if added == [] then map[]
    else
      var rest, last := added[..|added| - 1], added[|added| - 1];
      assert added == rest + [last];
      AddedSnoc(rest, last);
      AddedMap(rest)[last.key := last.amount]
  }

  lemma AddedSnoc(rest: seq<Offer>, last: Offer)
    ensures forall k :: IsAdded(rest + [last], k) <==> IsAdded(rest, k) || k == last.key
    ensures SortedOffers(rest + [last]) ==>
      SortedOffers(rest) && forall i :: 0 <= i < |rest| ==> rest[i].key < last.key
  {
    var added := rest + [last];
    assert added[|rest|] == last && forall i :: 0 <= i < |rest| ==> added[i] == rest[i];
  }

  /** The book once a block's cancellations and new offers are in. */
  function Committed(book: map<Key, nat>, t: Thunk): map<Key, nat> {
    (book - (set k | k in t.deleted)) + AddedMap(t.added)
  }

  /** The offers from a key up. */
  function From(book: map<Key, nat>, t: Key): map<Key, nat> {
    map k | k in book && t <= k :: book[k]
  }

  /** Apply one thunk: cancel, add, clear everything below the partial key, and shrink
      the partially executed offer; without one, everything clears. */
  function Apply(book: map<Key, nat>, t: Thunk): map<Key, nat> {
    if !t.existsPartial then map[]
    else
      var left := From(Committed(book, t), t.partialKey);
      if t.partialKey !in left then left
      else if left[t.partialKey] <= t.partialAmount then left - {t.partialKey}
      else left[t.partialKey := left[t.partialKey] - t.partialAmount]
  }

  function Run(book: map<Key, nat>, s: seq<Thunk>): map<Key, nat>
    decreases |s|
  {
    if s == [] then book else Run(Apply(book, s[0]), s[1..])
  }

  /** A thunk a block can leave behind: it cancels offers of the book, adds offers with
      keys never used before, and its partial offer is in the book and large enough. */
  ghost predicate ValidThunk(book: map<Key, nat>, used: set<Key>, t: Thunk) {
    && (forall k :: k in t.deleted ==> k in book)
    && (forall i, j :: 0 <= i < j < |t.deleted| ==> t.deleted[i] != t.deleted[j])
    && SortedOffers(t.added)
    && (forall i :: 0 <= i < |t.added| ==>
          t.added[i].key !in used && t.added[i].amount > 0 && t.added[i].key < MAX_KEY)
    && (if t.existsPartial
        then t.partialKey in Committed(book, t) && 0 <= t.partialAmount <= Committed(book, t)[t.partialKey]
        else t.partialKey == MAX_KEY)
  }

  ghost function UsedAfter(used: set<Key>, t: Thunk): set<Key> {
    used + AddedMap(t.added).Keys
  }

  /** A sequence of thunks blocks can leave behind, one after the other. */
  ghost predicate ValidRun(book: map<Key, nat>, used: set<Key>, s: seq<Thunk>)
    decreases |s|
  {
    && book.Keys <= used && (forall k :: k in book ==> book[k] > 0 && k < MAX_KEY)
    && (s != [] ==> ValidThunk(book, used, s[0]) && ValidRun(Apply(book, s[0]), UsedAfter(used, s[0]), s[1..]))
  }

  // ---- the fate of a key ----

  ghost predicate IsDeleted(s: seq<Thunk>, k: Key) {
    exists i :: 0 <= i < |s| && k in s[i].deleted
  }

  /** No thunk clears past k. */
  ghost predicate Uncleared(s: seq<Thunk>, k: Key) {
    forall i :: 0 <= i < |s| ==> s[i].partialKey <= k
  }

  function ShrunkBy(t: Thunk, k: Key): int {
    if t.existsPartial && t.partialKey == k then t.partialAmount else 0
  }

  /** Total partially executed at k. */
  function Shrunk(s: seq<Thunk>, k: Key): int {
    if s == [] then 0 else ShrunkBy(s[0], k) + Shrunk(s[1..], k)
  }

  /** An offer of this amount, in the book when the thunks begin, is left at the end. */
  ghost predicate Survives(s: seq<Thunk>, k: Key, amount: nat) {
    !IsDeleted(s, k) && Uncleared(s, k) && Shrunk(s, k) < amount
  }

  lemma IsDeletedCons(s: seq<Thunk>, k: Key)
    requires s != []
    ensures IsDeleted(s, k) <==> k in s[0].deleted || IsDeleted(s[1..], k)
    ensures Uncleared(s, k) <==> s[0].partialKey <= k && Uncleared(s[1..], k)
  {
    if IsDeleted(s, k) {
      var i :| 0 <= i < |s| && k in s[i].deleted;
      if i > 0 { assert s[1..][i - 1] == s[i]; }
    }
    if IsDeleted(s[1..], k) {
      var i :| 0 <= i < |s[1..]| && k in s[1..][i].deleted;
      assert s[i + 1] == s[1..][i];
    }
    if s[0].partialKey <= k && Uncleared(s[1..], k) {
      forall i | 0 <= i < |s| ensures s[i].partialKey <= k {
        if i > 0 { assert s[1..][i - 1] == s[i]; }
      }
    }
    if Uncleared(s, k) {
      forall i | 0 <= i < |s[1..]| ensures s[1..][i].partialKey <= k {
        assert s[i + 1] == s[1..][i];
      }
    }
  }

  lemma GoneStep(book: map<Key, nat>, used: set<Key>, t: Thunk, k: Key)
    requires book.Keys <= used && ValidThunk(book, used, t) && k in used && k !in book
    ensures !IsAdded(t.added, k) && k !in t.deleted && ShrunkBy(t, k) == 0 && (t.existsPartial ==> t.partialKey != k)
    ensures k !in Apply(book, t) && k in UsedAfter(used, t)
  {
    assert !IsAdded(t.added, k);
    assert k !in Committed(book, t);
  }

  /** A used key that has left the book never comes back into play. */
  lemma {:induction false} GoneForGood(book: map<Key, nat>, used: set<Key>, s: seq<Thunk>, k: Key)
    requires ValidRun(book, used, s) && k in used && k !in book
    ensures k !in Run(book, s) && !IsDeleted(s, k) && Shrunk(s, k) == 0
    ensures forall i :: 0 <= i < |s| ==> !IsAdded(s[i].added, k)
    ensures forall i :: 0 <= i < |s| && s[i].existsPartial ==> s[i].partialKey != k
    decreases |s|
  {
    if s != [] {
      hide ValidThunk, Apply, UsedAfter, IsAdded, IsDeleted, Uncleared, ShrunkBy;
      GoneStep(book, used, s[0], k);
      GoneForGood(Apply(book, s[0]), UsedAfter(used, s[0]), s[1..], k);
      IsDeletedCons(s, k);
      forall i | 0 <= i < |s| ensures !IsAdded(s[i].added, k) && (s[i].existsPartial ==> s[i].partialKey != k) {
        if i > 0 { assert s[i] == s[1..][i - 1]; }
      }
    }
  }

  /** One thunk's effect on a key of the committed book. */
  lemma ApplyAt(book: map<Key, nat>, t: Thunk, k: Key)
    requires k in Committed(book, t)
    requires t.existsPartial ==> 0 <= t.partialAmount
    ensures var amount := Committed(book, t)[k];
      k in Apply(book, t) <==> t.existsPartial && t.partialKey <= k && (t.partialKey == k ==> t.partialAmount < amount)
    ensures k in Apply(book, t) ==> Apply(book, t)[k] == Committed(book, t)[k] - ShrunkBy(t, k)
  {
  }

  /** The final state of an offer of the book, and the room left for its partial executions. */
  lemma {:induction false} BookKeyFate(book: map<Key, nat>, used: set<Key>, s: seq<Thunk>, k: Key)
    requires ValidRun(book, used, s) && k in book
    ensures 0 <= Shrunk(s, k) <= book[k]
    ensures k in Run(book, s) <==> Survives(s, k, book[k])
    ensures k in Run(book, s) ==> Run(book, s)[k] == book[k] - Shrunk(s, k)
    decreases |s|, 1
  {
    if s != [] {
      var t := s[0];
      assert !IsAdded(t.added, k);
      IsDeletedCons(s, k);
      RestFate(book, used, s, k);
    }
  }

  /** The state after the first thunk decides the rest, for a key that was in the book
      or has just been added. */
  lemma {:induction false} RestFate(book: map<Key, nat>, used: set<Key>, s: seq<Thunk>, k: Key)
    requires ValidRun(book, used, s) && s != []
    requires k in book || IsAdded(s[0].added, k)
    ensures k in s[0].deleted ==> k !in Run(book, s) && Shrunk(s, k) == 0
    ensures k !in s[0].deleted ==> k in Committed(book, s[0])
    ensures k !in s[0].deleted ==> 0 <= Shrunk(s, k) <= Committed(book, s[0])[k]
    ensures k !in s[0].deleted ==> (k in Run(book, s) <==> Survives(s, k, Committed(book, s[0])[k]))
    ensures k !in s[0].deleted && k in Run(book, s) ==> Run(book, s)[k] == Committed(book, s[0])[k] - Shrunk(s, k)
    decreases |s|, 0
  {
    var t := s[0];
    var next, used' := Apply(book, t), UsedAfter(used, t);
    IsDeletedCons(s, k);
    assert k in used';
    assert k in book ==> !IsAdded(t.added, k);
    if k in t.deleted {
      assert k !in Committed(book, t);
      GoneForGood(next, used', s[1..], k);
    } else {
      ApplyAt(book, t, k);
      if k in next {
        BookKeyFate(next, used', s[1..], k);
      } else {
        GoneForGood(next, used', s[1..], k);
      }
    }
  }

  lemma {:induction false} UsedNeverAdded(book: map<Key, nat>, used: set<Key>, s: seq<Thunk>, k: Key)
    requires ValidRun(book, used, s) && k in used
    ensures forall i :: 0 <= i < |s| ==> !IsAdded(s[i].added, k)
    decreases |s|
  {
    if s != [] {
      UsedNeverAdded(Apply(book, s[0]), UsedAfter(used, s[0]), s[1..], k);
      forall i | 0 <= i < |s| ensures !IsAdded(s[i].added, k) {
        if i > 0 { assert s[i] == s[1..][i - 1]; }
      }
    }
  }

  /** An offer no block has added yet is not cancelled or partially executed. */
  lemma NotYetTouched(book: map<Key, nat>, used: set<Key>, t: Thunk, k: Key)
    requires book.Keys <= used && ValidThunk(book, used, t) && k !in used && !IsAdded(t.added, k)
    ensures k !in t.deleted && ShrunkBy(t, k) == 0 && k !in Apply(book, t) && k !in UsedAfter(used, t)
    ensures t.existsPartial ==> t.partialKey != k
  {
    assert k !in Committed(book, t);
  }

  /** The final state of an offer added in thunk c. */
  lemma {:induction false} CreatedKeyFate(book: map<Key, nat>, used: set<Key>, s: seq<Thunk>, c: nat, i: nat)
    requires ValidRun(book, used, s) && c < |s| && i < |s[c].added|
    ensures var o := s[c].added[i];
      && o.key !in used && o.amount > 0
      && (IsDeleted(s, o.key) <==> IsDeleted(s[c..], o.key))
      && Shrunk(s, o.key) == Shrunk(s[c..], o.key) && 0 <= Shrunk(s, o.key) <= o.amount
      && (o.key in Run(book, s) <==> Survives(s[c..], o.key, o.amount))
      && (o.key in Run(book, s) ==> Run(book, s)[o.key] == o.amount - Shrunk(s, o.key))
      && (forall j :: 0 <= j < c && s[j].existsPartial ==> s[j].partialKey != o.key)
    decreases |s|
  {
    var k := s[c].added[i].key;
    assert IsAdded(s[c].added, k);
    if k in used { UsedNeverAdded(book, used, s, k); }
    if c == 0 {
      assert s[0..] == s;
      RestFate(book, used, s, k);
    } else {
      var next, used' := Apply(book, s[0]), UsedAfter(used, s[0]);
      assert s[1..][c - 1] == s[c] && s[1..][c - 1..] == s[c..];
      CreatedKeyFate(next, used', s[1..], c - 1, i);
      NotYetTouched(book, used, s[0], k);
      IsDeletedCons(s, k);
      forall j | 0 <= j < c && s[j].existsPartial ensures s[j].partialKey != k {
        if j > 0 { assert s[j] == s[1..][j - 1]; }
      }
    }
  }

  lemma ApplyOut(book: map<Key, nat>, t: Thunk, k: Key)
    requires k !in book && !IsAdded(t.added, k)
    ensures k !in Apply(book, t)
  {
    assert k !in Committed(book, t);
  }

  /** A key that is neither in the book nor added by any thunk stays out. */
  lemma {:induction false} StrangerStaysOut(book: map<Key, nat>, used: set<Key>, s: seq<Thunk>, k: Key)
    requires ValidRun(book, used, s) && k !in book
    requires forall i :: 0 <= i < |s| ==> !IsAdded(s[i].added, k)
    ensures k !in Run(book, s)
    decreases |s|
  {
    if s != [] {
      ApplyOut(book, s[0], k);
      hide Apply, IsAdded;
      forall i | 0 <= i < |s[1..]| ensures !IsAdded(s[1..][i].added, k) {
        assert s[1..][i] == s[i + 1];
      }
      StrangerStaysOut(Apply(book, s[0]), UsedAfter(used, s[0]), s[1..], k);
    }
  }

  /** An offer is added by one thunk only, and once. */
  lemma {:induction false} AddedOnce(book: map<Key, nat>, used: set<Key>, s: seq<Thunk>, c: nat, d: nat, k: Key)
    requires ValidRun(book, used, s) && c < d < |s| && IsAdded(s[c].added, k)
    ensures !IsAdded(s[d].added, k)
    decreases |s|
  {
    var next, used' := Apply(book, s[0]), UsedAfter(used, s[0]);
    assert s[1..][d - 1] == s[d];
    if c == 0 {
      UsedNeverAdded(next, used', s[1..], k);
    } else {
      assert s[1..][c - 1] == s[c];
      AddedOnce(next, used', s[1..], c - 1, d - 1, k);
    }
  }

  // ---- the batch ----

  /** Offer i of thunk c is written: it and every offer above it in the thunk is neither
      cleared from thunk c on nor among the keys to be deleted later. */
  ghost predicate Put(s: seq<Thunk>, c: nat, i: nat, later: set<Key>)
    requires c < |s|
  {
    forall j :: i <= j < |s[c].added| ==> Uncleared(s[c..], s[c].added[j].key) && s[c].added[j].key !in later
  }

  /** now is was with the offers written for thunks from and above. */
  ghost predicate PutsDone(was: map<Key, nat>, now: map<Key, nat>, s: seq<Thunk>, from: nat, later: set<Key>) {
    && (forall k :: k in was ==> k in now && now[k] == was[k])
    && (forall c, i :: from <= c < |s| && 0 <= i < |s[c].added| && Put(s, c, i, later) ==>
          s[c].added[i].key in now && now[s[c].added[i].key] == s[c].added[i].amount)
    && (forall k :: k in now && k !in was ==>
          exists c, i :: from <= c < |s| && 0 <= i < |s[c].added| && Put(s, c, i, later) && s[c].added[i].key == k)
  }

  /** The amounts left once the partial executions are taken off. */
  ghost predicate ShrinksDone(was: map<Key, nat>, now: map<Key, nat>, s: seq<Thunk>) {
    && (forall k :: k in now <==> k in was && Shrunk(s, k) < was[k])
    && (forall k :: k in now ==> now[k] == was[k] - Shrunk(s, k))
  }

  ghost predicate Outrun(s: seq<Thunk>, i: nat, k: Key)
    requires i < |s|
  {
    s[i].existsPartial && s[i].partialKey == k && exists f :: i < f < |s| && k < s[f].partialKey
  }

  /** A partial offer of one of the first n thunks that a later thunk clears. */
  ghost predicate OutrunBefore(s: seq<Thunk>, n: nat, k: Key)
    requires n <= |s|
  {
    exists i :: 0 <= i < n && Outrun(s, i, k)
  }

  lemma OutrunSnoc(s: seq<Thunk>, i: nat)
    requires i < |s|
    ensures forall k :: OutrunBefore(s, i + 1, k) <==> OutrunBefore(s, i, k) || Outrun(s, i, k)
  {
  }

  /** Every added key is new to the batch's disk and to its other thunks. */
  ghost predicate FreshKeys(db: map<Key, nat>, s: seq<Thunk>) {
    && (forall c, i :: 0 <= c < |s| && 0 <= i < |s[c].added| ==> s[c].added[i].key !in db && s[c].added[i].amount > 0)
    && (forall c, d, i, j :: 0 <= c < d < |s| && 0 <= i < |s[c].added| && 0 <= j < |s[d].added| ==>
          s[c].added[i].key != s[d].added[j].key)
    && (forall c :: 0 <= c < |s| ==> SortedOffers(s[c].added))
  }

  /** Every partial amount taken off fits. */
  ghost predicate RoomToShrink(db: map<Key, nat>, s: seq<Thunk>) {
    && (forall i :: 0 <= i < |s| && s[i].existsPartial ==> s[i].partialAmount >= 0)
    && (forall k :: k in db ==> Shrunk(s, k) <= db[k] && db[k] > 0)
  }

  lemma {:induction false} ShrunkPrefix(s: seq<Thunk>, k: Key, i: nat)
    requires i <= |s|
    requires forall j :: 0 <= j < |s| && s[j].existsPartial ==> s[j].partialAmount >= 0
    ensures 0 <= Shrunk(s[..i], k) <= Shrunk(s, k)
    ensures i < |s| ==> Shrunk(s[..i + 1], k) == Shrunk(s[..i], k) + ShrunkBy(s[i], k)
    decreases |s|
  {
    if s != [] && i > 0 {
      ShrunkPrefix(s[1..], k, i - 1);
      assert s[..i][1..] == s[1..][..i - 1];
      if i < |s| { assert s[..i + 1][1..] == s[1..][..i]; }
    } else if s != [] {
      ShrunkPrefix(s[1..], k, 0);
      assert s[..1][1..] == [];
    }
  }

  datatype WriteStatus = NothingToWrite | BlockTooSmall | Failed | Written

  function Relevant(thunks: seq<Thunk>, current: nat): seq<Thunk> {
    if thunks == [] then []
    else if thunks[0].block <= current then [thunks[0]] + Relevant(thunks[1..], current)
    else Relevant(thunks[1..], current)
  }

  function Later(thunks: seq<Thunk>, current: nat): seq<Thunk> {
    if thunks == [] then []
    else if thunks[0].block <= current then Later(thunks[1..], current)
    else [thunks[0]] + Later(thunks[1..], current)
  }

  lemma Regroup<T>(x: T, a: seq<T>, b: seq<T>, c: seq<T>)
    ensures [x] + (a + b + c) == ([x] + a) + b + c
  {
  }

  lemma TailOf<T>(a: seq<T>, t: T, b: seq<T>)
    requires a != []
    ensures (a + [t] + b)[0] == a[0] && (a + [t] + b)[1..] == a[1..] + [t] + b
  {
  }

  /** A thunk anywhere in the queue is written, in its place, exactly when its block is at most
      the current one, */
  lemma {:induction false} TakenInPlace(before: seq<Thunk>, t: Thunk, after: seq<Thunk>, current: nat)
    ensures Relevant(before + [t] + after, current) ==
      Relevant(before, current) + (if t.block <= current then [t] else []) + Relevant(after, current)
    decreases |before|
  {
    if before == [] {
      assert (before + [t] + after)[0] == t && (before + [t] + after)[1..] == after;
    } else {
      var x, mid := before[0], if t.block <= current then [t] else [];
      TailOf(before, t, after);
      TakenInPlace(before[1..], t, after, current);
      Regroup(x, Relevant(before[1..], current), mid, Relevant(after, current));
    }
  }

  /** and stays in its place otherwise. */
  lemma {:induction false} KeptInPlace(before: seq<Thunk>, t: Thunk, after: seq<Thunk>, current: nat)
    ensures Later(before + [t] + after, current) ==
      Later(before, current) + (if t.block <= current then [] else [t]) + Later(after, current)
    decreases |before|
  {
    if before == [] {
      assert (before + [t] + after)[0] == t && (before + [t] + after)[1..] == after;
    } else {
      var x, mid := before[0], if t.block <= current then [] else [t];
      TailOf(before, t, after);
      KeptInPlace(before[1..], t, after, current);
      Regroup(x, Later(before[1..], current), mid, Later(after, current));
    }
  }

  class OrderbookLMDB {
    var db: map<Key, nat>
    var thunks: seq<Thunk>
    const persistedRound: nat

    constructor (round: nat)
      ensures db == map[] && thunks == [] && persistedRound == round
    {
      db, thunks, persistedRound := map[], [], round;
    }

    /** Move the thunks up to the current block out of the queue. */
    method TakeRelevant(current: nat) returns (relevant: seq<Thunk>)
      modifies this`thunks
      ensures relevant == Relevant(old(thunks), current) && thunks == Later(old(thunks), current)
    {
      relevant := [];
      var i := 0;
      while i < |thunks|
        invariant 0 <= i <= |thunks|
        invariant Relevant(old(thunks), current) == relevant + Relevant(thunks[i..], current)
        invariant Later(old(thunks), current) == thunks[..i] + Later(thunks[i..], current)
        decreases |thunks| - i
      {
        ghost var rest := thunks[i..];
        if thunks[i].block <= current {
          relevant := relevant + [thunks[i]];
          thunks := thunks[..i] + thunks[i + 1..];
          assert thunks[i..] == rest[1..];
        } else {
          i := i + 1;
          assert thunks[i..] == rest[1..];
          assert thunks[..i] == thunks[..i - 1] + [rest[0]];
        }
      }
    }

    /** Delete keys from disk, collecting those that are not there. */
    method DeleteKeys(keys: seq<Key>, later: set<Key>) returns (later': set<Key>)
      modifies this`db
      ensures forall k :: k in db <==> k in old(db) && k !in keys
      ensures forall k :: k in db ==> db[k] == old(db)[k]
      ensures forall k :: k in later' ==> k in later || k in keys
      ensures forall k :: k in later || (k !in old(db) && k in keys) ==> k in later'
    {
      later' := later;
      for d := 0 to |keys|
        invariant forall k :: k in db <==> k in old(db) && k !in keys[..d]
        invariant forall k :: k in db ==> db[k] == old(db)[k]
        invariant forall k :: k in later' ==> k in later || k in keys[..d]
        invariant forall k :: k in later || (k !in old(db) && k in keys[..d]) ==> k in later'
      {
        assert keys[..d + 1] == keys[..d] + [keys[d]];
        if keys[d] in db {
          db := db - {keys[d]};
        } else {
          later' := later' + {keys[d]};
        }
      }
      assert keys[..|keys|] == keys;
    }

    /** Phase 1: delete the cancelled keys that are on disk, remember the others, and
        find the greatest partial key. */
    method DeleteCancelled(s: seq<Thunk>) returns (later: set<Key>, keySet: bool, cut: Key)
      modifies this`db
      ensures forall k :: k in db <==> k in old(db) && !IsDeleted(s, k)
      ensures forall k :: k in db ==> db[k] == old(db)[k]
      ensures forall k :: k in later ==> IsDeleted(s, k)
      ensures forall k :: k !in old(db) && IsDeleted(s, k) ==> k in later
      ensures keySet <==> exists i :: 0 <= i < |s| && s[i].existsPartial
      ensures forall i :: 0 <= i < |s| && s[i].existsPartial ==> s[i].partialKey <= cut
      ensures cut == 0 || exists i :: 0 <= i < |s| && s[i].existsPartial && s[i].partialKey == cut
    {
      hide IsDeleted;
      later, keySet, cut := {}, false, 0;
      NothingDeleted();
      for i := 0 to |s|
        invariant s[..0] == []
        invariant forall k :: k in db <==> k in old(db) && !IsDeleted(s[..i], k)
        invariant forall k :: k in db ==> db[k] == old(db)[k]
        invariant forall k :: k in later ==> IsDeleted(s[..i], k)
        invariant forall k :: k !in old(db) && IsDeleted(s[..i], k) ==> k in later
        invariant keySet <==> exists j :: 0 <= j < i && s[j].existsPartial
        invariant forall j :: 0 <= j < i && s[j].existsPartial ==> s[j].partialKey <= cut
        invariant cut == 0 || exists j :: 0 <= j < i && s[j].existsPartial && s[j].partialKey == cut
      {
        later := DeleteKeys(s[i].deleted, later);
        IsDeletedSnoc(s, i);
        if s[i].existsPartial {
          keySet := true;
          if cut < s[i].partialKey { cut := s[i].partialKey; }
        }
      }
      assert s[..|s|] == s;
    }

    /** Phase 2: delete everything below the cut, or everything if no thunk has a cut. */
    method ClearBelow(keySet: bool, cut: Key)
      modifies this`db
      ensures forall k :: k in db <==> k in old(db) && keySet && cut <= k
      ensures forall k :: k in db ==> db[k] == old(db)[k]
    {
      var doomed := set k | k in db && (!keySet || k < cut);
      while doomed != {}
        invariant doomed == set k | k in db && (!keySet || k < cut)
        invariant forall k :: k in db ==> k in old(db) && db[k] == old(db)[k]
        invariant forall k :: k in old(db) && keySet && cut <= k ==> k in db
        decreases |doomed|
      {
        var k :| k in doomed;
        db := db - {k};
        doomed := doomed - {k};
      }
      assert forall k :: k in db ==> k !in doomed;
    }

    /** Write one thunk's offers from the greatest key down, stopping at the first that
        is below the cut or will be deleted later. */
    method PutOffers(added: seq<Offer>, keyBuf: Key, later: set<Key>) returns (ok: bool)
      requires SortedOffers(added)
      requires forall i :: 0 <= i < |added| ==> added[i].amount > 0 && added[i].key !in db
      modifies this`db
      ensures ok
      ensures forall k :: k in old(db) ==> k in db && db[k] == old(db)[k]
      ensures forall i :: 0 <= i < |added| && WrittenFrom(added, i, keyBuf, later) ==>
        added[i].key in db && db[added[i].key] == added[i].amount
      ensures forall k :: k in db && k !in old(db) ==>
        exists i :: 0 <= i < |added| && WrittenFrom(added, i, keyBuf, later) && added[i].key == k
    {
      var minExecPrice := PriceOf(keyBuf);
      var idx := |added|;
      while idx > 0
        invariant 0 <= idx <= |added|
        invariant WrittenFrom(added, idx, keyBuf, later)
        invariant forall k :: k in old(db) ==> k in db && db[k] == old(db)[k]
        invariant forall i :: idx <= i < |added| ==> added[i].key in db && db[added[i].key] == added[i].amount
        invariant forall k :: k in db && k !in old(db) ==> exists i :: idx <= i < |added| && added[i].key == k
      {
        var offer := added[idx - 1];
        if offer.amount == 0 { return false; }
        if PriceOf(offer.key) < minExecPrice { break; }
        var dbPut := PriceOf(offer.key) > minExecPrice || offer.key >= keyBuf;
        if offer.key in later { dbPut := false; }
        assert dbPut <==> keyBuf <= offer.key && offer.key !in later;
        if !dbPut { break; }
        db := db[offer.key := offer.amount];
        idx := idx - 1;
      }
      assert idx > 0 ==> !(keyBuf <= added[idx - 1].key && added[idx - 1].key !in later);
      assert forall i :: 0 <= i < idx ==> !WrittenFrom(added, i, keyBuf, later);
      ok := true;
    }

    /** Phase 3: from the last thunk back, with the cut rolling up, write the new offers. */
    method PutNewOffers(s: seq<Thunk>, later: set<Key>) returns (ok: bool)
      requires FreshKeys(db, s)
      modifies this`db
      ensures ok && PutsDone(old(db), db, s, 0, later)
    {
      hide WrittenFrom, Put, Uncleared;
      var keyBuf: Key := 0;
      var i := |s|;
      NothingUncleared(s);
      while i > 0
        invariant 0 <= i <= |s|
        invariant forall k: Key :: keyBuf <= k <==> Uncleared(s[i..], k)
        invariant PutsDone(old(db), db, s, i, later)
        invariant forall c, j :: 0 <= c < i && 0 <= j < |s[c].added| ==> s[c].added[j].key !in db
      {
        i := i - 1;
        if keyBuf < s[i].partialKey { keyBuf := s[i].partialKey; }
        UnclearedCons(s, i);
        ghost var was := db;
        ok := PutOffers(s[i].added, keyBuf, later);
        WrittenIsPut(s, i, keyBuf, later);
      }
      ok := true;
    }

    /** Phase 4: take the partial executions off the offers that are on disk. */
    method ShrinkPartial(s: seq<Thunk>) returns (ok: bool)
      requires RoomToShrink(db, s)
      modifies this`db
      ensures ok && ShrinksDone(old(db), db, s)
    {
      for i := 0 to |s|
        invariant ShrinksDone(old(db), db, s[..i])
      {
        var t := s[i];
        forall k ensures 0 <= Shrunk(s[..i], k) && Shrunk(s[..i + 1], k) == Shrunk(s[..i], k) + ShrunkBy(t, k) {
          ShrunkPrefix(s, k, i);
        }
        if t.existsPartial {
          ShrunkPrefix(s, t.partialKey, i + 1);
          if t.partialKey in db {
            var amount := db[t.partialKey];
            if t.partialAmount < 0 || t.partialAmount > amount { return false; }
            if amount - t.partialAmount > 0 {
              db := db[t.partialKey := amount - t.partialAmount];
            } else {
              db := db - {t.partialKey};
            }
          }
        }
      }
      assert s[..|s|] == s;
      ok := true;
    }

    /** Phase 5: delete partial offers that a later thunk clears. */
    method ClearOutrun(s: seq<Thunk>)
      modifies this`db
      ensures forall k :: k in db <==> k in old(db) && !OutrunBefore(s, |s|, k)
      ensures forall k :: k in db ==> db[k] == old(db)[k]
    {
      for i := 0 to |s|
        invariant forall k :: k in db <==> k in old(db) && !OutrunBefore(s, i, k)
        invariant forall k :: k in db ==> db[k] == old(db)[k]
      {
        OutrunSnoc(s, i);
        if s[i].existsPartial {
          ghost var was := db;
          for future := i + 1 to |s|
            invariant forall k :: k in db <==>
              (k in was && !(k == s[i].partialKey && exists f :: i < f < future && k < s[f].partialKey))
            invariant forall k :: k in db ==> db[k] == was[k]
          {
            if s[i].partialKey < s[future].partialKey {
              db := db - {s[i].partialKey};
            }
          }
        }
      }
    }

    /** The five phases. */
    method WriteBatch(s: seq<Thunk>, ghost used: set<Key>)
      requires ValidRun(db, used, s) && s != []
      modifies this`db
      ensures db == Run(old(db), s) <==> BatchExact(old(db), s)
      ensures BatchLeaves(old(db), s, db)
    {
      hide PutsDone, ShrinksDone, FreshKeys, RoomToShrink, OutrunBefore, BatchExact, IsDeleted, Run, ValidRun, Shrunk,
        SortedOffers, BatchLeaves;
      ghost var d0 := db;
      var later, keySet, cut := DeleteCancelled(s);
      ClearBelow(keySet, cut);
      ghost var d2 := db;
      ValidFresh(d0, used, s, d2);
      var ok := PutNewOffers(s, later);
      ghost var d3 := db;
      ValidRoom(d0, used, s, d2, d3, later);
      ok := ShrinkPartial(s);
      ghost var d4 := db;
      ClearOutrun(s);
      ghost var b := Batch(later, keySet, cut, d2, d3, d4);
      assert BatchSteps(d0, s, b, db);
      BatchDecides(d0, used, s, b, db);
      LeavesThat(d0, used, s, b, db);
    }

    /** Persist every thunk up to the current block. On any batch blocks can leave
        behind no write error arises, and the disk ends as one block at a time would
        leave it exactly when the batch has no stale and no blocked offer. */
    method WriteThunks(current: nat, ghost used: set<Key>) returns (status: WriteStatus)
      requires ValidRun(db, used, Relevant(thunks, current))
      modifies this
      ensures thunks == Later(old(thunks), current)
      ensures status != Failed
      ensures status == NothingToWrite <==> Relevant(old(thunks), current) == []
      ensures status == BlockTooSmall <==>
        Relevant(old(thunks), current) != [] && Relevant(old(thunks), current)[0].block < persistedRound + 1
      ensures status != Written ==> db == old(db)
      ensures status == Written ==>
        (db == Run(old(db), Relevant(old(thunks), current)) <==> BatchExact(old(db), Relevant(old(thunks), current)))
      ensures status == Written ==> BatchLeaves(old(db), Relevant(old(thunks), current), db)
    {
      var s := TakeRelevant(current);
      if s == [] { return NothingToWrite; }
      if s[0].block < persistedRound + 1 { return BlockTooSmall; }
      WriteBatch(s, used);
      return Written;
    }
  }

  /** Offer i and everything above it passes the cut and is not deleted later. */
  ghost predicate WrittenFrom(added: seq<Offer>, i: nat, keyBuf: Key, later: set<Key>) {
    forall j :: i <= j < |added| ==> keyBuf <= added[j].key && added[j].key !in later
  }

  lemma NothingUncleared(s: seq<Thunk>)
    ensures forall k: Key :: Uncleared(s[|s|..], k)
  {
  }

  lemma UnclearedCons(s: seq<Thunk>, i: nat)
    requires i < |s|
    ensures forall k: Key :: Uncleared(s[i..], k) <==> s[i].partialKey <= k && Uncleared(s[i + 1..], k)
  {
    forall k: Key ensures Uncleared(s[i..], k) <==> s[i].partialKey <= k && Uncleared(s[i + 1..], k) {
      assert s[i..][1..] == s[i + 1..];
      IsDeletedCons(s[i..], k);
    }
  }

  lemma WrittenIsPut(s: seq<Thunk>, c: nat, keyBuf: Key, later: set<Key>)
    requires c < |s|
    requires forall k: Key :: keyBuf <= k <==> Uncleared(s[c..], k)
    ensures forall i: nat :: WrittenFrom(s[c].added, i, keyBuf, later) <==> Put(s, c, i, later)
  {
  }

  lemma NothingDeleted()
    ensures forall k :: !IsDeleted([], k)
  {
  }

  lemma IsDeletedSnoc(s: seq<Thunk>, i: nat)
    requires i < |s|
    ensures forall k :: IsDeleted(s[..i + 1], k) <==> IsDeleted(s[..i], k) || k in s[i].deleted
  {
    forall k ensures IsDeleted(s[..i + 1], k) <==> IsDeleted(s[..i], k) || k in s[i].deleted {
      if IsDeleted(s[..i], k) {
        var j :| 0 <= j < i && k in s[..i][j].deleted;
        assert s[..i + 1][j] == s[j];
      }
      if k in s[i].deleted { assert s[..i + 1][i] == s[i]; }
      if IsDeleted(s[..i + 1], k) {
        var j :| 0 <= j < i + 1 && k in s[..i + 1][j].deleted;
        if j < i { assert s[..i][j] == s[j]; }
      }
    }
  }

  // ---- the batch against the blocks one at a time ----

  /** The intermediate results of a batch. */
  datatype Batch = Batch(later: set<Key>, keySet: bool, cut: Key,
                         cleared: map<Key, nat>, put: map<Key, nat>, shrunk: map<Key, nat>)

  ghost predicate BatchSteps(d0: map<Key, nat>, s: seq<Thunk>, b: Batch, d5: map<Key, nat>) {
    && (forall k :: k in b.later ==> IsDeleted(s, k))
    && (forall k :: k !in d0 && IsDeleted(s, k) ==> k in b.later)
    && (b.keySet <==> exists i :: 0 <= i < |s| && s[i].existsPartial)
    && (forall i :: 0 <= i < |s| && s[i].existsPartial ==> s[i].partialKey <= b.cut)
    && (b.cut == 0 || exists i :: 0 <= i < |s| && s[i].existsPartial && s[i].partialKey == b.cut)
    && (forall k :: k in b.cleared <==> k in d0 && !IsDeleted(s, k) && b.keySet && b.cut <= k)
    && (forall k :: k in b.cleared ==> b.cleared[k] == d0[k])
    && PutsDone(b.cleared, b.put, s, 0, b.later)
    && ShrinksDone(b.put, b.shrunk, s)
    && (forall k :: k in d5 <==> k in b.shrunk && !OutrunBefore(s, |s|, k))
    && (forall k :: k in d5 ==> d5[k] == b.shrunk[k])
  }

  /** Some thunk clears the whole book, others do not, and this offer on disk is above
      every partial key: the batch forgets to clear it. */
  ghost predicate Stale(s: seq<Thunk>, k: Key) {
    && (exists i :: 0 <= i < |s| && s[i].existsPartial)
    && (exists i :: 0 <= i < |s| && !s[i].existsPartial)
    && !IsDeleted(s, k)
    && forall i :: 0 <= i < |s| && s[i].existsPartial ==> s[i].partialKey < k
  }

  /** An offer above it in the same thunk is cancelled later in the batch: the batch
      stops writing the thunk's offers before reaching this one. */
  ghost predicate Blocked(s: seq<Thunk>, c: nat, i: nat)
    requires c < |s|
  {
    exists j :: i < j < |s[c].added| && IsDeleted(s, s[c].added[j].key)
  }

  ghost predicate SurvivesFrom(s: seq<Thunk>, c: nat, i: nat)
    requires c < |s| && i < |s[c].added|
  {
    Survives(s[c..], s[c].added[i].key, s[c].added[i].amount)
  }

  /** No offer on disk is stale and no offer left standing is blocked. */
  ghost predicate BatchExact(d0: map<Key, nat>, s: seq<Thunk>) {
    && (forall k :: k in d0 ==> !Stale(s, k))
    && (forall c, i :: 0 <= c < |s| && 0 <= i < |s[c].added| && Blocked(s, c, i) ==> !SurvivesFrom(s, c, i))
  }

  /** What a batch leaves, exact or not: on top of the blocks one at a time the stale offers stay,
      and the blocked ones are missing. */
  ghost predicate BatchLeaves(d0: map<Key, nat>, s: seq<Thunk>, d5: map<Key, nat>) {
    && (forall k :: k in d0 ==> LeftOfDisk(d0, s, d5, k))
    && (forall c, i :: 0 <= c < |s| && 0 <= i < |s[c].added| ==> LeftOfNew(d0, s, d5, c, i))
    && (forall k :: k in d5 && k !in d0 ==> exists c :: 0 <= c < |s| && IsAdded(s[c].added, k))
  }

  ghost predicate LeftOfDisk(d0: map<Key, nat>, s: seq<Thunk>, d5: map<Key, nat>, k: Key)
    requires k in d0
  {
    && (k in d5 <==> k in Run(d0, s) || Stale(s, k))
    && (k in d5 ==> d5[k] == if k in Run(d0, s) then Run(d0, s)[k] else d0[k])
  }

  ghost predicate LeftOfNew(d0: map<Key, nat>, s: seq<Thunk>, d5: map<Key, nat>, c: nat, i: nat)
    requires c < |s| && i < |s[c].added|
  {
    var k := s[c].added[i].key;
    && (k in d5 <==> k in Run(d0, s) && !Blocked(s, c, i))
    && (k in d5 ==> d5[k] == Run(d0, s)[k])
  }

  lemma ValidFresh(d0: map<Key, nat>, used: set<Key>, s: seq<Thunk>, d2: map<Key, nat>)
    requires ValidRun(d0, used, s) && d2.Keys <= d0.Keys
    ensures FreshKeys(d2, s)
  {
    forall c, i | 0 <= c < |s| && 0 <= i < |s[c].added|
      ensures s[c].added[i].key !in d2 && s[c].added[i].amount > 0
    {
      CreatedKeyFate(d0, used, s, c, i);
    }
    forall c, d, i, j | 0 <= c < d < |s| && 0 <= i < |s[c].added| && 0 <= j < |s[d].added|
      ensures s[c].added[i].key != s[d].added[j].key
    {
      AddedOnce(d0, used, s, c, d, s[c].added[i].key);
    }
    forall c | 0 <= c < |s| ensures SortedOffers(s[c].added) {
      ValidAt(d0, used, s, c);
    }
  }

  lemma {:induction false} ValidAt(book: map<Key, nat>, used: set<Key>, s: seq<Thunk>, c: nat)
    requires ValidRun(book, used, s) && c < |s|
    ensures SortedOffers(s[c].added)
    ensures s[c].existsPartial ==> s[c].partialAmount >= 0 && s[c].partialKey < MAX_KEY
    ensures !s[c].existsPartial ==> s[c].partialKey == MAX_KEY
    ensures forall k :: k in book ==> k < MAX_KEY && book[k] > 0 && k in used
    decreases |s|
  {
    hide Apply, UsedAfter, AddedMap;
    if c > 0 {
      assert s[c] == s[1..][c - 1];
      ValidAt(Apply(book, s[0]), UsedAfter(used, s[0]), s[1..], c - 1);
    } else if s[0].existsPartial {
      assert s[0].partialKey in book || IsAdded(s[0].added, s[0].partialKey);
    }
  }

  lemma ValidRoom(d0: map<Key, nat>, used: set<Key>, s: seq<Thunk>, d2: map<Key, nat>, d3: map<Key, nat>,
                  later: set<Key>)
    requires ValidRun(d0, used, s) && d2.Keys <= d0.Keys && (forall k :: k in d2 ==> d2[k] == d0[k])
    requires PutsDone(d2, d3, s, 0, later)
    ensures RoomToShrink(d3, s)
  {
    forall i | 0 <= i < |s| && s[i].existsPartial ensures s[i].partialAmount >= 0 {
      ValidAt(d0, used, s, i);
    }
    forall k | k in d3 ensures Shrunk(s, k) <= d3[k] && d3[k] > 0 {
      if k in d2 {
        BookKeyFate(d0, used, s, k);
      } else {
        var c, i :| 0 <= c < |s| && 0 <= i < |s[c].added| && Put(s, c, i, later) && s[c].added[i].key == k;
        CreatedKeyFate(d0, used, s, c, i);
      }
    }
  }

  /** After a thunk that clears the whole book, no offer used before it is partially executed. */
  lemma {:induction false} ClearedForGood(book: map<Key, nat>, used: set<Key>, s: seq<Thunk>, c: nat, i: nat)
    requires ValidRun(book, used, s) && c < i < |s| && !s[c].existsPartial && s[i].existsPartial
    ensures s[i].partialKey !in used
    decreases |s|
  {
    var k, next, used' := s[i].partialKey, Apply(book, s[0]), UsedAfter(used, s[0]);
    assert s[1..][i - 1] == s[i];
    if c == 0 {
      if k in used { GoneForGood(next, used', s[1..], k); }
    } else {
      assert s[1..][c - 1] == s[c];
      ClearedForGood(next, used', s[1..], c - 1, i - 1);
    }
  }

  /** Disk keys: the batch keeps exactly what the blocks would, and the stale ones. */
  lemma DiskKey(d0: map<Key, nat>, used: set<Key>, s: seq<Thunk>, b: Batch, d5: map<Key, nat>, k: Key)
    requires ValidRun(d0, used, s) && s != [] && BatchSteps(d0, s, b, d5) && k in d0
    ensures k in d5 <==> k in Run(d0, s) || Stale(s, k)
    ensures Stale(s, k) ==> k !in Run(d0, s)
    ensures k in d5 && k in Run(d0, s) ==> d5[k] == Run(d0, s)[k]
  {
    hide ValidRun, IsDeleted, Put, Run;
    ValidAt(d0, used, s, 0);
    BookKeyFate(d0, used, s, k);
    DiskPut(d0, used, s, b, d5, k);
    if forall i :: 0 <= i < |s| ==> s[i].existsPartial {
      assert s[0].existsPartial;
      assert b.cut <= k <==> Uncleared(s, k);
      assert Uncleared(s, k) ==> !OutrunBefore(s, |s|, k);
    } else {
      var n :| 0 <= n < |s| && !s[n].existsPartial;
      ValidAt(d0, used, s, n);
      assert !Uncleared(s, k);
      StaleStays(d0, used, s, b, d5, k, n);
    }
  }

  lemma DiskPut(d0: map<Key, nat>, used: set<Key>, s: seq<Thunk>, b: Batch, d5: map<Key, nat>, k: Key)
    requires ValidRun(d0, used, s) && BatchSteps(d0, s, b, d5) && k in d0
    ensures k in b.put <==> k in b.cleared
  {
    hide ValidRun, IsDeleted, Put, ShrinksDone, OutrunBefore, Run, Shrunk, Survives;
    if k in b.put && k !in b.cleared {
      var c, i :| 0 <= c < |s| && 0 <= i < |s[c].added| && Put(s, c, i, b.later) && s[c].added[i].key == k;
      CreatedKeyFate(d0, used, s, c, i);
      ValidAt(d0, used, s, c);
      assert false;
    }
  }

  lemma StaleStays(d0: map<Key, nat>, used: set<Key>, s: seq<Thunk>, b: Batch, d5: map<Key, nat>, k: Key, n: nat)
    requires ValidRun(d0, used, s) && BatchSteps(d0, s, b, d5) && k in d0 && n < |s| && !s[n].existsPartial
    requires k in b.put <==> k in b.cleared
    ensures k in d5 <==> Stale(s, k)
  {
    hide ValidRun, IsDeleted, Put;
    ValidAt(d0, used, s, n);
    if Stale(s, k) {
      NeverShrunk(s, k);
    }
    if k in d5 {
      forall i | 0 <= i < |s| && s[i].existsPartial ensures s[i].partialKey < k {
        NotOwnCut(d0, used, s, k, n, i);
        assert s[i].partialKey <= b.cut <= k;
      }
    }
  }

  lemma OutrunWitness(s: seq<Thunk>, i: nat, f: nat, k: Key)
    requires i < f < |s| && s[i].existsPartial && k < s[f].partialKey
    ensures s[i].partialKey == k ==> OutrunBefore(s, |s|, k)
  {
    if s[i].partialKey == k { assert Outrun(s, i, k); }
  }

  /** A disk key that is itself a partial key next to a full clear is cleared one way or
      the other. */
  lemma NotOwnCut(d0: map<Key, nat>, used: set<Key>, s: seq<Thunk>, k: Key, n: nat, i: nat)
    requires ValidRun(d0, used, s) && k in d0 && n < |s| && i < |s| && !s[n].existsPartial && s[i].existsPartial
    requires !OutrunBefore(s, |s|, k)
    ensures s[i].partialKey != k
  {
    hide ValidRun;
    ValidAt(d0, used, s, n);
    if i < n {
      OutrunWitness(s, i, n, k);
    } else {
      ClearedForGood(d0, used, s, n, i);
    }
  }

  lemma {:induction false} NeverShrunk(s: seq<Thunk>, k: Key)
    requires forall i :: 0 <= i < |s| && s[i].existsPartial ==> s[i].partialKey != k
    ensures Shrunk(s, k) == 0
  {
    if s != [] {
      forall i | 0 <= i < |s[1..]| && s[1..][i].existsPartial ensures s[1..][i].partialKey != k {
        assert s[1..][i] == s[i + 1];
      }
      NeverShrunk(s[1..], k);
    }
  }

  /** New keys: the batch keeps exactly what the blocks would, except the blocked ones. */
  lemma NewKey(d0: map<Key, nat>, used: set<Key>, s: seq<Thunk>, b: Batch, d5: map<Key, nat>, c: nat, i: nat)
    requires ValidRun(d0, used, s) && BatchSteps(d0, s, b, d5) && c < |s| && i < |s[c].added|
    ensures var k := s[c].added[i].key;
      && k !in d0
      && (k in Run(d0, s) <==> SurvivesFrom(s, c, i))
      && (k in d5 <==> k in Run(d0, s) && !Blocked(s, c, i))
      && (k in d5 ==> d5[k] == Run(d0, s)[k])
  {
    hide ValidRun, IsDeleted, Blocked;
    ValidAt(d0, used, s, c);
    var k := s[c].added[i].key;
    CreatedKeyFate(d0, used, s, c, i);
    assert k !in d0;
    PutWhen(d0, used, s, b, d5, c, i);
    assert k in b.put <==> Put(s, c, i, b.later) by {
      if k in b.put {
        var c', i' :| 0 <= c' < |s| && 0 <= i' < |s[c'].added| && Put(s, c', i', b.later) && s[c'].added[i'].key == k;
        SameOffer(d0, used, s, c, i, c', i');
      }
    }
  }

  lemma SameOffer(d0: map<Key, nat>, used: set<Key>, s: seq<Thunk>, c: nat, i: nat, c': nat, i': nat)
    requires ValidRun(d0, used, s) && c < |s| && c' < |s| && i < |s[c].added| && i' < |s[c'].added|
    requires s[c].added[i].key == s[c'].added[i'].key
    ensures c == c' && i == i'
  {
    ValidAt(d0, used, s, c);
    assert IsAdded(s[c].added, s[c].added[i].key) && IsAdded(s[c'].added, s[c'].added[i'].key);
    if c < c' { AddedOnce(d0, used, s, c, c', s[c].added[i].key); }
    if c' < c { AddedOnce(d0, used, s, c', c, s[c].added[i].key); }
  }

  lemma PutWhen(d0: map<Key, nat>, used: set<Key>, s: seq<Thunk>, b: Batch, d5: map<Key, nat>, c: nat, i: nat)
    requires ValidRun(d0, used, s) && BatchSteps(d0, s, b, d5) && c < |s| && i < |s[c].added|
    ensures Put(s, c, i, b.later) <==>
      Uncleared(s[c..], s[c].added[i].key) && !IsDeleted(s, s[c].added[i].key) && !Blocked(s, c, i)
  {
    hide ValidRun, PutsDone, ShrinksDone, OutrunBefore;
    ValidAt(d0, used, s, c);
    var k := s[c].added[i].key;
    forall j | i <= j < |s[c].added|
      ensures s[c].added[j].key in b.later <==> IsDeleted(s, s[c].added[j].key)
      ensures Uncleared(s[c..], k) ==> Uncleared(s[c..], s[c].added[j].key)
    {
      CreatedKeyFate(d0, used, s, c, j);
    }
  }

  lemma BatchDecides(d0: map<Key, nat>, used: set<Key>, s: seq<Thunk>, b: Batch, d5: map<Key, nat>)
    requires ValidRun(d0, used, s) && s != [] && BatchSteps(d0, s, b, d5)
    ensures d5 == Run(d0, s) <==> BatchExact(d0, s)
  {
    hide ValidRun, BatchSteps, Survives, Stale, Blocked, SurvivesFrom;
    var r := Run(d0, s);
    if BatchExact(d0, s) {
      forall k ensures (k in d5 <==> k in r) && (k in d5 ==> d5[k] == r[k]) {
        KeyAgrees(d0, used, s, b, d5, k);
      }
    } else if exists k :: k in d0 && Stale(s, k) {
      var k :| k in d0 && Stale(s, k);
      DiskKey(d0, used, s, b, d5, k);
      assert k in d5 && k !in r;
    } else {
      var c, i :| 0 <= c < |s| && 0 <= i < |s[c].added| && Blocked(s, c, i) && SurvivesFrom(s, c, i);
      NewKey(d0, used, s, b, d5, c, i);
      assert s[c].added[i].key in r && s[c].added[i].key !in d5;
    }
  }

  lemma LeavesThat(d0: map<Key, nat>, used: set<Key>, s: seq<Thunk>, b: Batch, d5: map<Key, nat>)
    requires ValidRun(d0, used, s) && s != [] && BatchSteps(d0, s, b, d5)
    ensures BatchLeaves(d0, s, d5)
  {
    hide ValidRun, BatchSteps, Stale, Blocked, Run, IsAdded;
    forall k | k in d0 ensures LeftOfDisk(d0, s, d5, k) {
      DiskKey(d0, used, s, b, d5, k);
      if k in d5 && k !in Run(d0, s) {
        DiskPut(d0, used, s, b, d5, k);
        StaleAmount(d0, s, b, d5, k);
      }
    }
    forall c, i | 0 <= c < |s| && 0 <= i < |s[c].added| ensures LeftOfNew(d0, s, d5, c, i) {
      NewKey(d0, used, s, b, d5, c, i);
    }
    forall k | k in d5 && k !in d0 ensures exists c :: 0 <= c < |s| && IsAdded(s[c].added, k) {
      NewOnDisk(d0, s, b, d5, k);
    }
  }

  lemma StaleAmount(d0: map<Key, nat>, s: seq<Thunk>, b: Batch, d5: map<Key, nat>, k: Key)
    requires BatchSteps(d0, s, b, d5) && k in d0 && k in d5 && Stale(s, k)
    requires k in b.put <==> k in b.cleared
    ensures d5[k] == d0[k]
  {
    hide IsDeleted, Put, OutrunBefore;
    NeverShrunk(s, k);
  }

  lemma NewOnDisk(d0: map<Key, nat>, s: seq<Thunk>, b: Batch, d5: map<Key, nat>, k: Key)
    requires BatchSteps(d0, s, b, d5) && k in d5 && k !in d0
    ensures exists c :: 0 <= c < |s| && IsAdded(s[c].added, k)
  {
    hide IsDeleted, Put, OutrunBefore, Shrunk;
    var c, i :| 0 <= c < |s| && 0 <= i < |s[c].added| && Put(s, c, i, b.later) && s[c].added[i].key == k;
    assert IsAdded(s[c].added, k);
  }

  lemma KeyAgrees(d0: map<Key, nat>, used: set<Key>, s: seq<Thunk>, b: Batch, d5: map<Key, nat>, k: Key)
    requires ValidRun(d0, used, s) && s != [] && BatchSteps(d0, s, b, d5) && BatchExact(d0, s)
    ensures k in d5 <==> k in Run(d0, s)
    ensures k in d5 ==> d5[k] == Run(d0, s)[k]
  {
    hide ValidRun, Survives;
    if k in d0 {
      DiskKey(d0, used, s, b, d5, k);
    } else if exists c :: 0 <= c < |s| && IsAdded(s[c].added, k) {
      var c :| 0 <= c < |s| && IsAdded(s[c].added, k);
      var i :| 0 <= i < |s[c].added| && s[c].added[i].key == k;
      NewKey(d0, used, s, b, d5, c, i);
    } else {
      StrangerStaysOut(d0, used, s, k);
    }
  }

  /** The batches the design has in mind: every block partially executes some offer and
      no offer is both created and cancelled between two writes. Those are exact. */
  lemma PlainBatchExact(d0: map<Key, nat>, s: seq<Thunk>)
    requires forall i :: 0 <= i < |s| ==> s[i].existsPartial
    requires forall c, i :: 0 <= c < |s| && 0 <= i < |s[c].added| ==> !IsDeleted(s, s[c].added[i].key)
    ensures BatchExact(d0, s)
  {
  }

  // ---- two batches that go wrong ----

  const PARTIAL_AT_5 := Thunk(1, [], [], true, 5, 0)
  const FULL_CLEAR := Thunk(2, [], [], false, MAX_KEY, 0)
  const ADD_5_AND_7 := Thunk(1, [], [Offer(5, 1), Offer(7, 1)], true, 5, 0)
  const CANCEL_7 := Thunk(2, [7], [], true, 5, 0)

  lemma OneMore(book: map<Key, nat>, used: set<Key>, t: Thunk, s: seq<Thunk>)
    requires book.Keys <= used && forall k :: k in book ==> book[k] > 0 && k < MAX_KEY
    requires ValidThunk(book, used, t) && ValidRun(Apply(book, t), UsedAfter(used, t), s)
    ensures ValidRun(book, used, [t] + s)
  {
    assert ([t] + s)[1..] == s;
  }

  /** A batch that goes wrong by a stale offer: one block partially executes the offer at
      5, the next clears the whole book, yet the offer at 7 stays on disk. */
  lemma StaleBatch()
    ensures ValidRun(map[5 := 1, 7 := 1], {5, 7}, [PARTIAL_AT_5, FULL_CLEAR])
    ensures !BatchExact(map[5 := 1, 7 := 1], [PARTIAL_AT_5, FULL_CLEAR])
  {
    var d0 := map[5 := 1, 7 := 1];
    var s := [PARTIAL_AT_5, FULL_CLEAR];
    assert Committed(d0, s[0]) == d0;
    assert Apply(d0, s[0]) == d0;
    assert UsedAfter({5, 7}, s[0]) == {5, 7};
    OneMore(d0, {5, 7}, FULL_CLEAR, []);
    OneMore(d0, {5, 7}, PARTIAL_AT_5, [FULL_CLEAR]);
    assert s[0].existsPartial && !s[1].existsPartial;
    assert Stale(s, 7);
  }

  lemma BlockedFirst()
    ensures Committed(map[], ADD_5_AND_7) == map[5 := 1, 7 := 1] == Apply(map[], ADD_5_AND_7)
    ensures UsedAfter({}, ADD_5_AND_7) == {5, 7} && ValidThunk(map[], {}, ADD_5_AND_7)
  {
    var a := ADD_5_AND_7.added;
    assert a[..1] == [Offer(5, 1)] && a[..1][..0] == [];
    assert AddedMap(a[..1]) == map[5 := 1];
    assert AddedMap(a) == map[5 := 1, 7 := 1];
  }

  lemma BlockedSecond()
    ensures Apply(map[5 := 1, 7 := 1], CANCEL_7) == map[5 := 1]
    ensures UsedAfter({5, 7}, CANCEL_7) == {5, 7} && ValidThunk(map[5 := 1, 7 := 1], {5, 7}, CANCEL_7)
  {
    assert Committed(map[5 := 1, 7 := 1], CANCEL_7) == map[5 := 1];
  }

  lemma BlockedStands()
    ensures Blocked([ADD_5_AND_7, CANCEL_7], 0, 0) && SurvivesFrom([ADD_5_AND_7, CANCEL_7], 0, 0)
  {
    var s := [ADD_5_AND_7, CANCEL_7];
    assert 7 in s[1].deleted && s[0].added[1].key == 7;
    assert IsDeleted(s, 7);
    assert s[0..] == s && !IsDeleted(s, 5) && Uncleared(s, 5);
    assert s[1..] == [CANCEL_7] && s[1..][1..] == [];
    assert Shrunk(s[1..], 5) == 0;
  }

  /** A batch that goes wrong by a blocked offer: one block adds offers at 5 and 7, the
      next cancels the one at 7, and the one at 5 is never written. */
  lemma BlockedBatch()
    ensures ValidRun(map[], {}, [ADD_5_AND_7, CANCEL_7])
    ensures !BatchExact(map[], [ADD_5_AND_7, CANCEL_7])
  {
    hide Apply, Committed, AddedMap, UsedAfter, ValidThunk, IsDeleted, Blocked, SurvivesFrom;
    BlockedFirst();
    BlockedSecond();
    OneMore(map[5 := 1, 7 := 1], {5, 7}, CANCEL_7, []);
    OneMore(map[], {}, ADD_5_AND_7, [CANCEL_7]);
    assert [ADD_5_AND_7] + [CANCEL_7] == [ADD_5_AND_7, CANCEL_7];
    BlockedStands();
  }
}
