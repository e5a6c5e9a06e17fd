/** Reservation of sequence numbers as bits above the last committed one, in one word or in
    an array of words, and the set of numbers that both forms stand for. */
module SequenceTrackers {
  import opened BitRows
  import opened Ledger

  const WORD_BITS: nat := 64

  // ---- bits of a word ----

  function Mask(k: nat): bv64 { Bit(k / 2, k % 2 == 1) }

  function HasBit(w: bv64, k: nat): bool {
    And(Lane(w, k / 2), if k % 2 == 1 then 2 else 1) != 0
  }

  lemma LaneBits(x: bv64, y: bv64)
    requires IsLane(x) && IsLane(y)
    ensures And(x, 1) != 0 || And(x, 2) != 0 <==> x != 0
    ensures And(Or(x, y), 1) != 0 <==> And(x, 1) != 0 || And(y, 1) != 0
    ensures And(Or(x, y), 2) != 0 <==> And(x, 2) != 0 || And(y, 2) != 0
    ensures And(And(x, Xor(y, 3)), 1) != 0 <==> And(x, 1) != 0 && And(y, 1) == 0
    ensures And(And(x, Xor(y, 3)), 2) != 0 <==> And(x, 2) != 0 && And(y, 2) == 0
  {
  }

  lemma MaskBit(k: nat, j: nat)
    requires k < WORD_BITS && j < WORD_BITS
    ensures HasBit(Mask(k), j) <==> j == k
  {
    BitLane(k / 2, k % 2 == 1, j / 2);
    SmallBits();
    assert k == 2 * (k / 2) + k % 2 && j == 2 * (j / 2) + j % 2;
  }

  lemma SmallBits()
    ensures And(0, 1) == 0 && And(0, 2) == 0 && And(1, 1) == 1 && And(1, 2) == 0 && And(2, 1) == 0 && And(2, 2) == 2
  {
  }

  lemma SetBit(w: bv64, k: nat, j: nat)
    requires k < WORD_BITS && j < WORD_BITS
    ensures HasBit(Or(w, Mask(k)), j) <==> HasBit(w, j) || j == k
  {
    hide And, Or, Lane, Bit;
    OrLane(w, Mask(k), j / 2);
    LaneRange(w, j / 2);
    LaneRange(Mask(k), j / 2);
    LaneBits(Lane(w, j / 2), Lane(Mask(k), j / 2));
    MaskBit(k, j);
  }

  lemma ClearBit(w: bv64, k: nat, j: nat)
    requires k < WORD_BITS && j < WORD_BITS
    ensures HasBit(And(w, Flip(Mask(k))), j) <==> HasBit(w, j) && j != k
  {
    hide And, Or, Lane, Bit, Flip, Xor, Full, Above;
    AndLane(w, Flip(Mask(k)), j / 2);
    WordFacts(Mask(k));
    XorLane(Mask(k), ONES, j / 2);
    OnesFull();
    FullLane(ONES, LANES, j / 2);
    LaneRange(w, j / 2);
    LaneRange(Mask(k), j / 2);
    LaneBits(Lane(w, j / 2), Lane(Mask(k), j / 2));
    MaskBit(k, j);
  }

  lemma ZeroBits(j: nat)
    ensures !HasBit(0, j)
  {
    ZeroLane(j / 2);
    SmallBits();
  }

  /** A word without bits is zero. */
  lemma NoBits(w: bv64)
    requires forall j: nat :: j < WORD_BITS ==> !HasBit(w, j)
    ensures w == 0
  {
    hide And, Lane, Full, Above, BitRows.Rest;
    forall k: nat | k < LANES ensures Lane(w, k) == 0 {
      assert (2 * k) / 2 == k && (2 * k) % 2 == 0 && (2 * k + 1) / 2 == k && (2 * k + 1) % 2 == 1;
      assert !HasBit(w, 2 * k) && !HasBit(w, 2 * k + 1);
      LaneRange(w, k);
      LaneRange(0, k);
      LaneBits(Lane(w, k), Lane(0, k));
    }
    OnesFull();
    WordFacts(w);
    WordFacts(Above(w, LANES));
    ShiftedAnd(w, ONES, LANES);
    ZeroLanes(w, LANES);
  }

  /** 64 less the number of leading zeros: one more than the highest bit. */
  function Width(w: bv64, n: nat): (h: nat)
    requires n <= WORD_BITS
    ensures h <= n
    ensures h > 0 ==> HasBit(w, h - 1)
    ensures forall j :: h <= j < n ==> !HasBit(w, j)
  {
    if n == 0 then 0 else if HasBit(w, n - 1) then n else Width(w, n - 1)
  }

  // ---- what a tracker stands for ----

  /** The last committed number and the offsets reserved above it. */
  datatype Tracker = Tracker(last: nat, offsets: set<nat>)

  /** The number that an offset stands for. */
  function NumberAt(last: nat, offset: nat): nat { last + MAX_OPS * (offset + 1) }

  /** The offset of a number above the last one, with the wrap of unsigned arithmetic. */
  function OffsetOf(seqNo: nat, last: nat): nat
    requires seqNo > last
  {
    if seqNo - last < MAX_OPS then Pricing.TWO_64 - 1 else (seqNo - last) / MAX_OPS - 1
  }

  function Reserved(t: Tracker, gap: nat, seqNo: nat): (Status, Tracker) {
    if seqNo <= t.last then (SeqNumTooLow, t)
    else
      var o := OffsetOf(seqNo, t.last);
      if o >= gap then (SeqNumTooHigh, t)
      else if o in t.offsets then (SeqNumTempInUse, t)
      else (Success, t.(offsets := t.offsets + {o}))
  }

  function Released(t: Tracker, gap: nat, seqNo: nat): (bool, Tracker) {
    if seqNo <= t.last || OffsetOf(seqNo, t.last) >= gap then (false, t)
    else (true, t.(offsets := t.offsets - {OffsetOf(seqNo, t.last)}))
  }

  /** One more than the highest offset. */
  ghost predicate IsHeight(s: set<nat>, h: nat) {
    (h > 0 ==> h - 1 in s) && forall o :: o in s ==> o < h
  }

  // ---- one word ----

  class UInt64SequenceTracker {
    var lastCommittedId: nat
    var sequenceNumberVec: bv64

    ghost function Contents(): Tracker
      reads this
    {
      Tracker(lastCommittedId, set o: nat | o < WORD_BITS && HasBit(sequenceNumberVec, o))
    }

    constructor (last: nat)
      ensures Contents() == Tracker(last, {})
    {
      lastCommittedId, sequenceNumberVec := last, 0;
      new;
      forall j: nat ensures !HasBit(0, j) { ZeroBits(j); }
    }

    method ReserveSequenceNumber(seqNo: nat) returns (status: Status)
      modifies this`sequenceNumberVec
      ensures (status, Contents()) == Reserved(old(Contents()), WORD_BITS, seqNo)
    {
      hide HasBit, And, Or, Mask;
      if seqNo <= lastCommittedId { return SeqNumTooLow; }
      var offset := OffsetOf(seqNo, lastCommittedId);
      if offset >= WORD_BITS { return SeqNumTooHigh; }
      var prev := sequenceNumberVec;
      sequenceNumberVec := Or(prev, Mask(offset));
      forall j: nat | j < WORD_BITS ensures HasBit(sequenceNumberVec, j) <==> HasBit(prev, j) || j == offset {
        SetBit(prev, offset, j);
      }
      if HasBit(prev, offset) {
        assert Contents().offsets == old(Contents()).offsets;
        return SeqNumTempInUse;
      }
      assert Contents().offsets == old(Contents()).offsets + {offset};
      status := Success;
    }

    /** Release a number; false stands for the throw at one outside the window. */
    method ReleaseSequenceNumber(seqNo: nat) returns (ok: bool)
      modifies this`sequenceNumberVec
      ensures (ok, Contents()) == Released(old(Contents()), WORD_BITS, seqNo)
    {
      hide HasBit, And, Flip, Mask;
      if seqNo <= lastCommittedId { return false; }
      if OffsetOf(seqNo, lastCommittedId) >= WORD_BITS { return false; }
      ok := true;
      var offset := OffsetOf(seqNo, lastCommittedId);
      var prev := sequenceNumberVec;
      sequenceNumberVec := And(prev, Flip(Mask(offset)));
      forall j: nat | j < WORD_BITS ensures HasBit(sequenceNumberVec, j) <==> HasBit(prev, j) && j != offset {
        ClearBit(prev, offset, j);
      }
      assert Contents().offsets == old(Contents()).offsets - {offset};
    }

    /** The committed number moves to the highest reserved one. */
    method Commit()
      modifies this
      ensures exists h: nat ::
        IsHeight(old(Contents()).offsets, h) && Contents() == Tracker(old(lastCommittedId) + MAX_OPS * h, {})
    {
      hide HasBit;
      var h := Width(sequenceNumberVec, WORD_BITS);
      assert IsHeight(old(Contents()).offsets, h);
      lastCommittedId := lastCommittedId + h * MAX_OPS;
      sequenceNumberVec := 0;
      forall j: nat ensures !HasBit(0, j) { ZeroBits(j); }
      assert Contents() == Tracker(old(lastCommittedId) + MAX_OPS * h, {});
    }

    method Rollback()
      modifies this`sequenceNumberVec
      ensures Contents() == Tracker(old(lastCommittedId), {})
    {
      hide HasBit;
      sequenceNumberVec := 0;
      forall j: nat ensures !HasBit(0, j) { ZeroBits(j); }
    }
  }

  // ---- an array of words ----

  class BoundedSequenceTracker {
    const maxSeqGap: nat
    const sequenceNumberVec: array<bv64>
    var lastCommittedId: nat

    ghost predicate Valid()
      reads this
    {
      sequenceNumberVec.Length == maxSeqGap / WORD_BITS + 1
    }

    predicate Has(o: nat)
      requires o < WORD_BITS * sequenceNumberVec.Length
      reads this, sequenceNumberVec
    {
      HasBit(sequenceNumberVec[o / WORD_BITS], o % WORD_BITS)
    }

    ghost function Contents(): Tracker
      reads this, sequenceNumberVec
    {
      Tracker(lastCommittedId, set o: nat | o < WORD_BITS * sequenceNumberVec.Length && Has(o))
    }

    constructor (maxSeqGap: nat, last: nat)
      ensures Valid() && this.maxSeqGap == maxSeqGap && fresh(sequenceNumberVec) && Contents() == Tracker(last, {})
    {
      hide HasBit;
      this.maxSeqGap, lastCommittedId := maxSeqGap, last;
      sequenceNumberVec := new bv64[maxSeqGap / WORD_BITS + 1](_ => 0);
      new;
      forall j: nat ensures !HasBit(0, j) { ZeroBits(j); }
    }

    lemma WithinWords(o: nat)
      requires Valid() && o < maxSeqGap
      ensures o / WORD_BITS < sequenceNumberVec.Length && o < WORD_BITS * sequenceNumberVec.Length
    {
    }

    method ReserveSequenceNumber(seqNo: nat) returns (status: Status)
      requires Valid()
      modifies sequenceNumberVec
      ensures (status, Contents()) == Reserved(old(Contents()), maxSeqGap, seqNo)
    {
      hide HasBit, And, Or, Mask;
      if seqNo <= lastCommittedId { return SeqNumTooLow; }
      var offset := OffsetOf(seqNo, lastCommittedId);
      if offset >= maxSeqGap { return SeqNumTooHigh; }
      WithinWords(offset);
      var w, k := offset / WORD_BITS, offset % WORD_BITS;
      var prev := sequenceNumberVec[w];
      ghost var before := sequenceNumberVec[..];
      sequenceNumberVec[w] := Or(prev, Mask(k));
      forall o: nat | o < WORD_BITS * sequenceNumberVec.Length
        ensures Has(o) <==> HasBit(before[o / WORD_BITS], o % WORD_BITS) || o == offset
      {
        SetBit(prev, k, o % WORD_BITS);
        assert o == WORD_BITS * (o / WORD_BITS) + o % WORD_BITS;
      }
      if HasBit(prev, k) {
        assert Contents().offsets == old(Contents()).offsets;
        return SeqNumTempInUse;
      }
      assert Contents().offsets == old(Contents()).offsets + {offset};
      status := Success;
    }

    /** Release a number; false stands for the throw at one outside the window. */
    method ReleaseSequenceNumber(seqNo: nat) returns (ok: bool)
      requires Valid()
      modifies sequenceNumberVec
      ensures (ok, Contents()) == Released(old(Contents()), maxSeqGap, seqNo)
    {
      hide HasBit, And, Flip, Mask;
      if seqNo <= lastCommittedId { return false; }
      if OffsetOf(seqNo, lastCommittedId) >= maxSeqGap { return false; }
      ok := true;
      var offset := OffsetOf(seqNo, lastCommittedId);
      WithinWords(offset);
      var w, k := offset / WORD_BITS, offset % WORD_BITS;
      var prev := sequenceNumberVec[w];
      ghost var before := sequenceNumberVec[..];
      sequenceNumberVec[w] := And(prev, Flip(Mask(k)));
      forall o: nat | o < WORD_BITS * sequenceNumberVec.Length
        ensures Has(o) <==> HasBit(before[o / WORD_BITS], o % WORD_BITS) && o != offset
      {
        ClearBit(prev, k, o % WORD_BITS);
        assert o == WORD_BITS * (o / WORD_BITS) + o % WORD_BITS;
      }
      assert Contents().offsets == old(Contents()).offsets - {offset};
    }

    /** One more than the highest reserved offset, from the last word that is not zero. */
    method GetSeqNumIncrement() returns (h: nat)
      requires Valid()
      ensures IsHeight(Contents().offsets, h)
    {
      hide HasBit;
      var i: nat := sequenceNumberVec.Length;
      while i > 0
        invariant i <= sequenceNumberVec.Length
        invariant forall o: nat :: WORD_BITS * i <= o < WORD_BITS * sequenceNumberVec.Length ==> !Has(o)
      {
        i := i - 1;
        var val := sequenceNumberVec[i];
        if val != 0 {
          var width := Width(val, WORD_BITS);
          if width == 0 { NoBits(val); }
          assert width > 0;
          h := WORD_BITS * i + width;
          assert (h - 1) / WORD_BITS == i && (h - 1) % WORD_BITS == width - 1;
          assert Has(h - 1);
          forall o | o in Contents().offsets ensures o < h {
            if o >= WORD_BITS * i { assert o / WORD_BITS == i; }
          }
          return;
        }
        forall o: nat | WORD_BITS * i <= o < WORD_BITS * (i + 1) ensures !Has(o) {
          assert o / WORD_BITS == i;
          ZeroBits(o % WORD_BITS);
        }
      }
      h := 0;
    }

    /** The committed number moves to the highest reserved one. */
    method Commit()
      requires Valid()
      modifies this, sequenceNumberVec
      ensures Valid()
      ensures exists h: nat ::
        IsHeight(old(Contents()).offsets, h) && Contents() == Tracker(old(lastCommittedId) + MAX_OPS * h, {})
    {
      hide HasBit;
      var h := GetSeqNumIncrement();
      lastCommittedId := lastCommittedId + h * MAX_OPS;
      ClearWords();
      assert Contents() == Tracker(old(lastCommittedId) + MAX_OPS * h, {});
    }

    method ClearWords()
      requires Valid()
      modifies sequenceNumberVec
      ensures Contents() == Tracker(lastCommittedId, {})
    {
      hide HasBit;
      for i := 0 to sequenceNumberVec.Length
        invariant forall j :: 0 <= j < i ==> sequenceNumberVec[j] == 0
      {
        sequenceNumberVec[i] := 0;
      }
      forall j: nat ensures !HasBit(0, j) { ZeroBits(j); }
    }

    method Rollback()
      requires Valid()
      modifies sequenceNumberVec
      ensures Contents() == Tracker(lastCommittedId, {})
    {
      ClearWords();
    }
  }

  // ---- aligned numbers over runs ----

  /** For aligned numbers the offset is exact: a number is reserved when its own bit is set,
      and the window is the one that admission checks. */
  lemma AlignedOffset(seqNo: nat, last: nat)
    requires seqNo % MAX_OPS == 0 && last % MAX_OPS == 0 && seqNo > last
    ensures seqNo - last >= MAX_OPS && NumberAt(last, OffsetOf(seqNo, last)) == seqNo
  {
    assert (seqNo - last) % MAX_OPS == 0;
  }

  /** The window that a transaction's admission checks is a tracker's. */
  lemma WindowAgrees(t: Tracker, seqNo: nat)
    ensures var s := Reserved(t, MAX_SEQ_NUMS, seqNo).0;
      SeqWindow(t.last, seqNo) == if s == SeqNumTempInUse then Success else s
  {
  }

  /** The numbers that a tracker has reserved. */
  ghost function Numbers(t: Tracker): set<nat> {
    set o | o in t.offsets :: NumberAt(t.last, o)
  }

  datatype TrackerOp = Reserve(seqNo: nat) | Release(seqNo: nat) | CommitBlock | RollbackBlock

  /** A tracker together with every number committed so far. */
  datatype History = History(tracker: Tracker, committed: set<nat>)

  ghost predicate AlignedOp(op: TrackerOp) {
    op.Reserve? || op.Release? ==> op.seqNo % MAX_OPS == 0
  }

  ghost predicate Steps(h: History, gap: nat, op: TrackerOp, n: History) {
    match op
    case Reserve(s) => n == h.(tracker := Reserved(h.tracker, gap, s).1)
    case Release(s) => n == h.(tracker := Released(h.tracker, gap, s).1)
    case CommitBlock =>
      && n.committed == h.committed + Numbers(h.tracker) && n.tracker.offsets == {}
      && exists k: nat :: IsHeight(h.tracker.offsets, k) && n.tracker.last == h.tracker.last + MAX_OPS * k
    case RollbackBlock => n == h.(tracker := Tracker(h.tracker.last, {}))
  }

  /** Every committed number is at most the last committed one, and every reserved one above. */
  ghost predicate HistorySound(h: History, first: nat) {
    && h.tracker.last % MAX_OPS == 0 && first <= h.tracker.last
    && (forall n :: n in h.committed ==> first < n <= h.tracker.last)
    && (h.tracker.last == first || h.tracker.last in h.committed)
  }

  /** A commit moves to the largest reserved number, and commits none that was before. */
  lemma CommitOnce(h: History, gap: nat, n: History, first: nat)
    requires HistorySound(h, first) && Steps(h, gap, CommitBlock, n)
    ensures Numbers(h.tracker) !! h.committed
    ensures HistorySound(n, first) && h.tracker.last <= n.tracker.last
    ensures forall m :: m in Numbers(h.tracker) ==> h.tracker.last < m <= n.tracker.last
    ensures Numbers(h.tracker) != {} ==> n.tracker.last in Numbers(h.tracker)
  {
    var t := h.tracker;
    var k: nat :| IsHeight(t.offsets, k) && n.tracker.last == t.last + MAX_OPS * k;
    forall m | m in Numbers(t) ensures t.last < m <= n.tracker.last {
      var o :| o in t.offsets && m == NumberAt(t.last, o);
    }
    if k > 0 {
      assert n.tracker.last == NumberAt(t.last, k - 1);
    } else {
      assert Numbers(t) == {};
    }
  }

  /** A number is granted exactly when it is new: neither committed nor reserved. */
  lemma GrantedOnce(h: History, gap: nat, seqNo: nat, first: nat)
    requires HistorySound(h, first) && seqNo % MAX_OPS == 0
    ensures var (s, t) := Reserved(h.tracker, gap, seqNo);
      && (s == Success ==>
           seqNo !in Numbers(h.tracker) && seqNo !in h.committed && Numbers(t) == Numbers(h.tracker) + {seqNo})
      && (s == SeqNumTempInUse <==>
           seqNo > h.tracker.last && OffsetOf(seqNo, h.tracker.last) < gap && seqNo in Numbers(h.tracker))
      && (s == SeqNumTooLow <== seqNo in h.committed)
  {
    var last := h.tracker.last;
    if seqNo > last {
      AlignedOffset(seqNo, last);
      var o := OffsetOf(seqNo, last);
      if seqNo in Numbers(h.tracker) {
        var p :| p in h.tracker.offsets && seqNo == NumberAt(last, p);
        assert p == o;
      }
      assert o in h.tracker.offsets ==> seqNo in Numbers(h.tracker);
      var t := Reserved(h.tracker, gap, seqNo).1;
      if o < gap && o !in h.tracker.offsets {
        forall m: nat ensures m in Numbers(t) <==> m in Numbers(h.tracker) + {seqNo} {
          if m in Numbers(h.tracker) {
            var p :| p in h.tracker.offsets && m == NumberAt(last, p);
            assert p in t.offsets;
          }
          if m == seqNo { assert o in t.offsets; }
        }
      }
    }
  }

  ghost predicate Trace(h: History, gap: nat, ops: seq<TrackerOp>, n: History)
    decreases |ops|
  {
    if ops == [] then h == n
    else AlignedOp(ops[0]) && exists m :: Steps(h, gap, ops[0], m) && Trace(m, gap, ops[1..], n)
  }

  /** Over every run the committed number never falls, and is one of those committed. */
  lemma {:induction false} TraceSound(h: History, gap: nat, ops: seq<TrackerOp>, n: History, first: nat)
    requires HistorySound(h, first) && Trace(h, gap, ops, n)
    ensures HistorySound(n, first) && h.tracker.last <= n.tracker.last && h.committed <= n.committed
    decreases |ops|
  {
    hide HistorySound, Steps;
    if ops != [] {
      var m :| Steps(h, gap, ops[0], m) && Trace(m, gap, ops[1..], n);
      StepSound(h, gap, ops[0], m, first);
      TraceSound(m, gap, ops[1..], n, first);
    }
  }

  lemma StepSound(h: History, gap: nat, op: TrackerOp, n: History, first: nat)
    requires HistorySound(h, first) && Steps(h, gap, op, n)
    ensures HistorySound(n, first) && h.tracker.last <= n.tracker.last && h.committed <= n.committed
  {
    if op.CommitBlock? { CommitOnce(h, gap, n, first); }
  }

  // ---- the tracker as a set of numbers ----

  /** An account's numbers with no bits and no offsets: the last committed one, those reserved
      since, and all that were ever committed. */
  datatype NumberSet = NumberSet(last: nat, live: set<nat>, committed: set<nat>)

  ghost function NumbersOf(h: History): NumberSet {
    NumberSet(h.tracker.last, Numbers(h.tracker), h.committed)
  }

  /** The step on numbers: reserve one within the window, take one back, commit all that are
      reserved and move to the largest, or drop them. */
  ghost predicate Moves(a: NumberSet, gap: nat, op: TrackerOp, b: NumberSet) {
    match op
    case Reserve(s) => b == if a.last < s <= a.last + MAX_OPS * gap then a.(live := a.live + {s}) else a
    case Release(s) => b == a.(live := a.live - {s})
    case CommitBlock =>
      && b.committed == a.committed + a.live && b.live == {}
      && b.last in a.live + {a.last} && forall s :: s in a.live + {a.last} ==> s <= b.last
    case RollbackBlock => b == a.(live := {})
  }

  ghost predicate Runs(a: NumberSet, gap: nat, ops: seq<TrackerOp>, b: NumberSet)
    decreases |ops|
  {
    if ops == [] then a == b else exists m :: Moves(a, gap, ops[0], m) && Runs(m, gap, ops[1..], b)
  }

  /** Every offset is within the window. */
  ghost predicate InGap(h: History, gap: nat) {
    forall o :: o in h.tracker.offsets ==> o < gap
  }

  /** The numbers of a tracker, and the offset each of them has. */
  lemma NumberIn(t: Tracker, s: nat)
    requires t.last % MAX_OPS == 0 && s % MAX_OPS == 0 && s > t.last
    ensures s in Numbers(t) <==> OffsetOf(s, t.last) in t.offsets
  {
    AlignedOffset(s, t.last);
    if s in Numbers(t) {
      var o :| o in t.offsets && s == NumberAt(t.last, o);
      assert o == OffsetOf(s, t.last);
    }
  }

  lemma NumberAligned(t: Tracker, s: nat)
    requires t.last % MAX_OPS == 0 && s in Numbers(t)
    ensures s % MAX_OPS == 0 && s > t.last
  {
    var o :| o in t.offsets && s == NumberAt(t.last, o);
  }

  lemma WindowOffset(s: nat, last: nat, gap: nat)
    requires s % MAX_OPS == 0 && last % MAX_OPS == 0 && s > last
    ensures OffsetOf(s, last) < gap <==> s <= last + MAX_OPS * gap
  {
    AlignedOffset(s, last);
  }

  lemma ReleaseNumbers(t: Tracker, gap: nat, s: nat)
    requires t.last % MAX_OPS == 0 && s % MAX_OPS == 0 && forall o :: o in t.offsets ==> o < gap
    ensures Numbers(Released(t, gap, s).1) == Numbers(t) - {s}
  {
    hide OffsetOf;
    var u := Released(t, gap, s).1;
    forall m ensures m in Numbers(u) <==> m in Numbers(t) - {s} {
      if m in Numbers(t) { NumberAligned(t, m); }
      if m in Numbers(u) { NumberAligned(u, m); }
      if m > t.last && m % MAX_OPS == 0 {
        NumberIn(t, m);
        NumberIn(u, m);
        AlignedOffset(m, t.last);
        if s > t.last { AlignedOffset(s, t.last); }
      }
    }
  }

  /** A step on the bits is a step on the numbers. */
  lemma StepNumbers(h: History, gap: nat, op: TrackerOp, n: History, first: nat)
    requires HistorySound(h, first) && InGap(h, gap) && AlignedOp(op) && Steps(h, gap, op, n)
    ensures Moves(NumbersOf(h), gap, op, NumbersOf(n)) && InGap(n, gap)
  {
    hide OffsetOf;
    match op
    case Reserve(s) =>
      GrantedOnce(h, gap, s, first);
      if s > h.tracker.last {
        WindowOffset(s, h.tracker.last, gap);
        NumberIn(h.tracker, s);
        assert s in Numbers(h.tracker) ==> Numbers(h.tracker) + {s} == Numbers(h.tracker);
      }
    case Release(s) => ReleaseNumbers(h.tracker, gap, s);
    case CommitBlock =>
      CommitOnce(h, gap, n, first);
      NothingReserved(h, gap, n);
    case RollbackBlock =>
  }

  lemma NothingReserved(h: History, gap: nat, n: History)
    requires Steps(h, gap, CommitBlock, n)
    ensures Numbers(h.tracker) == {} ==> n.tracker.last == h.tracker.last
  {
    var k: nat :| IsHeight(h.tracker.offsets, k) && n.tracker.last == h.tracker.last + MAX_OPS * k;
    if k > 0 { assert NumberAt(h.tracker.last, k - 1) in Numbers(h.tracker); }
  }

  /** Over every run a tracker is that set of numbers: in particular each commit moves to the
      largest number reserved since the last one and not taken back. */
  lemma {:induction false} TraceNumbers(h: History, gap: nat, ops: seq<TrackerOp>, n: History, first: nat)
    requires HistorySound(h, first) && InGap(h, gap) && Trace(h, gap, ops, n)
    ensures Runs(NumbersOf(h), gap, ops, NumbersOf(n))
    decreases |ops|
  {
    hide HistorySound, Steps, Moves, InGap, NumbersOf;
    if ops != [] {
      var m :| Steps(h, gap, ops[0], m) && Trace(m, gap, ops[1..], n);
      StepSound(h, gap, ops[0], m, first);
      StepNumbers(h, gap, ops[0], m, first);
      TraceNumbers(m, gap, ops[1..], n, first);
    }
  }
}
