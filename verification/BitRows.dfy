/** Rows packed two bits per coefficient: 01 is one, 10 is minus one, and adding or negating
    whole words acts on every lane at once. */
module BitRows {
  import opened Matrix

  const LANES: nat := 32
  const ONES: bv64 := 0xFFFF_FFFF_FFFF_FFFF
  const SMEAR: bv64 := 0x5555_5555_5555_5555

  // ---- word operations, named so that proofs can treat them as such ----

  function Low(w: bv64): bv64 { w & 3 }

  function Rest(w: bv64): bv64 { w >> 2 }

  function Or(a: bv64, b: bv64): bv64 { a | b }

  function And(a: bv64, b: bv64): bv64 { a & b }

  function Xor(a: bv64, b: bv64): bv64 { a ^ b }

  function Plus(a: bv64, b: bv64): bv64 { a + b }

  function Flip(w: bv64): bv64 { !w }

  /** The two bits of lane k, the lowest lane being lane 0. */
  function Lane(w: bv64, k: nat): bv64
    decreases k
  {
    if k == 0 then Low(w) else Lane(Rest(w), k - 1)
  }

  function Decode(lane: bv64): int {
    if lane == 0 then 0 else if lane == 1 then 1 else -1
  }

  function Coefficient(w: bv64, k: nat): int { Decode(Lane(w, k)) }

  /** No lane holds both bits. */
  ghost predicate Clean(w: bv64) {
    forall k: nat :: k < LANES ==> Lane(w, k) != 3
  }

  /** The lower bit of each lane that holds exactly one bit. */
  function Adjust(w: bv64): bv64 {
    ((w & (SMEAR << 1)) >> 1) ^ (w & SMEAR)
  }

  /** Clear every lane that holds both bits. */
  function Normalize(w: bv64): bv64 {
    w & (Adjust(w) | (Adjust(w) << 1))
  }

  function AddBitwise(a: bv64, b: bv64): bv64 { Normalize(Plus(a, b)) }

  function NegateWord(w: bv64): bv64 { Normalize(Flip(w)) }

  // ---- one lane at a time ----

  ghost predicate IsLane(x: bv64) { x == 0 || x == 1 || x == 2 || x == 3 }

  lemma LowRange(w: bv64)
    ensures IsLane(Low(w))
  {
  }

  lemma {:induction false} LaneRange(w: bv64, k: nat)
    ensures IsLane(Lane(w, k))
    decreases k
  {
    hide IsLane, Low, Rest;
    if k > 0 { LaneRange(Rest(w), k - 1); } else { LowRange(w); }
  }

  function Cleared(lane: bv64): bv64 { if lane == 3 then 0 else lane }

  lemma NormalizeLow(w: bv64)
    ensures Low(Normalize(w)) == Cleared(Low(w))
  {
  }

  lemma AdjustShift(w: bv64)
    ensures Adjust(w) >> 2 == Adjust(w >> 2)
  {
  }

  lemma AdjustEven(w: bv64)
    ensures Adjust(w) & (SMEAR << 1) == 0
  {
  }

  lemma SmearShift(x: bv64)
    requires x & (SMEAR << 1) == 0
    ensures (x | (x << 1)) >> 2 == (x >> 2) | ((x >> 2) << 1)
  {
  }

  lemma NormalizeShift(w: bv64)
    ensures Rest(Normalize(w)) == Normalize(Rest(w))
  {
    hide Adjust;
    AdjustShift(w);
    AdjustEven(w);
    SmearShift(Adjust(w));
  }

  lemma {:induction false} NormalizeLane(w: bv64, k: nat)
    ensures Lane(Normalize(w), k) == Cleared(Lane(w, k))
    decreases k
  {
    hide Normalize, Low, Rest, Cleared;
    if k == 0 {
      NormalizeLow(w);
    } else {
      NormalizeShift(w);
      NormalizeLane(Rest(w), k - 1);
    }
  }

  lemma OrRest(a: bv64, b: bv64)
    ensures Rest(Or(a, b)) == Or(Rest(a), Rest(b))
  {
  }

  lemma OrLow(a: bv64, b: bv64)
    ensures Low(Or(a, b)) == Or(Low(a), Low(b))
  {
  }

  lemma {:induction false} OrLane(a: bv64, b: bv64, k: nat)
    ensures Lane(Or(a, b), k) == Or(Lane(a, k), Lane(b, k))
    decreases k
  {
    hide Or, Low, Rest;
    OrRest(a, b);
    OrLow(a, b);
    if k > 0 { OrLane(Rest(a), Rest(b), k - 1); }
  }

  lemma AndParts(a: bv64, b: bv64)
    ensures Rest(And(a, b)) == And(Rest(a), Rest(b)) && Low(And(a, b)) == And(Low(a), Low(b))
  {
  }

  lemma {:induction false} AndLane(a: bv64, b: bv64, k: nat)
    ensures Lane(And(a, b), k) == And(Lane(a, k), Lane(b, k))
    decreases k
  {
    hide And, Low, Rest;
    AndParts(a, b);
    if k > 0 { AndLane(Rest(a), Rest(b), k - 1); }
  }

  lemma XorParts(a: bv64, b: bv64)
    ensures Rest(Xor(a, b)) == Xor(Rest(a), Rest(b)) && Low(Xor(a, b)) == Xor(Low(a), Low(b))
  {
  }

  lemma {:induction false} XorLane(a: bv64, b: bv64, k: nat)
    ensures Lane(Xor(a, b), k) == Xor(Lane(a, k), Lane(b, k))
    decreases k
  {
    hide Xor, Low, Rest;
    XorParts(a, b);
    if k > 0 { XorLane(Rest(a), Rest(b), k - 1); }
  }

  // ---- all lanes of a word ----

  /** What is left above the low n lanes. */
  function Above(w: bv64, n: nat): bv64
    decreases n
  {
    if n == 0 then w else Above(Rest(w), n - 1)
  }

  /** The low n lanes hold both bits. */
  predicate Full(w: bv64, n: nat)
    decreases n
  {
    n == 0 || (Low(w) == 3 && Full(Rest(w), n - 1))
  }

  lemma {:induction false} FullLane(w: bv64, n: nat, k: nat)
    requires Full(w, n) && k < n
    ensures Lane(w, k) == 3
    decreases n
  {
    hide Low, Rest;
    if k > 0 { FullLane(Rest(w), n - 1, k - 1); }
  }

  /** Four lanes below a word whose low n lanes are full. */
  lemma OnesStep(w: bv64, x: bv64, y: bv64, z: bv64, rest: bv64, n: nat)
    requires Rest(w) == x && Rest(x) == y && Rest(y) == z && Rest(z) == rest
    requires Low(w) == 3 && Low(x) == 3 && Low(y) == 3 && Low(z) == 3
    requires Full(rest, n) && Above(rest, n) == 0
    ensures Full(w, n + 4) && Above(w, n + 4) == 0
  {
    hide Low, Rest;
    assert Full(z, n + 1) && Above(z, n + 1) == 0;
    assert Full(y, n + 2) && Above(y, n + 2) == 0;
    assert Full(x, n + 3) && Above(x, n + 3) == 0;
  }

  lemma OnesFull()
    ensures Full(ONES, LANES) && Above(ONES, LANES) == 0
  {
    OnesStep(0xFF, 0x3F, 0xF, 0x3, 0, 0);
    OnesStep(0xFFFF, 0x3FFF, 0xFFF, 0x3FF, 0xFF, 4);
    OnesStep(0xFF_FFFF, 0x3F_FFFF, 0xF_FFFF, 0x3_FFFF, 0xFFFF, 8);
    OnesStep(0xFFFF_FFFF, 0x3FFF_FFFF, 0xFFF_FFFF, 0x3FF_FFFF, 0xFF_FFFF, 12);
    OnesStep(0xFF_FFFF_FFFF, 0x3F_FFFF_FFFF, 0xF_FFFF_FFFF, 0x3_FFFF_FFFF, 0xFFFF_FFFF, 16);
    OnesStep(0xFFFF_FFFF_FFFF, 0x3FFF_FFFF_FFFF, 0xFFF_FFFF_FFFF, 0x3FF_FFFF_FFFF, 0xFF_FFFF_FFFF, 20);
    OnesStep(0xFF_FFFF_FFFF_FFFF, 0x3F_FFFF_FFFF_FFFF, 0xF_FFFF_FFFF_FFFF, 0x3_FFFF_FFFF_FFFF, 0xFFFF_FFFF_FFFF, 24);
    OnesStep(ONES, 0x3FFF_FFFF_FFFF_FFFF, 0xFFF_FFFF_FFFF_FFFF, 0x3FF_FFFF_FFFF_FFFF, 0xFF_FFFF_FFFF_FFFF, 28);
  }

  lemma {:induction false} ShiftedAnd(a: bv64, b: bv64, n: nat)
    ensures Above(And(a, b), n) == And(Above(a, n), Above(b, n))
    decreases n
  {
    hide And, Rest;
    if n > 0 {
      AndParts(a, b);
      ShiftedAnd(Rest(a), Rest(b), n - 1);
    }
  }

  lemma WordFacts(w: bv64)
    ensures And(w, ONES) == w && And(w, 0) == 0 && Flip(w) == Xor(w, ONES)
  {
  }

  lemma RebuildZero(w: bv64)
    requires Low(w) == 0 && Rest(w) == 0
    ensures w == 0
  {
  }

  lemma {:induction false} ZeroLanes(w: bv64, n: nat)
    requires (forall k: nat :: k < n ==> Lane(w, k) == 0) && Above(w, n) == 0
    ensures w == 0
    decreases n
  {
    hide Low, Rest;
    if n > 0 {
      assert Lane(w, 0) == 0;
      forall k: nat | k < n - 1 ensures Lane(Rest(w), k) == 0 { assert Lane(w, k + 1) == 0; }
      ZeroLanes(Rest(w), n - 1);
      RebuildZero(w);
    }
  }

  /** Words without a common bit add without a carry. */
  lemma NoCarry(a: bv64, b: bv64)
    requires a & b == 0
    ensures a + b == a | b
  {
  }

  lemma AddNoCarry(a: bv64, b: bv64)
    requires And(a, b) == 0
    ensures Plus(a, b) == Or(a, b)
  {
    NoCarry(a, b);
  }

  ghost predicate SumFits(a: bv64, b: bv64, k: nat) {
    -1 <= Coefficient(a, k) + Coefficient(b, k) <= 1
  }

  ghost predicate SumIs(a: bv64, b: bv64, k: nat) {
    Coefficient(AddBitwise(a, b), k) == Coefficient(a, k) + Coefficient(b, k)
  }

  /** Adding words adds every lane, exactly when every lane's sum is a coefficient. */
  lemma AddLanes(a: bv64, b: bv64)
    requires Clean(a) && Clean(b)
    ensures (forall k: nat :: k < LANES ==> SumIs(a, b, k)) <==> (forall k: nat :: k < LANES ==> SumFits(a, b, k))
    ensures (forall k: nat :: k < LANES ==> SumFits(a, b, k)) ==> Clean(AddBitwise(a, b))
  {
    hide Normalize, Plus, Or;
    if forall k: nat :: k < LANES ==> SumFits(a, b, k) {
      DisjointWords(a, b);
      AddNoCarry(a, b);
      forall k: nat | k < LANES ensures SumIs(a, b, k) && Lane(AddBitwise(a, b), k) != 3 {
        assert SumFits(a, b, k);
        OrLane(a, b, k);
        NormalizeLane(Or(a, b), k);
        LaneRange(a, k);
        LaneRange(b, k);
        LaneSum(Lane(a, k), Lane(b, k));
      }
    } else {
      var k: nat :| k < LANES && !SumFits(a, b, k);
      assert !SumIs(a, b, k);
    }
  }

  lemma DisjointWords(a: bv64, b: bv64)
    requires Clean(a) && Clean(b)
    requires forall k: nat :: k < LANES ==> SumFits(a, b, k)
    ensures And(a, b) == 0
  {
    hide And, Low, Rest;
    forall k: nat | k < LANES ensures Lane(And(a, b), k) == 0 {
      assert SumFits(a, b, k);
      AndLane(a, b, k);
      LaneRange(a, k);
      LaneRange(b, k);
      LaneSum(Lane(a, k), Lane(b, k));
    }
    OnesFull();
    WordFacts(And(a, b));
    WordFacts(Above(And(a, b), LANES));
    ShiftedAnd(And(a, b), ONES, LANES);
    ZeroLanes(And(a, b), LANES);
  }

  /** Two lanes whose sum is a coefficient share no bit. */
  lemma LaneSum(x: bv64, y: bv64)
    requires IsLane(x) && IsLane(y) && x != 3 && y != 3
    requires -1 <= Decode(x) + Decode(y) <= 1
    ensures And(x, y) == 0
    ensures Decode(Cleared(Or(x, y))) == Decode(x) + Decode(y) && Cleared(Or(x, y)) != 3
  {
  }

  lemma LaneFlip(x: bv64)
    requires IsLane(x) && x != 3
    ensures Decode(Cleared(Xor(x, 3))) == -Decode(x) && Cleared(Xor(x, 3)) != 3
  {
  }

  /** Flipping a word's bits and clearing the full lanes negates every lane. */
  lemma NegateLanes(w: bv64)
    requires Clean(w)
    ensures Clean(NegateWord(w))
    ensures forall k: nat :: k < LANES ==> Coefficient(NegateWord(w), k) == -Coefficient(w, k)
  {
    hide Normalize, Flip, Xor, Low, Rest, Cleared;
    WordFacts(w);
    OnesFull();
    forall k: nat | k < LANES
      ensures Coefficient(NegateWord(w), k) == -Coefficient(w, k) && Lane(NegateWord(w), k) != 3
    {
      FullLane(ONES, LANES, k);
      XorLane(w, ONES, k);
      NormalizeLane(Flip(w), k);
      LaneRange(w, k);
      LaneFlip(Lane(w, k));
    }
  }

  // ---- single bits ----

  /** One bit of lane k: the lower one for plus, the upper one for minus. */
  function Bit(k: nat, minus: bool): bv64 {
    if k == 0 then (if minus then 2 else 1) else Up(Bit(k - 1, minus))
  }

  function Up(w: bv64): bv64 { w << 2 }

  /** The largest word of k + 1 lanes, from the largest one downwards. */
  function Cap(k: nat): bv64
    decreases LANES - k
  {
    if k >= LANES - 2 then 0x3FFF_FFFF_FFFF_FFFF else Rest(Cap(k + 1))
  }

  lemma CapLow()
    ensures Cap(0) == 3
  {
    assert Cap(26) == 0x3F_FFFF_FFFF_FFFF;
    assert Cap(22) == 0x3FFF_FFFF_FFFF;
    assert Cap(18) == 0x3F_FFFF_FFFF;
    assert Cap(14) == 0x3FFF_FFFF;
    assert Cap(10) == 0x3F_FFFF;
    assert Cap(6) == 0x3FFF;
    assert Cap(2) == 0x3F;
  }

  ghost predicate AtMost(a: bv64, b: bv64) { a <= b }

  lemma UpWithin(w: bv64, c: bv64)
    requires AtMost(w, Rest(c))
    ensures AtMost(Up(w), c) && Rest(Up(w)) == w && Low(Up(w)) == 0
  {
  }

  lemma BitZero(minus: bool)
    ensures AtMost(Bit(0, minus), Cap(0))
  {
    CapLow();
  }

  lemma {:induction false} BitWithin(k: nat, minus: bool)
    requires k <= LANES - 2
    ensures AtMost(Bit(k, minus), Cap(k))
  {
    hide Up, Rest, AtMost;
    if k == 0 {
      BitZero(minus);
    } else {
      BitWithin(k - 1, minus);
      UpWithin(Bit(k - 1, minus), Cap(k));
    }
  }

  lemma BitShift(k: nat, minus: bool)
    requires 0 < k < LANES
    ensures Rest(Bit(k, minus)) == Bit(k - 1, minus) && Low(Bit(k, minus)) == 0
  {
    hide Up, Rest, Low, AtMost;
    BitWithin(k - 1, minus);
    CapWithin(k - 1);
    AtMostTop(Bit(k - 1, minus), Cap(k - 1));
    UpWithin(Bit(k - 1, minus), ONES);
  }

  lemma AtMostTop(w: bv64, c: bv64)
    requires AtMost(w, c) && AtMost(c, 0x3FFF_FFFF_FFFF_FFFF)
    ensures AtMost(w, Rest(ONES))
  {
  }

  lemma RestSmall(w: bv64)
    ensures AtMost(Rest(w), 0x3FFF_FFFF_FFFF_FFFF)
  {
  }

  lemma CapWithin(k: nat)
    requires k <= LANES - 2
    ensures AtMost(Cap(k), 0x3FFF_FFFF_FFFF_FFFF)
  {
    if k < LANES - 2 { RestSmall(Cap(k + 1)); }
  }

  lemma {:induction false} ZeroLane(k: nat)
    ensures Lane(0, k) == 0
  {
    if k > 0 { ZeroLane(k - 1); }
  }

  lemma {:induction false} BitLane(k: nat, minus: bool, j: nat)
    requires k < LANES
    ensures Lane(Bit(k, minus), j) == if j != k then 0 else if minus then 2 else 1
  {
    hide Up;
    if k == 0 {
      if j > 0 { ZeroLane(j - 1); }
    } else {
      BitShift(k, minus);
      if j > 0 { BitLane(k - 1, minus, j - 1); }
    }
  }

  lemma OrZero(w: bv64)
    ensures Or(w, 0) == w && Or(0, w) == w
  {
  }

  lemma OrSmall()
    ensures Or(0, 1) == 1 && Or(0, 2) == 2 && Or(1, 1) == 1 && Or(2, 2) == 2 && Or(1, 2) == 3 && Or(2, 1) == 3
  {
  }

  /** Setting a bit writes the coefficient of one lane, unless the opposite one is there:
      then the lane holds both bits and is no coefficient. */
  lemma SetLane(w: bv64, k: nat, minus: bool)
    requires Clean(w) && k < LANES
    ensures Clean(Or(w, Bit(k, minus))) <==> Coefficient(w, k) != if minus then 1 else -1
    ensures Clean(Or(w, Bit(k, minus))) ==> forall j: nat :: j < LANES ==>
      Coefficient(Or(w, Bit(k, minus)), j) == if j != k then Coefficient(w, j) else if minus then -1 else 1
  {
    hide Or, Low, Rest, Lane, Bit;
    LaneRange(w, k);
    OrSmall();
    assert Lane(w, k) != 3;
    forall j: nat | j < LANES
      ensures Lane(Or(w, Bit(k, minus)), j) == if j != k then Lane(w, j) else Or(Lane(w, k), if minus then 2 else 1)
    {
      OrLane(w, Bit(k, minus), j);
      BitLane(k, minus, j);
      OrZero(Lane(w, j));
    }
    forall j: nat | j < LANES && Coefficient(w, k) != (if minus then 1 else -1)
      ensures Lane(Or(w, Bit(k, minus)), j) != 3
    {
      assert Lane(w, j) != 3;
    }
    assert Coefficient(w, k) == (if minus then 1 else -1) ==> Lane(Or(w, Bit(k, minus)), k) == 3;
  }

  // ---- rows ----

  /** A row minus k times another stays within -1, 0 and 1. */
  ghost predicate UnitDifference(a: seq<int>, k: int, b: seq<int>) {
    |a| == |b| && forall i :: 0 <= i < |a| ==> -1 <= a[i] - k * b[i] <= 1
  }

  function Negated(a: seq<int>): (n: seq<int>)
    ensures |n| == |a|
  {
    seq(|a|, i requires 0 <= i < |a| => -a[i])
  }

  /** All coefficients of packed words. */
  function CoefficientsOf(words: seq<bv64>): (r: seq<int>)
    ensures |r| == LANES * |words|
  {
    seq(LANES * |words|, i requires 0 <= i < LANES * |words| => Coefficient(words[i / LANES], i % LANES))
  }

  /** Words added one by one add coefficients, when every sum is one. */
  lemma AddWords(a: seq<bv64>, b: seq<bv64>, c: seq<bv64>)
    requires |a| == |b| == |c|
    requires forall j :: 0 <= j < |a| ==> Clean(a[j]) && Clean(b[j]) && c[j] == AddBitwise(a[j], b[j])
    requires UnitDifference(CoefficientsOf(a), -1, CoefficientsOf(b))
    ensures forall j :: 0 <= j < |c| ==> Clean(c[j])
    ensures CoefficientsOf(c) == SubRow(CoefficientsOf(a), -1, CoefficientsOf(b))
  {
    hide Coefficient, Clean, AddBitwise;
    forall j | 0 <= j < |c| ensures Clean(c[j]) && forall k: nat :: k < LANES ==> SumIs(a[j], b[j], k) {
      forall k: nat | k < LANES ensures SumFits(a[j], b[j], k) {
        var i := LANES * j + k;
        assert i / LANES == j && i % LANES == k;
        assert -1 <= CoefficientsOf(a)[i] - (-1) * CoefficientsOf(b)[i] <= 1;
      }
      AddLanes(a[j], b[j]);
    }
    forall i | 0 <= i < LANES * |c| ensures CoefficientsOf(c)[i] == CoefficientsOf(a)[i] + CoefficientsOf(b)[i] {
      assert SumIs(a[i / LANES], b[i / LANES], i % LANES);
    }
  }

  class BitcompressedRow {
    var words: seq<bv64>
    var value: int

    ghost predicate Valid()
      reads this`words
    {
      forall i :: 0 <= i < |words| ==> Clean(words[i])
    }

    function Entry(idx: nat): (e: int)
      requires idx < LANES * |words|
      reads this`words
      ensures -1 <= e <= 1
    {
      Coefficient(words[idx / LANES], idx % LANES)
    }

    /** The coefficients, including the unused lanes of the last word. */
    ghost function Row(): (r: seq<int>)
      reads this`words
      ensures |r| == LANES * |words|
    {
      CoefficientsOf(words)
    }

    constructor (numCols: nat)
      ensures Valid() && value == 0 && numCols <= LANES * |words| < numCols + LANES
      ensures forall i :: 0 <= i < LANES * |words| ==> Row()[i] == 0
    {
      var n := if numCols % LANES == 0 then numCols / LANES else 1 + numCols / LANES;
      words := seq(n, _ => 0);
      value := 0;
      new;
      forall k: nat ensures Lane(0, k) == 0 { ZeroLane(k); }
    }

    /** Add another row: lane by lane, when every sum is a coefficient. */
    method AddRow(other: BitcompressedRow)
      requires Valid() && other.Valid() && other != this && |other.words| == |words|
      requires UnitDifference(Row(), -1, other.Row())
      modifies this
      ensures Valid() && |words| == old(|words|) && value == old(value) + other.value
      ensures Row() == SubRow(old(Row()), -1, other.Row())
    {
      hide Clean, AddBitwise, CoefficientsOf, UnitDifference, SubRow;
      ghost var before := words;
      for i := 0 to |words|
        invariant |words| == |before| && value == old(value)
        invariant forall j :: i <= j < |words| ==> words[j] == before[j]
        invariant forall j :: 0 <= j < i ==> words[j] == AddBitwise(before[j], other.words[j])
      {
        words := words[i := AddBitwise(words[i], other.words[i])];
      }
      value := value + other.value;
      AddWords(before, other.words, words);
    }

    /** Negate every coefficient and the value. */
    method Negate()
      requires Valid()
      modifies this
      ensures Valid() && |words| == old(|words|) && value == -old(value)
      ensures Row() == Negated(old(Row()))
    {
      hide Normalize, Lane, Decode, Flip;
      ghost var before := words;
      for i := 0 to |words|
        invariant |words| == |before| && value == old(value)
        invariant forall j :: i <= j < |words| ==> words[j] == before[j]
        invariant forall j :: 0 <= j < i ==> words[j] == NegateWord(before[j])
      {
        words := words[i := NegateWord(words[i])];
      }
      value := -value;
      forall j | 0 <= j < |words|
        ensures Clean(words[j])
        ensures forall k: nat :: k < LANES ==> Coefficient(words[j], k) == -Coefficient(before[j], k)
      {
        NegateLanes(before[j]);
      }
      forall i | 0 <= i < LANES * |words| ensures Row()[i] == -old(Row())[i] {
        assert Coefficient(words[i / LANES], i % LANES) == -Coefficient(before[i / LANES], i % LANES);
      }
    }

    /** Set the bit of plus or minus one. It writes the coefficient unless the opposite one is
        there already, which would leave a lane with both bits. */
    method SetSign(idx: nat, minus: bool)
      requires Valid() && idx < LANES * |words|
      modifies this`words
      ensures |words| == old(|words|)
      ensures Valid() <==> old(Row())[idx] != if minus then 1 else -1
      ensures Valid() ==> Row() == old(Row())[idx := if minus then -1 else 1]
    {
      hide Lane, Decode, Bit, Or, Clean;
      var w, k := idx / LANES, idx % LANES;
      ghost var before := words;
      words := words[w := Or(words[w], Bit(k, minus))];
      SetLane(before[w], k, minus);
      assert old(Row())[idx] == Coefficient(before[w], k);
      assert Valid() <==> Clean(words[w]);
      if Clean(words[w]) {
        forall i | 0 <= i < LANES * |words|
          ensures Row()[i] == if i != idx then old(Row())[i] else if minus then -1 else 1
        {
          if i / LANES == w {
            assert Coefficient(words[w], i % LANES)
              == if i % LANES != k then Coefficient(before[w], i % LANES) else if minus then -1 else 1;
          }
        }
      }
    }
  }
}
