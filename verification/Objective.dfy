/** The objective row: entries, value, and the stack of hints that replaces the
    scan for a positive entry. */
module Objective {
  import opened BitRows
  import opened Matrix
  import opened SignedLists
  import opened Wrappers

  class ObjectiveRow {
    var entries: seq<int>
    var hints: seq<nat>
    var value: int

    ghost predicate Valid()
      reads this
    {
      forall k :: 0 <= k < |hints| ==> hints[k] < |entries|
    }

    constructor (numCols: nat)
      ensures Valid() && entries == seq(numCols, _ => 0) && hints == [] && value == 0
    {
      entries := seq(numCols, _ => 0);
      hints := [];
      value := 0;
    }

    method SetIdx(idx: nat, v: int)
      requires Valid() && idx < |entries|
      modifies this`entries, this`hints
      ensures Valid() && entries == old(entries)[idx := v]
      ensures hints == if v > 0 then old(hints) + [idx] else old(hints)
    {
      entries := entries[idx := v];
      if v > 0 { hints := hints + [idx]; }
    }

    /** Subtract k times the listed signs; every entry that turns positive is pushed. */
    method SubtractList(list: seq<nat>, k: int)
      requires Valid() && Increasing(list)
      requires forall i :: 0 <= i < |list| ==> list[i] < |entries|
      modifies this`entries, this`hints
      ensures Valid() && |entries| == old(|entries|)
      ensures forall j: nat :: j < |entries| ==> entries[j] == old(entries)[j] - (if j in list then k else 0)
      ensures forall j: nat :: j in old(hints) ==> j in hints
      ensures forall j: nat :: j < |entries| && old(entries)[j] <= 0 < entries[j] ==> j in hints
    {
      for i := 0 to |list|
        invariant Valid() && |entries| == old(|entries|)
        invariant forall j: nat :: j < |entries| ==> entries[j] == old(entries)[j] - (if j in list[..i] then k else 0)
        invariant forall j: nat :: j in old(hints) ==> j in hints
        invariant forall j: nat :: j < |entries| && old(entries)[j] <= 0 < entries[j] ==> j in hints
      {
        var p := list[i];
        assert p !in list[..i] && list[..i + 1] == list[..i] + [p];
        entries := entries[p := entries[p] - k];
        if entries[p] > 0 && entries[p] <= -k {
          hints := hints + [p];
          assert hints[|hints| - 1] == p;
        }
      }
      assert list[..|list|] == list;
    }

    /** Eliminate a column with a sparse row: exactly the dense row operation, and
        every entry that turns positive is on the hint stack. */
    method SubtractSparse(row: Lists, negated: bool, rowValue: int, pivotCol: nat)
      requires Valid() && ListsOk(row, |entries|) && pivotCol < |entries|
      modifies this
      ensures Valid() && |entries| == old(|entries|)
      ensures entries == SubRow(old(entries), old(entries)[pivotCol],
        seq(|entries|, c requires 0 <= c => Signed(row, negated, c)))
      ensures value == old(value) - old(entries)[pivotCol] * rowValue
      ensures forall j: nat :: j in old(hints) ==> j in hints
      ensures forall j: nat :: j < |entries| && old(entries)[j] <= 0 < entries[j] ==> j in hints
    {
      var coeff := entries[pivotCol];
      value := value - coeff * rowValue;
      if negated { coeff := -coeff; }
      InBounds(row, |entries|);
      SubtractList(row.pos, coeff);
      SubtractList(row.neg, -coeff);
      forall j: nat | j < |entries|
        ensures entries[j] == old(entries)[j] - old(entries)[pivotCol] * Signed(row, negated, j)
      {
        assert entries[j] == old(entries)[j] - coeff * Raw(row, j);
      }
    }

    /** Eliminate a column with a packed row. */
    method Subtract(row: BitcompressedRow, pivotCol: nat)
      requires Valid() && row.Valid() && |entries| <= BitRows.LANES * |row.words| && pivotCol < |entries|
      modifies this
      ensures Valid() && entries == SubRow(old(entries), old(entries)[pivotCol], row.Row()[..|old(entries)|])
      ensures value == old(value) - old(entries)[pivotCol] * row.value && hints == old(hints)
    {
      hide Coefficient;
      var coeff := entries[pivotCol];
      ghost var before := entries;
      for i := 0 to |entries|
        invariant |entries| == |before| && Valid() && value == old(value) && hints == old(hints)
        invariant forall j :: i <= j < |entries| ==> entries[j] == before[j]
        invariant forall j :: 0 <= j < i ==> entries[j] == before[j] - coeff * row.Row()[j]
      {
        assert row.Row()[i] == row.Entry(i);
        entries := entries[i := entries[i] - coeff * row.Entry(i)];
      }
      value := value - coeff * row.value;
    }

    /** Pop hints down to one whose entry is positive. */
    method GetNextPos() returns (next: Option<nat>)
      requires Valid()
      modifies this`hints
      ensures Valid() && |hints| <= old(|hints|)
      ensures next.None? ==> hints == [] && forall j: nat :: j in old(hints) ==> entries[j] <= 0
      ensures next.Some? ==>
        && next.value < |entries| && entries[next.value] > 0 && |hints| < old(|hints|)
        && (forall j: nat :: j in old(hints) && entries[j] > 0 && j != next.value ==> j in hints)
    {
      while |hints| > 0
        invariant Valid() && |hints| <= old(|hints|)
        invariant forall j: nat :: j in old(hints) && entries[j] > 0 ==> j in hints
        decreases |hints|
      {
        var val := hints[|hints| - 1];
        assert forall j: nat :: j in hints ==> j == val || j in hints[..|hints| - 1];
        hints := hints[..|hints| - 1];
        if entries[val] > 0 {
          return Some(val);
        }
      }
      return None;
    }
  }
}
