/** The simplex solver over packed rows: each of its pivots is the same abstract pivot as
    the sparse solver's. */
module DenseSimplex {
  import opened Matrix
  import opened LinearSystem
  import opened SimplexRun
  import opened BitRows
  import opened Objective
  import opened Wrappers

  datatype PivotResult = NoColumn | NoRow | Pivoted

  lemma NegatedDifference(a: seq<int>, b: seq<int>)
    requires |a| == |b|
    ensures UnitDifference(a, 1, b) ==> UnitDifference(Negated(a), -1, b)
    ensures Negated(SubRow(Negated(a), -1, b)) == SubRow(a, 1, b)
  {
    if UnitDifference(a, 1, b) {
      forall i | 0 <= i < |a| ensures -1 <= Negated(a)[i] - (-1) * b[i] <= 1 {
        assert -1 <= a[i] - 1 * b[i] <= 1;
      }
    }
  }

  lemma NoDifference(a: seq<int>, b: seq<int>)
    requires |a| == |b|
    ensures SubRow(a, 0, b) == a
  {
  }

  /** Eliminate a row's coefficient with a pivot row whose coefficient is one. A positive
      coefficient is eliminated between two negations, since rows are only added. */
  method Eliminate(row: BitcompressedRow, pivot: BitcompressedRow, q: nat)
    requires row.Valid() && pivot.Valid() && row != pivot && |row.words| == |pivot.words| && q < LANES * |row.words|
    requires UnitDifference(row.Row(), row.Row()[q], pivot.Row())
    modifies row
    ensures row.Valid() && |row.words| == old(|row.words|)
    ensures row.Row() == SubRow(old(row.Row()), old(row.Row())[q], pivot.Row())
    ensures row.value == old(row.value) - old(row.Row())[q] * pivot.value
  {
    hide Coefficient, SubRow, Negated, UnitDifference;
    var k := row.Entry(q);
    assert row.Row()[q] == k;
    NegatedDifference(row.Row(), pivot.Row());
    NoDifference(row.Row(), pivot.Row());
    if k < 0 {
      row.AddRow(pivot);
    } else if k > 0 {
      row.Negate();
      row.AddRow(pivot);
      row.Negate();
    }
  }

  class TUSimplex {
    const numCols: nat
    const objective: ObjectiveRow
    var rows: seq<BitcompressedRow>
    var activeCols: seq<bool>
    var activeBasis: seq<nat>

    /** A row as the tableau reads it: the lanes past the last column are empty. */
    ghost predicate RowOk(r: BitcompressedRow)
      reads r`words
    {
      && r.Valid() && numCols <= LANES * |r.words| < numCols + LANES
      && forall i :: numCols <= i < LANES * |r.words| ==> r.Row()[i] == 0
    }

    ghost predicate Valid()
      reads this, objective, rows
    {
      && objective.Valid() && |objective.entries| == numCols
      && |activeCols| == numCols && |activeBasis| == |rows|
      && (forall i, j :: 0 <= i < j < |rows| ==> rows[i] != rows[j])
      && (forall i :: 0 <= i < |rows| ==> RowOk(rows[i]))
    }

    ghost function Coefficients(r: BitcompressedRow): (c: seq<int>)
      requires numCols <= LANES * |r.words|
      reads r`words
      ensures |c| == numCols
    {
      r.Row()[..numCols]
    }

    ghost function Contents(): (t: Tableau)
      requires Valid()
      reads this, objective, rows
      ensures Shaped(t, numCols) && |t.m| == |rows| && |t.basis| == |t.m|
    {
      Tableau(
        seq(|rows|, i requires 0 <= i < |rows| reads this, rows, objective requires Valid() => Coefficients(rows[i])),
              seq(|rows|, i requires 0 <= i < |rows| reads this, rows => rows[i].value),
              objective.entries, objective.value, activeBasis)
    }

    constructor (numCols: nat)
      ensures Valid() && this.numCols == numCols && rows == [] && fresh(objective)
      ensures activeCols == seq(numCols, _ => false)
      ensures Contents() == Tableau([], [], seq(numCols, _ => 0), 0, [])
    {
      this.numCols := numCols;
      objective := new ObjectiveRow(numCols);
      rows, activeBasis := [], [];
      activeCols := seq(numCols, _ => false);
    }

    /** Append an empty row with a basic column. */
    method AddNewConstraintRow(basic: nat) returns (row: BitcompressedRow)
      requires Valid()
      modifies this`rows, this`activeBasis
      ensures Valid() && fresh(row) && rows == old(rows) + [row]
      ensures Contents() == old(Contents()).(m := old(Contents()).m + [seq(numCols, _ => 0)],
                                             v := old(Contents()).v + [0], basis := old(Contents()).basis + [basic])
    {
      hide Coefficient;
      ghost var t := Contents();
      ContentsHold();
      row := new BitcompressedRow(numCols);
      rows := rows + [row];
      activeBasis := activeBasis + [basic];
      assert Coefficients(row) == seq(numCols, _ => 0);
      HoldContents(t.m + [seq(numCols, _ => 0)], t.v + [0]);
    }

    /** Write plus or minus one over a zero of the last row. */
    method SetEntry(c: nat, minus: bool, ghost above: Mat, ghost coefficients: seq<int>)
      requires Valid() && |rows| > 0 && c < numCols && |coefficients| == numCols && coefficients[c] == 0
      requires Contents().m == above + [coefficients]
      modifies rows[|rows| - 1]
      ensures Valid()
      ensures Contents() == old(Contents()).(m := above + [coefficients[c := if minus then -1 else 1]])
    {
      hide Coefficient;
      ghost var t, k := Contents(), |rows| - 1;
      ContentsHold();
      var row: BitcompressedRow := rows[|rows| - 1];
      assert Holds(row, coefficients, t.v[k]);
      assert row.Row()[c] == coefficients[c];
      row.SetSign(c, minus);
      ghost var now := coefficients[c := if minus then -1 else 1];
      assert Coefficients(row) == now;
      forall r | 0 <= r < |rows| ensures Holds(rows[r], (above + [now])[r], t.v[r]) {
        if r < k { assert rows[r] != row && old(Holds(rows[r], t.m[r], t.v[r])); }
      }
      HoldContents(above + [now], t.v);
    }

    /** The value of the last row. */
    method SetValue(v: int)
      requires Valid() && |rows| > 0
      modifies rows[|rows| - 1]
      ensures Valid() && Contents() == old(Contents()).(v := old(Contents()).v[|rows| - 1 := v])
    {
      hide Coefficient;
      ghost var t, k := Contents(), |rows| - 1;
      ContentsHold();
      var row: BitcompressedRow := rows[|rows| - 1];
      row.value := v;
      forall r | 0 <= r < |rows| ensures Holds(rows[r], t.m[r], t.v[k := v][r]) {
        assert old(Holds(rows[r], t.m[r], t.v[r]));
        if r < k { assert rows[r] != row; }
      }
      HoldContents(t.m, t.v[k := v]);
    }

    method Activate(cols: seq<nat>)
      requires Valid() && forall i :: 0 <= i < |cols| ==> cols[i] < numCols
      modifies this`activeCols
      ensures Valid() && Contents() == old(Contents())
      ensures forall c :: 0 <= c < numCols ==> (activeCols[c] <==> old(activeCols)[c] || c in cols)
    {
      for i := 0 to |cols|
        invariant Valid() && Contents() == old(Contents())
        invariant forall c :: 0 <= c < numCols ==> (activeCols[c] <==> old(activeCols)[c] || c in cols[..i])
      {
        assert cols[..i + 1] == cols[..i] + [cols[i]];
        activeCols := activeCols[cols[i] := true];
      }
      assert cols[..|cols|] == cols;
    }

    method SetGoal(c: nat)
      requires Valid() && c < numCols
      modifies objective
      ensures Valid() && Contents() == old(Contents()).(obj := old(Contents()).obj[c := 1])
    {
      objective.SetIdx(c, 1);
    }

    /** The first active column with a positive objective entry. */
    method GetNextPivotColumn() returns (q: Option<nat>)
      requires Valid()
      ensures |activeCols| == numCols
      ensures q.None? ==> forall j :: 0 <= j < numCols && activeCols[j] ==> Contents().obj[j] <= 0
      ensures q.Some? ==> q.value < numCols && activeCols[q.value] && Contents().obj[q.value] > 0
    {
      for i := 0 to numCols
        invariant forall j :: 0 <= j < i && activeCols[j] ==> objective.entries[j] <= 0
      {
        if activeCols[i] && objective.entries[i] > 0 { return Some(i); }
      }
      q := None;
    }

    /** The first row of least value among those with a positive coefficient; None where
        the search throws. */
    method GetNextPivotRow(q: nat) returns (p: Option<nat>)
      requires Valid() && q < numCols
      ensures p.None? ==> forall r :: 0 <= r < |Contents().m| ==> Contents().m[r][q] != 1
      ensures p.Some? ==> IsPivotRow(Contents(), numCols, p.value, q)
    {
      hide Coefficient;
      p := None;
      var value := 0;
      for i := 0 to |rows|
        invariant p.None? ==> forall r :: 0 <= r < i ==> Contents().m[r][q] != 1
        invariant p.Some? ==>
          && p.value < i && Contents().m[p.value][q] == 1 && value == Contents().v[p.value]
          && forall r :: 0 <= r < i && Contents().m[r][q] == 1 ==> value <= Contents().v[r]
      {
        var constraintValue := rows[i].value;
        assert RowOk(rows[i]);
        assert Contents().m[i][q] == rows[i].Row()[q] == rows[i].Entry(q);
        if rows[i].Entry(q) > 0 {
          if p.None? || value > constraintValue {
            p, value := Some(i), constraintValue;
          }
        }
      }
    }

    /** A row holds these coefficients and this value. */
    ghost predicate Holds(r: BitcompressedRow, c: seq<int>, v: int)
      reads r
    {
      RowOk(r) && Coefficients(r) == c && r.value == v
    }

    lemma ContentsHold()
      requires Valid()
      ensures forall r :: 0 <= r < |rows| ==> Holds(rows[r], Contents().m[r], Contents().v[r])
    {
    }

    lemma HoldContents(m: Mat, v: seq<int>)
      requires objective.Valid() && |objective.entries| == numCols && |activeCols| == numCols && |activeBasis| == |rows|
      requires forall i, j :: 0 <= i < j < |rows| ==> rows[i] != rows[j]
      requires |m| == |rows| && |v| == |rows| && forall r :: 0 <= r < |rows| ==> Holds(rows[r], m[r], v[r])
      ensures Valid() && Contents().m == m && Contents().v == v
    {
      assert forall i :: 0 <= i < |rows| ==> Holds(rows[i], m[i], v[i]);
    }

    /** Eliminating the columns of two padded rows leaves the padding empty. */
    lemma Padded(x: seq<int>, y: seq<int>, a: seq<int>, b: seq<int>, k: int)
      requires |a| == |b| == numCols <= |x| == |y| && x[..numCols] == a && y[..numCols] == b
      requires forall j :: numCols <= j < |x| ==> x[j] == 0 && y[j] == 0
      requires forall j :: 0 <= j < numCols ==> -1 <= a[j] - k * b[j] <= 1
      ensures UnitDifference(x, k, y) && SubRow(x, k, y)[..numCols] == SubRow(a, k, b)
      ensures forall j :: numCols <= j < |x| ==> SubRow(x, k, y)[j] == 0
    {
      assert forall j :: 0 <= j < numCols ==> x[j] == a[j] && y[j] == b[j];
    }

    /** Eliminate column q from one row. */
    method EliminateRow(row: BitcompressedRow, pivot: BitcompressedRow, q: nat, ghost a: seq<int>, ghost av: int,
                        ghost b: seq<int>, ghost bv: int)
      requires Holds(row, a, av) && Holds(pivot, b, bv) && row != pivot && q < numCols
      requires forall j :: 0 <= j < numCols ==> -1 <= a[j] - a[q] * b[j] <= 1
      modifies row
      ensures |a| == |b| == numCols && Holds(row, SubRow(a, a[q], b), av - a[q] * bv)
    {
      hide Coefficient;
      ghost var x, y := row.Row(), pivot.Row();
      Padded(x, y, a, b, a[q]);
      Eliminate(row, pivot, q);
    }

    /** Eliminate column q from every row but p. */
    method EliminateAll(p: nat, q: nat)
      requires Valid() && p < |rows| && q < numCols && Contents().m[p][q] == 1
      requires UnitEntries(Pivot(Contents().m, numCols, p, q), numCols)
      modifies rows
      ensures Valid()
      ensures Contents().m == Pivot(old(Contents().m), numCols, p, q)
      ensures Contents().v == PivotValues(old(Contents().m), numCols, old(Contents().v), p, q)
    {
      hide Coefficient, Holds, Coefficients, RowOk, SubRow, Pivot, PivotValues, Contents;
      ghost var t, u := Contents(), Pivot(Contents().m, numCols, p, q);
      ghost var v := PivotValues(t.m, numCols, t.v, p, q);
      ContentsHold();
      PivotSelf(t, numCols, p, q);
      for i := 0 to |rows|
        invariant forall r :: 0 <= r < i ==> Holds(rows[r], u[r], v[r])
        invariant forall r :: i <= r < |rows| ==> Holds(rows[r], t.m[r], t.v[r])
      {
        if i != p {
          assert Holds(rows[p], t.m[p], t.v[p]);
          UnitRow(t.m, p, q, i);
          PivotOther(t, numCols, p, q, i);
          assert rows[i] != rows[p];
          EliminateRow(rows[i], rows[p], q, t.m[i], t.v[i], t.m[p], t.v[p]);
        }
      }
      HoldContents(u, v);
    }

    lemma UnitRow(m: Mat, p: nat, q: nat, i: nat)
      requires Rect(m, numCols) && p < |m| && q < numCols && i < |m| && i != p
      requires UnitEntries(Pivot(m, numCols, p, q), numCols)
      ensures forall j :: 0 <= j < numCols ==> -1 <= m[i][j] - m[i][q] * m[p][j] <= 1
    {
      forall j | 0 <= j < numCols ensures -1 <= m[i][j] - m[i][q] * m[p][j] <= 1 {
        assert -1 <= Pivot(m, numCols, p, q)[i][j] <= 1;
      }
    }

    /** Eliminate column q from the objective row. */
    method SubtractPivot(row: BitcompressedRow, q: nat, ghost c: seq<int>, ghost v: int)
      requires objective.Valid() && |objective.entries| == numCols && Holds(row, c, v) && q < numCols
      modifies objective
      ensures objective.Valid() && |c| == numCols
      ensures objective.entries == SubRow(old(objective.entries), old(objective.entries)[q], c)
      ensures objective.value == old(objective.value) - old(objective.entries)[q] * v
    {
      hide Coefficient;
      objective.Subtract(row, q);
    }

    /** Pivot on a row with coefficient one. */
    method ApplyPivot(p: nat, q: nat)
      requires Valid() && p < |rows| && q < numCols && Contents().m[p][q] == 1
      requires UnitEntries(Pivot(Contents().m, numCols, p, q), numCols)
      modifies this`activeBasis, objective, rows
      ensures Valid() && Contents() == PivotTableau(old(Contents()), numCols, p, q)
    {
      hide Coefficient, RowOk, SubRow, Coefficients, Pivot, PivotValues;
      ghost var t := Contents();
      ghost var u := PivotTableau(t, numCols, p, q);
      PivotSelf(t, numCols, p, q);
      EliminateAll(p, q);
      ContentsHold();
      assert Holds(rows[p], u.m[p], u.v[p]);
      SubtractPivot(rows[p], q, u.m[p], u.v[p]);
      activeBasis := activeBasis[p := q];
      HoldContents(u.m, u.v);
    }

    /** One pivot: the tableau becomes the abstract pivot of what it was. */
    method DoPivot() returns (result: PivotResult, ghost p: nat, ghost q: nat)
      requires Valid() && Signable(Contents().m, numCols)
      modifies this`activeBasis, objective, rows
      ensures Valid() && Signable(Contents().m, numCols) && rows == old(rows)
      ensures activeCols == old(activeCols) && |activeCols| == numCols
      ensures result == NoColumn ==>
        Contents() == old(Contents()) && forall j :: 0 <= j < numCols && activeCols[j] ==> Contents().obj[j] <= 0
      ensures result == NoRow ==>
        && Contents() == old(Contents()) && q < numCols && activeCols[q] && Contents().obj[q] > 0
        && forall r :: 0 <= r < |Contents().m| ==> Contents().m[r][q] != 1
      ensures result == Pivoted ==>
        && q < numCols && activeCols[q] && old(Contents()).obj[q] > 0
        && IsPivotRow(old(Contents()), numCols, p, q)
        && Contents() == PivotTableau(old(Contents()), numCols, p, q)
    {
      hide Coefficient, Signable, Valid, Contents, PivotTableau;
      p, q := 0, 0;
      ghost var t := Contents();
      var col := GetNextPivotColumn();
      if col.None? { return NoColumn, 0, 0; }
      q := col.value;
      var row := GetNextPivotRow(col.value);
      if row.None? { return NoRow, 0, q; }
      p := row.value;
      PivotSignable(t.m, numCols, p, q);
      SignableUnit(Pivot(t.m, numCols, p, q), numCols);
      PivotMatrix(t, numCols, p, q);
      ApplyPivot(row.value, col.value);
      result := Pivoted;
    }
  }

  lemma PivotMatrix(t: Tableau, cols: nat, p: nat, q: nat)
    requires Shaped(t, cols) && p < |t.m| && q < cols && |t.basis| == |t.m|
    ensures PivotTableau(t, cols, p, q).m == Pivot(t.m, cols, p, q)
  {
  }

  lemma PivotSelf(t: Tableau, cols: nat, p: nat, q: nat)
    requires Shaped(t, cols) && p < |t.m| && q < cols
    ensures Pivot(t.m, cols, p, q)[p] == t.m[p] && |PivotValues(t.m, cols, t.v, p, q)| == |t.m|
    ensures PivotValues(t.m, cols, t.v, p, q)[p] == t.v[p]
  {
  }

  lemma PivotOther(t: Tableau, cols: nat, p: nat, q: nat, i: nat)
    requires Shaped(t, cols) && p < |t.m| && q < cols && i < |t.m| && i != p
    ensures Pivot(t.m, cols, p, q)[i] == SubRow(t.m[i], t.m[i][q], t.m[p])
    ensures PivotValues(t.m, cols, t.v, p, q)[i] == t.v[i] - t.m[i][q] * t.v[p]
  {
  }
}
