/** The feasibility solver: it builds the tableau from the orderbook bounds,
    normalises it and pivots until no open column improves the objective. */
module Solver {
  import opened Matrix
  import opened LinearSystem
  import opened SimplexRun
  import opened OfferCategories
  import opened FlowProgram
  import opened FlowStart
  import opened Feasibility
  import opened SignedLists
  import opened Sparse
  import opened Objective
  import opened Wrappers

  /** Outcome of adding an orderbook: the "invalid bounds" error, a book with equal
      bounds that is skipped, or an accepted book. */
  datatype AddStatus = InvalidBounds | Skipped | Added

  class SimplexLPSolver {
    const numAssets: nat
    const tableau: SparseTableau
    const objective: ObjectiveRow
    var activeCols: seq<bool>
    var activeBasis: seq<nat>
    /** The books accepted so far. */
    ghost var books: seq<Book>

    ghost predicate Sized()
      reads this, tableau, tableau.store, tableau.store.alloc, objective
    {
      && tableau.Valid() && objective.Valid() && BooksOk(numAssets, books)
      && |tableau.cols| == NumCols(numAssets) == |objective.entries| == |activeCols|
      && |activeBasis| == |tableau.rows| == numAssets + |books|
    }

    ghost function View(): (t: Tableau)
      requires Sized()
      reads this, tableau, tableau.store, tableau.store.alloc, objective
      ensures Shaped(t, NumCols(numAssets)) && |t.m| == numAssets + |books|
    {
      Tableau(tableau.Dense(), tableau.Values(), objective.entries, objective.value, activeBasis)
    }

    ghost predicate OpenCols()
      requires Sized()
      reads this, tableau, tableau.store, tableau.store.alloc, objective
    {
      forall j :: 0 <= j < NumCols(numAssets) ==> (activeCols[j] <==> IsOpen(numAssets, books, j))
    }

    /** The state while books are being added: the tableau holds exactly their program. */
    ghost predicate Building()
      reads this, tableau, tableau.store, tableau.store.alloc, objective
    {
      && Sized() && OpenCols()
      && tableau.Dense() == ProgramRows(numAssets, books)
      && tableau.Values() == ProgramValues(numAssets, books)
      && activeBasis == StartBasis(numAssets, books)
      && objective.entries == seq(NumCols(numAssets), _ => 0)
      && objective.value == 0 && objective.hints == []
    }

    /** Every open column with a positive objective entry is on the hint stack. */
    ghost predicate HintsCover()
      requires Sized()
      reads this, tableau, tableau.store, tableau.store.alloc, objective
    {
      forall j: nat :: j < NumCols(numAssets) && activeCols[j] && objective.entries[j] > 0 ==> j in objective.hints
    }

    /** The state between pivots. */
    ghost predicate Running()
      reads this, tableau, tableau.store, tableau.store.alloc, objective
    {
      && Sized() && OpenCols() && HintsCover() && GoodBooks(numAssets, books)
      && RunInvariant(View(), FlowLp(numAssets, books), NumCols(numAssets))
      && BasisOpen(numAssets, books, activeBasis)
    }

    // ---- building ----

    constructor (n: nat)
      ensures numAssets == n && books == [] && Building()
      ensures fresh(tableau) && fresh(tableau.store) && fresh(tableau.store.alloc) && fresh(objective)
    {
      numAssets := n;
      tableau := new SparseTableau(NumCols(n));
      objective := new ObjectiveRow(NumCols(n));
      activeCols := seq(NumCols(n), _ => false);
      activeBasis := [];
      books := [];
      new;
      NoRows(n);
      AddAssetConstraints();
    }

    /** The balance rows of all assets. */
    method AddAssetConstraints()
      requires AssetsDone(0) && books == [] && activeCols == seq(NumCols(numAssets), _ => false)
      requires objective.entries == seq(NumCols(numAssets), _ => 0) && objective.value == 0 && objective.hints == []
      modifies this`activeBasis, tableau, tableau.store, tableau.store.alloc
      ensures Building()
    {
      hide AssetsDone, InStep, SparseTableau.Backed, NumCols, Building;
      for sell := 0 to numAssets
        invariant AssetsDone(sell)
      {
        AddAssetConstraint(sell);
      }
      AllAssetsDone();
    }

    /** The rows of the first k assets are in. */
    ghost predicate AssetsDone(k: nat)
      reads this, tableau, tableau.store, tableau.store.alloc
    {
      && tableau.Valid() && |tableau.cols| == NumCols(numAssets) && |tableau.rows| == k
      && tableau.Dense() == AssetRows(numAssets, k) && tableau.Values() == seq(k, _ => 0)
      && activeBasis == SlackBasis(numAssets, k)
    }

    lemma AllAssetsDone()
      requires AssetsDone(numAssets) && books == [] && activeCols == seq(NumCols(numAssets), _ => false)
      requires objective.entries == seq(NumCols(numAssets), _ => 0) && objective.value == 0 && objective.hints == []
      ensures Building()
    {
      hide InStep, SparseTableau.Backed, DenseOf, ValuesOf, NumOrderbooks, IsOpen, AssetRows, ProgramRows,
        ProgramValues, SlackBasis, StartBasis;
      EmptyProgram(numAssets);
    }

    /** Append the balance row of one asset, entry by entry. */
    method AddAssetConstraint(sell: nat)
      requires AssetsDone(sell) && sell < numAssets
      modifies this`activeBasis, tableau, tableau.store, tableau.store.alloc
      ensures AssetsDone(sell + 1)
    {
      hide InStep, SparseTableau.Backed, DenseOf, ValuesOf, Index, SellOf, BuyOf, NumOrderbooks, AssetEntry, AssetRow;
      ghost var above := AssetRows(numAssets, sell);
      ghost var zero := seq(NumCols(numAssets), _ => 0);
      var slack, penalty := SlackCol(numAssets, sell), PenaltyCol(numAssets, sell);
      tableau.AddRow();
      assert tableau.Dense() == above + [zero];
      SetPair(sell, slack, penalty, 1, -1, above, zero);
      activeBasis := activeBasis + [slack];
      FirstAssetRow(numAssets, sell);
      assert tableau.Dense() == above + [AssetRow(numAssets, sell, 0)];
      for buy := 0 to numAssets
        invariant tableau.Valid() && |tableau.cols| == NumCols(numAssets) && |tableau.rows| == sell + 1
        invariant tableau.Dense() == above + [AssetRow(numAssets, sell, buy)]
        invariant tableau.Values() == seq(sell + 1, _ => 0)
        invariant activeBasis == SlackBasis(numAssets, sell) + [slack]
      {
        AssetRowStep(numAssets, sell, buy);
        if buy != sell {
          SetPair(sell, Index(numAssets, sell, buy), Index(numAssets, buy, sell), -1, 1,
                  above, AssetRow(numAssets, sell, buy));
        }
      }
      NextAssetRow(numAssets, sell);
    }

    /** Set two entries of the last row. */
    method SetPair(r: nat, i: nat, j: nat, x: int, y: int, ghost above: Mat, ghost row: seq<int>)
      requires tableau.Valid() && |tableau.rows| == r + 1 == |above| + 1 && |row| == |tableau.cols|
      requires i < |row| && j < |row| && i != j && row[i] == 0 && row[j] == 0
      requires (x == 1 || x == -1) && (y == 1 || y == -1)
      requires tableau.Dense() == above + [row]
      modifies tableau, tableau.store, tableau.store.alloc
      ensures tableau.Valid() && |tableau.rows| == r + 1 && |tableau.cols| == old(|tableau.cols|)
      ensures tableau.Dense() == above + [row[i := x][j := y]]
      ensures tableau.Values() == old(tableau.Values())
    {
      hide InStep, SparseTableau.Backed, DenseOf, ValuesOf;
      tableau.SetEntry(r, i, x);
      assert tableau.Dense() == above + [row[i := x]];
      tableau.SetEntry(r, j, y);
      assert tableau.Dense() == above + [row[i := x][j := y]];
    }

    /** Change the value of an asset row and start it from its surplus slack, or from
        its penalty when the value is negative. */
    method AdjustAssetConstraint(asset: nat, amount: int)
      requires tableau.Valid() && asset < numAssets && asset < |tableau.rows| && asset < |activeBasis|
      modifies this`activeBasis, tableau`rows, tableau`values
      ensures tableau.Valid() && |tableau.rows| == old(|tableau.rows|)
      ensures tableau.Dense() == old(tableau.Dense())
      ensures tableau.Values() == old(tableau.Values())[asset := old(tableau.Values())[asset] + amount]
      ensures activeBasis == old(activeBasis)[asset :=
        if tableau.Values()[asset] < 0 then PenaltyCol(numAssets, asset) else SlackCol(numAssets, asset)]
    {
      hide InStep, SparseTableau.Backed, DenseOf, ValuesOf, NumOrderbooks;
      var v := tableau.GetValue(asset);
      tableau.SetValue(asset, v + amount);
      v := tableau.GetValue(asset);
      activeBasis := activeBasis[asset := if v < 0 then PenaltyCol(numAssets, asset) else SlackCol(numAssets, asset)];
    }

    method SetAssetConstraintSlacksActive(asset: nat)
      requires asset < numAssets && |activeCols| == NumCols(numAssets)
      modifies this`activeCols
      ensures activeCols == old(activeCols)[SlackCol(numAssets, asset) := true][PenaltyCol(numAssets, asset) := true]
    {
      activeCols := activeCols[SlackCol(numAssets, asset) := true];
      activeCols := activeCols[PenaltyCol(numAssets, asset) := true];
    }

    /** Add an orderbook with its bounds. A book with equal bounds leaves no trace. */
    method AddOrderbookConstraint(lower: int, upper: int, sell: nat, buy: nat) returns (status: AddStatus)
      requires Building() && ValidCategory(numAssets, sell, buy)
      modifies this`activeCols, this`activeBasis, this`books, tableau, tableau.store, tableau.store.alloc
      ensures Building()
      ensures status == if lower > upper then InvalidBounds else if lower == upper then Skipped else Added
      ensures books == if lower < upper then old(books) + [Book(sell, buy, lower, upper)] else old(books)
    {
      if lower > upper { return InvalidBounds; }
      if lower == upper { return Skipped; }
      AcceptBook(lower, upper, sell, buy);
      return Added;
    }

    method AcceptBook(lower: int, upper: int, sell: nat, buy: nat)
      requires Building() && ValidCategory(numAssets, sell, buy) && lower < upper
      modifies this`activeCols, this`activeBasis, this`books, tableau, tableau.store, tableau.store.alloc
      ensures Building() && books == old(books) + [Book(sell, buy, lower, upper)]
    {
      hide InStep, SparseTableau.Backed, DenseOf, ValuesOf, Index, SellOf, BuyOf, NumOrderbooks, AssetEntry, IsOpen,
        HasBook;
      hide StartBasis, ProgramRows, ProgramValues, BookRow, AssetValue;
      ghost var b := Book(sell, buy, lower, upper);
      IndexInverts(numAssets, sell, buy);
      ProgramGrows(numAssets, books, b);
      BasisGrows(numAssets, books, b);
      RecordBook(lower, upper, sell, buy);
      BooksGrow(numAssets, books, b, old(activeCols), activeCols);
      books := books + [b];
      assert Sized() && OpenCols();
    }

    /** The changes an accepted book makes to the tableau, the columns and the basis. */
    method RecordBook(lower: int, upper: int, sell: nat, buy: nat)
      requires tableau.Valid() && |tableau.cols| == NumCols(numAssets) == |activeCols|
      requires ValidCategory(numAssets, sell, buy) && Index(numAssets, sell, buy) < NumOrderbooks(numAssets)
      requires numAssets <= |tableau.rows| == |activeBasis|
      modifies this`activeCols, this`activeBasis, tableau, tableau.store, tableau.store.alloc
      ensures tableau.Valid() && |tableau.cols| == NumCols(numAssets)
      ensures tableau.Dense() == old(tableau.Dense()) + [BookRow(numAssets, Index(numAssets, sell, buy))]
      ensures tableau.Values() ==
        (old(tableau.Values()) + [upper - lower])
          [buy := old(tableau.Values())[buy] - lower][sell := old(tableau.Values())[sell] + lower]
      ensures activeCols == old(activeCols)
        [Index(numAssets, sell, buy) := true][CapacityCol(numAssets, Index(numAssets, sell, buy)) := true]
        [SlackCol(numAssets, sell) := true][PenaltyCol(numAssets, sell) := true]
        [SlackCol(numAssets, buy) := true][PenaltyCol(numAssets, buy) := true]
      ensures activeBasis == (old(activeBasis) + [CapacityCol(numAssets, Index(numAssets, sell, buy))])
        [buy := if tableau.Values()[buy] < 0 then PenaltyCol(numAssets, buy) else SlackCol(numAssets, buy)]
        [sell := if tableau.Values()[sell] < 0 then PenaltyCol(numAssets, sell) else SlackCol(numAssets, sell)]
    {
      hide InStep, SparseTableau.Backed, DenseOf, ValuesOf, Index, NumOrderbooks, BookRow;
      var idx := Index(numAssets, sell, buy);
      var cap := CapacityCol(numAssets, idx);
      AppendBookRow(idx, cap, upper - lower);
      activeCols := activeCols[idx := true];
      activeCols := activeCols[cap := true];
      activeBasis := activeBasis + [cap];
      SetAssetConstraintSlacksActive(sell);
      SetAssetConstraintSlacksActive(buy);
      AdjustAssetConstraint(buy, -lower);
      AdjustAssetConstraint(sell, lower);
    }

    /** The capacity row of one book: its column and its slack sum to the room
        between the bounds. */
    method AppendBookRow(idx: nat, cap: nat, room: int)
      requires tableau.Valid() && |tableau.cols| == NumCols(numAssets)
      requires idx < NumOrderbooks(numAssets) && cap == CapacityCol(numAssets, idx)
      modifies tableau, tableau.store, tableau.store.alloc
      ensures tableau.Valid() && |tableau.cols| == NumCols(numAssets) && |tableau.rows| == old(|tableau.rows|) + 1
      ensures tableau.Dense() == old(tableau.Dense()) + [BookRow(numAssets, idx)]
      ensures tableau.Values() == old(tableau.Values()) + [room]
    {
      hide InStep, SparseTableau.Backed, DenseOf, ValuesOf, NumOrderbooks;
      ghost var above, zero := tableau.Dense(), seq(NumCols(numAssets), _ => 0);
      var r := |tableau.negations|;
      tableau.AddRow();
      assert tableau.Dense() == above + [zero];
      tableau.SetValue(r, room);
      SetPair(r, idx, cap, 1, 1, above, zero);
      assert zero[idx := 1][cap := 1] == BookRow(numAssets, idx);
      assert tableau.Dense() == above + [BookRow(numAssets, idx)];
    }

    // ---- pivoting ----

    /** Pop hints down to an open column with a positive objective entry. None means
        that no such column is left. */
    method GetNextPivotColumn() returns (next: Option<nat>)
      requires Running()
      modifies objective`hints
      ensures Sized() && View() == old(View()) && OpenCols()
      ensures next.None? ==> Running() && Finished(View(), numAssets, books)
      ensures next.Some? ==> && next.value < NumCols(numAssets)
                             && activeCols[next.value] && objective.entries[next.value] > 0
      ensures next.Some? ==> forall j: nat ::
        j < NumCols(numAssets) && activeCols[j] && objective.entries[j] > 0 && j != next.value ==> j in objective.hints
    {
      hide RunInvariant, InStep, SparseTableau.Backed, IsOpen, NumCols, GoodBooks, FlowLp;
      while true
        invariant Sized() && View() == old(View()) && HintsCover() && OpenCols()
        decreases |objective.hints|
      {
        next := objective.GetNextPos();
        if next.None? || activeCols[next.value] { return; }
      }
    }

    /** One pivot of the run; false when the run is over. The "failed to find pivot
        row" error is the None case, which the assertion rules out. */
    method DoPivot() returns (pivoted: bool)
      requires Running()
      modifies this`activeBasis, tableau, tableau.store, tableau.store.alloc, objective
      ensures Running() && |tableau.rows| == old(|tableau.rows|)
      ensures if pivoted then Improves(old(View()), View(), NumCols(numAssets), activeCols)
              else View() == old(View()) && Finished(View(), numAssets, books)
    {
      hide InStep, SparseTableau.Backed, IsOpen, NumCols, FlowLp, RunInvariant, DenseOf, ValuesOf, Pivot, PivotValues,
        HasBook;
      var col := GetNextPivotColumn();
      if col.None? { return false; }
      var q := col.value;
      ghost var t, cols, lp := View(), NumCols(numAssets), FlowLp(numAssets, books);
      assert RunInvariant(t, lp, cols);
      PivotRowFound(t, numAssets, books, q);
      ghost var r :| 0 <= r < |t.m| && t.m[r][q] == 1;
      var row := tableau.GetPivotRow(q);
      assert tableau.Dense()[r][q] == 1;
      var p := row.value;
      PivotStays(t, numAssets, books, p, q);
      ApplyPivot(p, q);
      StepImproves(t, View(), cols, activeCols, p, q);
      assert BasisOpen(numAssets, books, activeBasis) by {
        OpenBookColumn(numAssets, books, q);
      }
      assert objective.entries[q] == 0;
      return true;
    }

    /** Pivot the tableau, eliminate the column from the objective and update the basis. */
    method ApplyPivot(p: nat, q: nat)
      requires Sized() && p < |tableau.rows| && q < NumCols(numAssets)
      requires View().m[p][q] == 1 && PivotUnit(View().m, NumCols(numAssets), p, q)
      modifies this`activeBasis, tableau, tableau.store, tableau.store.alloc, objective
      ensures Sized() && View() == PivotTableau(old(View()), NumCols(numAssets), p, q)
      ensures forall j: nat :: j in old(objective.hints) ==> j in objective.hints
      ensures forall j: nat :: j < NumCols(numAssets) && old(objective.entries)[j] <= 0 < objective.entries[j] ==>
        j in objective.hints
    {
      hide InStep, SparseTableau.Backed, NumCols, DenseOf, ValuesOf, Pivot, PivotValues, PivotUnit;
      ghost var t, cols := View(), NumCols(numAssets);
      tableau.DoPivot(p, q);
      var v := tableau.GetValue(p);
      var row := tableau.ReadRow(p);
      RowDense(tableau.rows, tableau.cols, tableau.negations, p);
      PivotRowKept(t.m, cols, t.v, p, q);
      objective.SubtractSparse(row, tableau.negations[p], v, q);
      activeBasis := activeBasis[p := q];
      assert View() == PivotTableau(t, cols, p, q);
    }

    // ---- the decision ----

    method SetFeasibilityObjectiveCoeffs()
      requires Building()
      modifies objective
      ensures Sized() && OpenCols() && View() == StartTableau(numAssets, books) && objective.hints == []
    {
      hide InStep, SparseTableau.Backed, DenseOf, ValuesOf, NumOrderbooks, ProgramRows, ProgramValues, StartBasis,
        IsOpen;
      GoalEnds(numAssets);
      for asset := 0 to numAssets
        invariant Sized() && objective.value == 0 && objective.hints == []
        invariant objective.entries == GoalUpTo(numAssets, asset)
      {
        objective.SetIdx(PenaltyCol(numAssets, asset), -1);
        GoalSteps(numAssets, asset);
      }
    }

    /** Negate every short asset row and clear its penalty from the objective. */
    method NormalizeAssetConstraints()
      requires Sized() && OpenCols() && View() == StartTableau(numAssets, books) && objective.hints == []
      requires GoodBooks(numAssets, books)
      modifies tableau, tableau.store, tableau.store.alloc, objective
      ensures Running() && View() == Normalized(numAssets, books, numAssets)
    {
      hide InStep, SparseTableau.Backed, DenseOf, ValuesOf, NumOrderbooks, ProgramRows, ProgramValues, IsOpen;
      hide NormalForm, RunInvariant, HasBook;
      assert HintsCover() by { GoalBounds(numAssets); }
      for asset := 0 to numAssets
        invariant Sized() && OpenCols() && HintsCover()
        invariant View() == Normalized(numAssets, books, asset) && activeBasis == StartBasis(numAssets, books)
      {
        NormalizeOne(asset);
      }
      NormalizedInvariant(numAssets, books);
      StartBasisOpen(numAssets, books);
    }

    method NormalizeOne(asset: nat)
      requires Sized() && OpenCols() && HintsCover() && asset < numAssets
      requires View() == Normalized(numAssets, books, asset) && activeBasis == StartBasis(numAssets, books)
      modifies tableau, tableau.store, tableau.store.alloc, objective
      ensures Sized() && OpenCols() && HintsCover()
      ensures View() == Normalized(numAssets, books, asset + 1) && activeBasis == StartBasis(numAssets, books)
    {
      hide InStep, SparseTableau.Backed, DenseOf, ValuesOf, NumOrderbooks, ProgramRows, ProgramValues, IsOpen, BooksOk,
        AssetValue, NegateTableau;
      assert activeBasis[asset] == PenaltyCol(numAssets, asset) <==> Short(books, asset);
      if activeBasis[asset] == PenaltyCol(numAssets, asset) { NegateShort(asset); }
    }

    /** Negate a short asset row and eliminate its penalty from the objective. */
    method NegateShort(asset: nat)
      requires Sized() && HintsCover() && asset < numAssets
      modifies tableau, tableau.store, tableau.store.alloc, objective
      ensures Sized() && HintsCover()
      ensures var q, s := PenaltyCol(numAssets, asset), NegateTableau(old(View()), NumCols(numAssets), asset);
        View() == s.(obj := SubRow(s.obj, s.obj[q], s.m[asset]), objVal := s.objVal - s.obj[q] * s.v[asset])
    {
      hide InStep, SparseTableau.Backed, DenseOf, ValuesOf, NumOrderbooks, Signed, BooksOk, SubRow, Matrix.NegateRow;
      tableau.NegateRow(asset);
      var v := tableau.GetValue(asset);
      var row := tableau.ReadRow(asset);
      RowDense(tableau.rows, tableau.cols, tableau.negations, asset);
      objective.SubtractSparse(row, tableau.negations[asset], v, PenaltyCol(numAssets, asset));
    }

    /** Pivot until no open column improves. The fuel bounds the number of pivots: the
        column choice has no rule against cycling, so termination is not claimed. Giving up
        means that exactly so many improving pivots have been made. */
    method RunSimplex(fuel: nat) returns (finished: bool)
      requires Running()
      modifies this`activeBasis, tableau, tableau.store, tableau.store.alloc, objective
      ensures Running()
      ensures finished ==> Finished(View(), numAssets, books)
      ensures RunMade(old(View()), View(), NumCols(numAssets), activeCols, fuel, !finished)
    {
      hide RunInvariant, InStep, SparseTableau.Backed, IsOpen, NumCols, FlowLp, BasisOpen, PivotsTo, Improves, RunMade;
      var left := fuel;
      NoPivots(View(), NumCols(numAssets), activeCols);
      while left > 0
        invariant Running() && 0 <= left <= fuel
        invariant PivotsTo(old(View()), View(), NumCols(numAssets), activeCols, fuel - left)
        decreases left
      {
        ghost var t := View();
        var pivoted := DoPivot();
        if !pivoted {
          MadeRun(old(View()), View(), NumCols(numAssets), activeCols, fuel, false, fuel - left);
          return true;
        }
        OnePivotMore(old(View()), t, View(), NumCols(numAssets), activeCols, fuel - left);
        left := left - 1;
      }
      MadeRun(old(View()), View(), NumCols(numAssets), activeCols, fuel, true, fuel);
      return false;
    }

    /** Whenever the check returns, it returns true exactly when the accepted bounds
        admit a flow; and then one in whole units. It gives up only after making so many improving
        pivots from the normalised start. No orderbook may have been accepted twice,
        for then the rows have no basis to start from. */
    method CheckFeasibility(fuel: nat) returns (res: Option<bool>)
      requires Building() && GoodBooks(numAssets, books)
      modifies this`activeBasis, tableau, tableau.store, tableau.store.alloc, objective
      ensures res.Some? ==> (res.value <==> HasRealFlow(numAssets, books))
      ensures res.Some? ==> (res.value <==> HasIntegerFlow(numAssets, books))
      ensures Sized() && RunMade(Normalized(numAssets, books, numAssets), View(), NumCols(numAssets), activeCols, fuel,
                                 res.None?)
    {
      SetFeasibilityObjectiveCoeffs();
      NormalizeAssetConstraints();
      var finished := RunSimplex(fuel);
      if !finished { return None; }
      FinishedDecides(View(), numAssets, books);
      return Some(objective.value == 0);
    }
  }

  lemma PivotRowFound(t: Tableau, n: nat, books: seq<Book>, q: nat)
    requires GoodBooks(n, books) && RunInvariant(t, FlowLp(n, books), NumCols(n))
    requires q < NumCols(n) && t.obj[q] > 0
    ensures exists r :: 0 <= r < |t.m| && t.m[r][q] == 1
  {
    NonpositiveBounded(FlowLp(n, books), NumCols(n));
    PivotRowExists(t, FlowLp(n, books), NumCols(n), 0, q);
  }

  lemma PivotStays(t: Tableau, n: nat, books: seq<Book>, p: nat, q: nat)
    requires GoodBooks(n, books) && RunInvariant(t, FlowLp(n, books), NumCols(n))
    requires q < NumCols(n) && IsPivotRow(t, NumCols(n), p, q)
    ensures RunInvariant(PivotTableau(t, NumCols(n), p, q), FlowLp(n, books), NumCols(n))
    ensures PivotUnit(t.m, NumCols(n), p, q)
    ensures PivotTableau(t, NumCols(n), p, q).obj[q] == 0
  {
    PivotKeeps(t, FlowLp(n, books), NumCols(n), p, q);
    EntriesUnit(PivotTableau(t, NumCols(n), p, q), FlowLp(n, books), NumCols(n));
  }

  lemma PivotRowKept(m: Mat, cols: nat, v: seq<int>, p: nat, q: nat)
    requires Rect(m, cols) && |v| == |m| && p < |m| && q < cols
    ensures Pivot(m, cols, p, q)[p] == m[p] && PivotValues(m, cols, v, p, q)[p] == v[p]
  {
  }

  lemma RowDense(rows: seq<SignedRow>, cols: seq<Lists>, flags: seq<bool>, p: nat)
    requires |rows| == |flags| && p < |rows| && InStep(rows, cols)
    ensures ListsOk(rows[p].lists, |cols|)
    ensures DenseOf(rows, flags, |cols|)[p] == seq(|cols|, c requires 0 <= c => Signed(rows[p].lists, flags[p], c))
  {
  }

  lemma OpenBookColumn(n: nat, books: seq<Book>, q: nat)
    requires GoodBooks(n, books) && IsOpen(n, books, q)
    ensures q < NumOrderbooks(n) ==> HasBook(n, books, q)
  {
  }

  function GoalUpTo(n: nat, k: nat): (g: seq<int>)
    ensures |g| == NumCols(n)
  {
    seq(NumCols(n), j => if PenaltyCol(n, 0) <= j < PenaltyCol(n, k) then -1 else 0)
  }

  lemma GoalSteps(n: nat, k: nat)
    requires k < n
    ensures GoalUpTo(n, k + 1) == GoalUpTo(n, k)[PenaltyCol(n, k) := -1]
  {
    hide NumOrderbooks;
    var a, b := GoalUpTo(n, k + 1), GoalUpTo(n, k)[PenaltyCol(n, k) := -1];
    forall j | 0 <= j < NumCols(n) ensures a[j] == b[j] {
      assert a[j] == if PenaltyCol(n, 0) <= j < PenaltyCol(n, k + 1) then -1 else 0;
    }
  }

  lemma GoalEnds(n: nat)
    ensures GoalUpTo(n, 0) == seq(NumCols(n), _ => 0) && GoalUpTo(n, n) == Goal(n)
  {
    hide NumOrderbooks;
    var a, b := GoalUpTo(n, n), Goal(n);
    forall j | 0 <= j < NumCols(n) ensures a[j] == b[j] {
      assert a[j] == if PenaltyCol(n, 0) <= j < PenaltyCol(n, n) then -1 else 0;
    }
  }

  lemma StartBasisOpen(n: nat, books: seq<Book>)
    requires GoodBooks(n, books)
    ensures BasisOpen(n, books, StartBasis(n, books))
  {
    hide Index, NumOrderbooks;
  }

  // ---- building, as functions ----

  function AssetRows(n: nat, k: nat): (m: Mat)
    ensures |m| == k
  {
    seq(k, a requires 0 <= a => AssetRow(n, a, n))
  }

  function SlackBasis(n: nat, k: nat): (b: seq<nat>)
    ensures |b| == k
  {
    seq(k, a requires 0 <= a => SlackCol(n, a))
  }

  lemma NoRows(n: nat)
    ensures AssetRows(n, 0) == [] && SlackBasis(n, 0) == [] && seq(0, _ => 0) == []
  {
  }

  lemma EmptyProgram(n: nat)
    ensures ProgramRows(n, []) == AssetRows(n, n)
    ensures ProgramValues(n, []) == seq(n, _ => 0)
    ensures StartBasis(n, []) == SlackBasis(n, n)
    ensures forall j :: 0 <= j < NumCols(n) ==> !IsOpen(n, [], j)
  {
  }

  lemma NextAssetRow(n: nat, k: nat)
    ensures AssetRows(n, k + 1) == AssetRows(n, k) + [AssetRow(n, k, n)]
    ensures SlackBasis(n, k + 1) == SlackBasis(n, k) + [SlackCol(n, k)]
  {
    hide AssetRow, NumOrderbooks;
  }

  lemma FirstAssetRow(n: nat, a: nat)
    requires a < n
    ensures AssetRow(n, a, 0) == seq(NumCols(n), _ => 0)[SlackCol(n, a) := 1][PenaltyCol(n, a) := -1]
  {
    hide Index, SellOf, BuyOf, NumOrderbooks;
  }

  /** What one more book adds to the program: its row, its capacity, and its lower
      bound on the values of its two assets. */
  lemma ProgramGrows(n: nat, books: seq<Book>, b: Book)
    requires BooksOk(n, books) && ValidCategory(n, b.sell, b.buy)
    ensures ProgramRows(n, books + [b]) == ProgramRows(n, books) + [BookRow(n, BookIdx(n, b))]
    ensures ProgramValues(n, books + [b]) ==
      (ProgramValues(n, books) + [b.upper - b.lower])
        [b.buy := ProgramValues(n, books)[b.buy] - b.lower][b.sell := ProgramValues(n, books)[b.sell] + b.lower]
  {
    hide Index, SellOf, BuyOf, NumOrderbooks, AssetRow, BookRow;
    assert (books + [b])[..|books|] == books;
    assert ProgramRows(n, books + [b]) == ProgramRows(n, books) + [BookRow(n, BookIdx(n, b))];
  }

  lemma BasisGrows(n: nat, books: seq<Book>, b: Book)
    requires BooksOk(n, books) && ValidCategory(n, b.sell, b.buy)
    ensures var v := ProgramValues(n, books + [b]);
      StartBasis(n, books + [b]) ==
      (StartBasis(n, books) + [CapacityCol(n, BookIdx(n, b))])
        [b.buy := if v[b.buy] < 0 then PenaltyCol(n, b.buy) else SlackCol(n, b.buy)]
        [b.sell := if v[b.sell] < 0 then PenaltyCol(n, b.sell) else SlackCol(n, b.sell)]
  {
    hide Index, SellOf, BuyOf, NumOrderbooks;
    assert (books + [b])[..|books|] == books;
  }

  lemma BooksGrow(n: nat, books: seq<Book>, b: Book, was: seq<bool>, now: seq<bool>)
    requires BooksOk(n, books) && ValidCategory(n, b.sell, b.buy) && b.lower < b.upper
    requires BookIdx(n, b) < NumOrderbooks(n)
    requires |was| == NumCols(n)
    requires forall j :: 0 <= j < NumCols(n) ==> (was[j] <==> IsOpen(n, books, j))
    requires now == was[BookIdx(n, b) := true][CapacityCol(n, BookIdx(n, b)) := true]
      [SlackCol(n, b.sell) := true][PenaltyCol(n, b.sell) := true]
      [SlackCol(n, b.buy) := true][PenaltyCol(n, b.buy) := true]
    ensures BooksOk(n, books + [b])
    ensures forall j :: 0 <= j < NumCols(n) ==> (now[j] <==> IsOpen(n, books + [b], j))
  {
    hide Index, SellOf, BuyOf, NumOrderbooks;
    var more := books + [b];
    forall c: nat ensures HasBook(n, more, c) <==> HasBook(n, books, c) || c == BookIdx(n, b) {
      HasBookGrows(n, books, b, c);
    }
    forall a: nat ensures Touched(more, a) <==> Touched(books, a) || a == b.sell || a == b.buy {
      TouchedGrows(books, b, a);
    }
  }

  lemma HasBookGrows(n: nat, books: seq<Book>, b: Book, c: nat)
    requires BooksOk(n, books) && BooksOk(n, books + [b]) && ValidCategory(n, b.sell, b.buy)
    ensures HasBook(n, books + [b], c) <==> HasBook(n, books, c) || c == BookIdx(n, b)
  {
    hide Index;
    var more := books + [b];
    if HasBook(n, books, c) {
      var i :| 0 <= i < |books| && BookIdx(n, books[i]) == c;
      assert more[i] == books[i];
    }
    if c == BookIdx(n, b) { assert more[|books|] == b; }
  }

  lemma TouchedGrows(books: seq<Book>, b: Book, a: nat)
    ensures Touched(books + [b], a) <==> Touched(books, a) || a == b.sell || a == b.buy
  {
    var more := books + [b];
    if Touched(books, a) {
      var i :| 0 <= i < |books| && (books[i].sell == a || books[i].buy == a);
      assert more[i] == books[i];
    }
    if a == b.sell || a == b.buy { assert more[|books|] == b; }
  }
}
