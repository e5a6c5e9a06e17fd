/** The tax-free solver: it maximises the total trade within the capacities, and every run
    of packed pivots keeps all coefficients within -1, 0 and 1. */
module TaxFree {
  import opened Matrix
  import opened SimplexRun
  import opened OfferCategories
  import opened FlowProgram
  import opened Feasibility
  import opened DenseSimplex
  import opened TaxFreeProgram

  class TaxFreeSimplex {
    const numAssets: nat
    const solver: TUSimplex
    /** The orderbooks added, each with its capacity as upper bound. The lower bound is zero,
        unless the capacity is negative and nothing can fit. */
    ghost var books: seq<Book>

    ghost predicate Building()
      reads this, solver, solver.objective, solver.rows
    {
      && solver.Valid() && solver.numCols == Width(numAssets) && BooksOk(numAssets, books)
      && solver.Contents() == TaxFreeStart(numAssets, books)
      && forall c :: 0 <= c < Width(numAssets) ==> (solver.activeCols[c] <==> IsOpen(numAssets, books, c))
    }

    constructor (n: nat)
      ensures numAssets == n && books == [] && Building() && fresh(solver) && fresh(solver.objective)
    {
      numAssets := n;
      solver := new TUSimplex(Width(n));
      books := [];
      new;
      for sell := 0 to n
        invariant solver.Valid() && solver.numCols == Width(n) && solver.Contents() == AssetTableau(n, sell)
        invariant solver.activeCols == seq(Width(n), _ => false)
        invariant books == [] && fresh(solver) && fresh(solver.objective) && forall r :: r in solver.rows ==> fresh(r)
      {
        AddAssetConstraint(sell);
      }
      NoBooks(n);
    }

    /** Write minus one and one into the last row. */
    method SetPair(i: nat, j: nat, ghost above: Mat, ghost row: seq<int>)
      requires solver.Valid() && |solver.rows| > 0 && i < solver.numCols && j < solver.numCols && i != j
      requires |row| == solver.numCols && row[i] == 0 && row[j] == 0 && solver.Contents().m == above + [row]
      modifies solver.rows[|solver.rows| - 1]
      ensures solver.Valid() && solver.Contents() == old(solver.Contents()).(m := above + [row[i := -1][j := 1]])
    {
      hide TUSimplex.Contents, TUSimplex.Valid;
      solver.SetEntry(i, true, above, row);
      solver.SetEntry(j, false, above, row[i := -1]);
    }

    /** The balance row of an asset. */
    method AddAssetConstraint(sell: nat)
      requires solver.Valid() && solver.numCols == Width(numAssets) && sell < numAssets
      requires solver.Contents() == AssetTableau(numAssets, sell)
      modifies solver`rows, solver`activeBasis
      ensures solver.Valid() && solver.Contents() == AssetTableau(numAssets, sell + 1)
      ensures exists row :: fresh(row) && solver.rows == old(solver.rows) + [row]
    {
      hide Index, SellOf, BuyOf, NumOrderbooks, AssetEntry, AssetRow, AssetRows, TUSimplex.Contents, TUSimplex.Valid;
      ghost var above := AssetRows(numAssets, sell);
      FirstRow(numAssets, sell);
      var row := solver.AddNewConstraintRow(SlackCol(numAssets, sell));
      ghost var t := solver.Contents();
      solver.SetEntry(SlackCol(numAssets, sell), false, above, seq(Width(numAssets), _ => 0));
      for buy := 0 to numAssets
        invariant solver.Valid() && solver.rows == old(solver.rows) + [row]
        invariant solver.Contents() == t.(m := above + [AssetRow(numAssets, sell, buy)[..Width(numAssets)]])
      {
        NextEntry(numAssets, sell, buy);
        if buy != sell {
          SetPair(Index(numAssets, sell, buy), Index(numAssets, buy, sell), above,
                  AssetRow(numAssets, sell, buy)[..Width(numAssets)]);
        }
      }
      NextAsset(numAssets, sell);
    }

    /** An empty row with two ones. */
    method AddCapacityRow(idx: nat, cap: nat)
      requires solver.Valid() && idx < solver.numCols && cap < solver.numCols && idx != cap
      modifies solver`rows, solver`activeBasis
      ensures solver.Valid() && |solver.rows| > 0
      ensures var t := old(solver.Contents());
        solver.Contents() == t.(m := t.m + [seq(solver.numCols, _ => 0)[idx := 1][cap := 1]], v := t.v + [0],
                                basis := t.basis + [cap])
      ensures forall i :: 0 <= i < |solver.rows| - 1 ==> solver.rows[i] == old(solver.rows)[i]
      ensures |solver.rows| == |old(solver.rows)| + 1 && fresh(solver.rows[|solver.rows| - 1])
    {
      hide TUSimplex.Contents;
      ghost var above, zero := solver.Contents().m, seq(solver.numCols, _ => 0);
      var row := solver.AddNewConstraintRow(cap);
      solver.SetEntry(idx, false, above, zero);
      solver.SetEntry(cap, false, above, zero[idx := 1]);
    }

    /** The changes that an orderbook makes to the tableau and its columns. */
    method RecordBook(idx: nat, cap: nat, value: int, sell: nat, buy: nat)
      requires solver.Valid() && solver.numCols == Width(numAssets) && idx < solver.numCols && cap < solver.numCols
      requires idx != cap && sell < numAssets && buy < numAssets
      modifies solver`rows, solver`activeBasis, solver`activeCols, solver.objective
      ensures solver.Valid()
      ensures var t := old(solver.Contents());
        solver.Contents() == t.(m := t.m + [seq(solver.numCols, _ => 0)[idx := 1][cap := 1]], v := t.v + [value],
                                basis := t.basis + [cap], obj := t.obj[idx := 1])
      ensures forall c :: 0 <= c < solver.numCols ==>
        (solver.activeCols[c] <==>
          old(solver.activeCols)[c] || c in [idx, cap, SlackCol(numAssets, sell), SlackCol(numAssets, buy)])
    {
      hide NumOrderbooks, TUSimplex.Contents;
      ghost var v := solver.Contents().v;
      AddCapacityRow(idx, cap);
      solver.Activate([idx, cap, SlackCol(numAssets, sell), SlackCol(numAssets, buy)]);
      solver.SetValue(value);
      assert (v + [0])[|solver.rows| - 1 := value] == v + [value];
      solver.SetGoal(idx);
    }

    /** The capacity row of an orderbook, with its goal and its columns. */
    method AddOrderbookConstraint(value: int, sell: nat, buy: nat)
      requires Building() && ValidCategory(numAssets, sell, buy)
      modifies this`books, solver`rows, solver`activeBasis, solver`activeCols, solver.objective
      ensures Building() && books == old(books) + [Capped(sell, buy, value)]
    {
      hide Index, NumOrderbooks, BookRow, HasBook, IsOpen, TaxFreeStart, TUSimplex.Contents, TUSimplex.Valid;
      ghost var b := Capped(sell, buy, value);
      var idx := BookCol(numAssets, sell, buy);
      var cap := CapacityCol(numAssets, idx);
      IndexInverts(numAssets, sell, buy);
      CapacityRow(numAssets, idx);
      StartGrows(numAssets, books, b);
      forall j | 0 <= j < Width(numAssets)
        ensures IsOpen(numAssets, books + [b], j) <==>
          IsOpen(numAssets, books, j) || j in [idx, cap, SlackCol(numAssets, sell), SlackCol(numAssets, buy)]
      {
        OpenGrows(numAssets, books, b, j);
      }
      RecordBook(idx, cap, value, sell, buy);
      books := books + [b];
    }

    /** Run to the end: with capacities of at least zero the search for a pivot row never
        throws, and a finished run has found the largest total trade. All coefficients stay in
        -1, 0 and 1, and the objective entries within the number of rows and one, so that with at
        most 126 assets and orderbooks together they fit 8 bits. The fuel bounds the number of
        pivots, and no orderbook was added twice. */
    method RunSimplex(fuel: nat) returns (result: PivotResult)
      requires Building() && GoodBooks(numAssets, books)
      modifies solver`activeBasis, solver.objective, solver.rows
      ensures solver.Valid() && UnitEntries(solver.Contents().m, Width(numAssets))
      ensures var rows := numAssets + |books|;
        forall j :: 0 <= j < Width(numAssets) ==> -rows <= solver.Contents().obj[j] <= rows + 1
      ensures RunMade(TaxFreeStart(numAssets, books), solver.Contents(), Width(numAssets), solver.activeCols, fuel,
                      result == Pivoted)
      ensures FromZero(books) ==> result != NoRow
      ensures FromZero(books) && result == NoColumn ==> IsMaximum(numAssets, books, -solver.Contents().objVal)
    {
      hide Signable, GoodBooks, TaxFreeRows, TaxFreeStart, TaxFreeLp, IsOpen, PlainInvariant, BasisOpen, IsMaximum,
        TUSimplex.Contents, TUSimplex.Valid, FromZero, OnTrack, PivotsTo, Improves, RunMade;
      StartSound(numAssets, books);
      StartTrade(numAssets, books);
      result := Pivoted;
      var left := fuel;
      ghost var pivots: nat := 0;
      NoPivots(solver.Contents(), Width(numAssets), solver.activeCols);
      while left > 0 && result == Pivoted
        invariant solver.Valid() && Signable(solver.Contents().m, Width(numAssets)) && solver.rows == old(solver.rows)
        invariant left <= fuel && pivots <= fuel && (result == Pivoted ==> pivots == fuel - left)
        invariant PivotsTo(old(solver.Contents()), solver.Contents(), Width(numAssets), solver.activeCols, pivots)
        invariant OnTrack(solver.Contents(), numAssets, books)
        invariant FromZero(books) ==> OnCourse(solver.Contents(), numAssets, books) && result != NoRow
        invariant FromZero(books) && result == NoColumn ==> IsMaximum(numAssets, books, -solver.Contents().objVal)
      {
        ghost var p, q;
        ghost var t := solver.Contents();
        result, p, q := solver.DoPivot();
        StepTrade(t, solver.Contents(), numAssets, books, result, p, q);
        if FromZero(books) { StepSound(t, solver.Contents(), numAssets, books, solver.activeCols, result, p, q); }
        left := left - 1;
        if result == Pivoted {
          StepImproves(t, solver.Contents(), Width(numAssets), solver.activeCols, p, q);
          OnePivotMore(old(solver.Contents()), t, solver.Contents(), Width(numAssets), solver.activeCols, pivots);
          pivots := pivots + 1;
        }
      }
      MadeRun(old(solver.Contents()), solver.Contents(), Width(numAssets), solver.activeCols, fuel,
              result == Pivoted, pivots);
      SignableUnit(solver.Contents().m, Width(numAssets));
      TradeWithin(solver.Contents(), numAssets, books);
    }
  }
}
