/** What the objective value of a finished run says about the orderbook bounds. */
module Feasibility {
  import opened LinearSystem
  import opened SimplexRun
  import opened OfferCategories
  import opened FlowProgram

  /** No closed book column is in the basis. */
  ghost predicate BasisOpen(n: nat, books: seq<Book>, basis: seq<nat>)
    requires GoodBooks(n, books)
  {
    forall r :: 0 <= r < |basis| && basis[r] < NumOrderbooks(n) ==> HasBook(n, books, basis[r])
  }

  /** No open column can improve the objective. */
  ghost predicate Finished(t: Tableau, n: nat, books: seq<Book>)
    requires GoodBooks(n, books) && Shaped(t, NumCols(n))
  {
    forall j :: 0 <= j < NumCols(n) && IsOpen(n, books, j) ==> t.obj[j] <= 0
  }

  ghost predicate HasRealFlow(n: nat, books: seq<Book>)
    requires GoodBooks(n, books)
  {
    exists y :: FeasibleFlow(n, books, y)
  }

  ghost predicate HasIntegerFlow(n: nat, books: seq<Book>)
    requires GoodBooks(n, books)
  {
    exists g :: FeasibleFlow(n, books, Reals(g))
  }

  lemma GoalBounds(n: nat)
    ensures forall j :: 0 <= j < NumCols(n) ==> Goal(n)[j] == 0 || Goal(n)[j] == -1
  {
  }

  /** A finished run with positive value refutes every flow, fractional ones included. */
  lemma PositiveRefutes(t: Tableau, n: nat, books: seq<Book>, y: seq<real>)
    requires GoodBooks(n, books) && RunInvariant(t, FlowLp(n, books), NumCols(n)) && Finished(t, n, books)
    requires FeasibleFlow(n, books, y)
    ensures t.objVal == 0
  {
    hide Index, SellOf, BuyOf, NumOrderbooks, ProgramRows, ProgramValues, IsOpen;
    var lp, x := FlowLp(n, books), FlowPoint(n, books, y);
    FlowToPoint(n, books, y);
    var open := seq(NumCols(n), j requires 0 <= j => IsOpen(n, books, j));
    Optimal(t, lp, NumCols(n), open, x);
    BasicSolves(t, lp, NumCols(n));
    GoalBounds(n);
    GoalZero(Goal(n), Basic(t, NumCols(n)), NumCols(n), 0);
  }

  /** A run of value zero exhibits a flow, and one in whole units: the basic solution is integral. */
  lemma ZeroExhibits(t: Tableau, n: nat, books: seq<Book>)
    requires GoodBooks(n, books) && RunInvariant(t, FlowLp(n, books), NumCols(n))
    requires BasisOpen(n, books, t.basis) && t.objVal == 0
    ensures HasIntegerFlow(n, books)
  {
    hide Index, SellOf, BuyOf, NumOrderbooks, ProgramRows, ProgramValues;
    var cols, x := NumCols(n), Basic(t, NumCols(n));
    BasicSolves(t, FlowLp(n, books), cols);
    forall c | 0 <= c < NumOrderbooks(n) && !HasBook(n, books, c) ensures x[c] == 0.0 {
      assert !IsBasic(t.basis, c);
      assert EdgeAt(t.m, cols, t.v, t.basis, cols, 0, c) == 0;
    }
    PointToFlow(n, books, x);
    var g := seq(NumOrderbooks(n), c requires 0 <= c < NumOrderbooks(n) =>
      EdgeAt(t.m, cols, t.v, t.basis, cols, 0, c) + LowerAt(n, books, c));
    assert Reals(g) == PointFlow(n, books, x);
  }

  /** Integrality: bounds that admit a fractional flow admit one in whole units, once
      a run has finished on them. */
  lemma FinishedDecides(t: Tableau, n: nat, books: seq<Book>)
    requires GoodBooks(n, books) && RunInvariant(t, FlowLp(n, books), NumCols(n))
    requires BasisOpen(n, books, t.basis) && Finished(t, n, books)
    ensures t.objVal == 0 <==> HasRealFlow(n, books)
    ensures t.objVal == 0 <==> HasIntegerFlow(n, books)
  {
    if t.objVal == 0 { ZeroExhibits(t, n, books); }
    if HasRealFlow(n, books) {
      var y :| FeasibleFlow(n, books, y);
      PositiveRefutes(t, n, books, y);
    }
  }
}
