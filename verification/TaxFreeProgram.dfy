/** The program of the tax-free solver and its meaning: its solutions are the flows within
    the capacities in which every asset sells at least as much as it buys, and its goal is
    the total trade. */
module TaxFreeProgram {
  import opened Matrix
  import opened LinearSystem
  import opened SimplexRun
  import opened OfferCategories
  import opened FlowProgram
  import opened FlowStart
  import opened Feasibility
  import opened DenseSimplex

  // ---- fewer columns ----

  function Trim(m: Mat, cols: nat, k: nat): (t: Mat)
    requires Rect(m, cols) && k <= cols
    ensures |t| == |m| && Rect(t, k)
  {
    seq(|m|, r requires 0 <= r < |m| => m[r][..k])
  }

  lemma {:induction false} TrimColSum(w: seq<int>, m: Mat, cols: nat, k: nat, j: nat, n: nat)
    requires Rect(m, cols) && j < k <= cols && n <= |w| && n <= |m|
    ensures ColSum(w, Trim(m, cols, k), k, j, n) == ColSum(w, m, cols, j, n)
  {
    if n > 0 { TrimColSum(w, m, cols, k, j, n - 1); }
  }

  /** Dropping columns keeps the signing property. */
  lemma TrimSignable(m: Mat, cols: nat, k: nat)
    requires Rect(m, cols) && k <= cols && Signable(m, cols)
    ensures Signable(Trim(m, cols, k), k)
  {
    var t := Trim(m, cols, k);
    forall rows: set<nat> ensures HasSigning(t, k, rows) {
      assert HasSigning(m, cols, rows);
      var w :| BalancedSigning(w, m, cols, rows);
      forall j | 0 <= j < k ensures -1 <= ColSum(w, t, k, j, |t|) <= 1 {
        TrimColSum(w, m, cols, k, j, |m|);
        assert -1 <= ColSum(w, m, cols, j, |m|) <= 1;
      }
      assert BalancedSigning(w, t, k, rows);
    }
  }

  // ---- the constraints ----

  /** Columns of the tax-free program: those of the feasibility program without penalties. */
  function Width(n: nat): nat { 2 * NumOrderbooks(n) + n }

  function TaxFreeRows(n: nat, books: seq<Book>): (m: Mat)
    requires forall i :: 0 <= i < |books| ==> ValidCategory(n, books[i].sell, books[i].buy)
    ensures |m| == n + |books| && Rect(m, Width(n))
  {
    Trim(ProgramRows(n, books), NumCols(n), Width(n))
  }

  /** The constructed constraints have the signing property. */
  lemma TaxFreeSignable(n: nat, books: seq<Book>)
    requires GoodBooks(n, books)
    ensures Signable(TaxFreeRows(n, books), Width(n))
  {
    hide Signable, ProgramRows, NumOrderbooks;
    StartSignable(n, books);
    var t := StartTableau(n, books);
    DropRow(t.m, t.obj, NumCols(n));
    TrimSignable(ProgramRows(n, books), NumCols(n), Width(n));
  }

  lemma RowsGrow(n: nat, books: seq<Book>, b: Book)
    requires BooksOk(n, books) && ValidCategory(n, b.sell, b.buy)
    ensures TaxFreeRows(n, books + [b]) == TaxFreeRows(n, books) + [BookRow(n, BookIdx(n, b))[..Width(n)]]
  {
    hide Index, NumOrderbooks, BookRow, AssetRow;
    assert ProgramRows(n, books + [b]) == ProgramRows(n, books) + [BookRow(n, BookIdx(n, b))];
  }

  /** The first k asset rows. */
  function AssetRows(n: nat, k: nat): (m: Mat)
    ensures |m| == k
  {
    seq(k, a requires 0 <= a => AssetRow(n, a, n)[..Width(n)])
  }

  lemma FirstRow(n: nat, a: nat)
    requires a < n
    ensures SlackCol(n, a) < Width(n)
    ensures AssetRow(n, a, 0)[..Width(n)] == seq(Width(n), _ => 0)[SlackCol(n, a) := 1]
  {
    hide Index, SellOf, BuyOf, NumOrderbooks;
  }

  lemma NextEntry(n: nat, a: nat, k: nat)
    requires a < n && k < n
    ensures k == a ==> AssetRow(n, a, k + 1)[..Width(n)] == AssetRow(n, a, k)[..Width(n)]
    ensures k != a ==>
      var r, i, j := AssetRow(n, a, k)[..Width(n)], Index(n, a, k), Index(n, k, a);
      && i < Width(n) && j < Width(n) && i != j && r[i] == 0 && r[j] == 0
      && AssetRow(n, a, k + 1)[..Width(n)] == r[i := -1][j := 1]
  {
    hide Index, NumOrderbooks, AssetRow;
    AssetRowStep(n, a, k);
  }

  lemma CapacityRow(n: nat, c: nat)
    requires c < NumOrderbooks(n)
    ensures c < Width(n) && CapacityCol(n, c) < Width(n) && c != CapacityCol(n, c)
    ensures BookRow(n, c)[..Width(n)] == seq(Width(n), _ => 0)[c := 1][CapacityCol(n, c) := 1]
  {
    hide NumOrderbooks;
  }

  function BookCol(n: nat, sell: nat, buy: nat): (c: nat)
    requires ValidCategory(n, sell, buy)
    ensures c == Index(n, sell, buy) && c < Width(n)
  {
    IndexInverts(n, sell, buy);
    Index(n, sell, buy)
  }

  // ---- the start of a run ----

  /** Capacities of at least zero: nothing has to be traded. */
  ghost predicate FromZero(books: seq<Book>) {
    forall i :: 0 <= i < |books| ==> books[i].lower == 0
  }

  function Capacities(n: nat, books: seq<Book>): (v: seq<int>)
    ensures |v| == n + |books|
  {
    seq(n, _ => 0) + seq(|books|, i requires 0 <= i < |books| => books[i].upper)
  }

  /** Maximise what the added orderbooks trade. */
  ghost function TradeGoal(n: nat, books: seq<Book>): (g: seq<int>)
    requires BooksOk(n, books)
    ensures |g| == Width(n)
  {
    seq(Width(n), j requires 0 <= j => if j < NumOrderbooks(n) && HasBook(n, books, j) then 1 else 0)
  }

  function TaxFreeBasis(n: nat, books: seq<Book>): (b: seq<nat>)
    requires forall i :: 0 <= i < |books| ==> ValidCategory(n, books[i].sell, books[i].buy)
    ensures |b| == n + |books|
  {
    seq(n, a requires 0 <= a => SlackCol(n, a)) +
    seq(|books|, i requires 0 <= i < |books| => CapacityCol(n, BookIdx(n, books[i])))
  }

  ghost function TaxFreeLp(n: nat, books: seq<Book>): Program
    requires BooksOk(n, books)
  {
    Program(TaxFreeRows(n, books), Capacities(n, books), TradeGoal(n, books))
  }

  ghost function TaxFreeStart(n: nat, books: seq<Book>): Tableau
    requires BooksOk(n, books)
  {
    Tableau(TaxFreeRows(n, books), Capacities(n, books), TradeGoal(n, books), 0, TaxFreeBasis(n, books))
  }

  /** What one more orderbook opens. */
  lemma BooksMore(n: nat, books: seq<Book>, b: Book)
    requires BooksOk(n, books) && ValidCategory(n, b.sell, b.buy) && b.lower <= b.upper
    ensures BooksOk(n, books + [b]) && BookIdx(n, b) < NumOrderbooks(n) && BookIdx(n, b) < Width(n)
    ensures forall c: nat :: HasBook(n, books + [b], c) <==> HasBook(n, books, c) || c == BookIdx(n, b)
    ensures forall a: nat :: Touched(books + [b], a) <==> Touched(books, a) || a == b.sell || a == b.buy
  {
    hide Index, NumOrderbooks;
    var more := books + [b];
    IndexInverts(n, b.sell, b.buy);
    assert more[|books|] == b && forall i :: 0 <= i < |books| ==> more[i] == books[i];
    forall c: nat ensures HasBook(n, more, c) <==> HasBook(n, books, c) || c == BookIdx(n, b) {
      if HasBook(n, books, c) {
        var i :| 0 <= i < |books| && BookIdx(n, books[i]) == c;
        assert more[i] == books[i];
      }
    }
    forall a: nat ensures Touched(more, a) <==> Touched(books, a) || a == b.sell || a == b.buy {
      if Touched(books, a) {
        var i :| 0 <= i < |books| && (books[i].sell == a || books[i].buy == a);
        assert more[i] == books[i];
      }
    }
  }

  lemma OpenGrows(n: nat, books: seq<Book>, b: Book, j: nat)
    requires BooksOk(n, books) && ValidCategory(n, b.sell, b.buy) && b.lower <= b.upper && j < Width(n)
    ensures BooksOk(n, books + [b])
    ensures IsOpen(n, books + [b], j) <==>
      IsOpen(n, books, j)
      || j in [BookIdx(n, b), CapacityCol(n, BookIdx(n, b)), SlackCol(n, b.sell), SlackCol(n, b.buy)]
  {
    hide Index, NumOrderbooks, BooksOk, HasBook, Touched;
    BooksMore(n, books, b);
  }

  lemma StartEntryTrimmed(n: nat, books: seq<Book>, r: nat, j: nat)
    requires GoodBooks(n, books) && r < n + |books| && j < Width(n)
    ensures TaxFreeRows(n, books)[r][j] == StartEntry(n, books, r, j)
  {
    StartEntries(n, books, r, j);
    assert WithObjective(StartTableau(n, books))[r] == ProgramRows(n, books)[r];
  }

  lemma {:induction false} NothingForced(books: seq<Book>, a: nat)
    requires FromZero(books)
    ensures AssetValue(books, a) == 0
  {
    if books != [] { NothingForced(books[..|books| - 1], a); }
  }

  lemma StartBasisForm(n: nat, books: seq<Book>)
    requires GoodBooks(n, books) && FromZero(books)
    ensures BasisForm(TaxFreeRows(n, books), Width(n), TradeGoal(n, books), TaxFreeBasis(n, books))
  {
    hide Index, SellOf, BuyOf, NumOrderbooks, StartEntry;
    var m, basis := TaxFreeRows(n, books), TaxFreeBasis(n, books);
    forall s | 0 <= s < |m| ensures basis[s] == StartBasis(n, books)[s] && NumOrderbooks(n) <= basis[s] < Width(n) {
      if s < n { NothingForced(books, s); } else { IndexInverts(n, books[s - n].sell, books[s - n].buy); }
    }
    forall r, s | 0 <= r < |m| && 0 <= s < |m| ensures m[r][basis[s]] == if r == s then 1 else 0 {
      StartEntryTrimmed(n, books, r, basis[s]);
      StartBasisColumn(n, books, s, r);
      if s < n { NothingForced(books, s); }
    }
  }

  /** A run from the constructed tableau keeps to its program. */
  lemma StartPlain(n: nat, books: seq<Book>)
    requires GoodBooks(n, books) && FromZero(books)
    ensures PlainInvariant(TaxFreeStart(n, books), TaxFreeLp(n, books), Width(n))
  {
    hide Index, NumOrderbooks, Signable, BasisForm, TaxFreeRows;
    TaxFreeSignable(n, books);
    StartBasisForm(n, books);
  }

  /** The tableau with the rows of the first k assets. */
  function AssetTableau(n: nat, k: nat): Tableau {
    Tableau(AssetRows(n, k), seq(k, _ => 0), seq(Width(n), _ => 0), 0, seq(k, a requires 0 <= a => SlackCol(n, a)))
  }

  lemma NextAsset(n: nat, k: nat)
    ensures var t := AssetTableau(n, k);
      && AssetRows(n, k + 1) == AssetRows(n, k) + [AssetRow(n, k, n)[..Width(n)]]
      && AssetTableau(n, k + 1) ==
           Tableau(AssetRows(n, k + 1), t.v + [0], t.obj, 0, t.basis + [SlackCol(n, k)])
  {
    hide NumOrderbooks, AssetRow;
    assert seq(k + 1, _ => 0) == seq(k, _ => 0) + [0];
  }

  lemma NoBooks(n: nat)
    ensures GoodBooks(n, []) && TaxFreeStart(n, []) == AssetTableau(n, n)
    ensures forall j :: 0 <= j < Width(n) ==> !IsOpen(n, [], j)
  {
    hide Index, NumOrderbooks, AssetRow;
    assert TaxFreeRows(n, []) == AssetRows(n, n);
    assert TaxFreeBasis(n, []) == AssetTableau(n, n).basis;
    assert TradeGoal(n, []) == AssetTableau(n, n).obj;
  }

  /** An orderbook with this capacity: nothing has to be traded, and nothing can be when the
      capacity is negative. */
  function Capped(sell: nat, buy: nat, value: int): Book {
    Book(sell, buy, if value < 0 then value else 0, value)
  }

  lemma StartGrows(n: nat, books: seq<Book>, b: Book)
    requires BooksOk(n, books) && ValidCategory(n, b.sell, b.buy) && b.lower <= b.upper
    ensures BooksOk(n, books + [b]) && BookIdx(n, b) < Width(n)
    ensures var t, c := TaxFreeStart(n, books), BookIdx(n, b);
      TaxFreeStart(n, books + [b]) ==
        t.(m := t.m + [BookRow(n, c)[..Width(n)]], v := t.v + [b.upper], basis := t.basis + [CapacityCol(n, c)],
           obj := t.obj[c := 1])
  {
    hide Index, NumOrderbooks, BookRow, AssetRow, HasBook;
    BooksMore(n, books, b);
    RowsGrow(n, books, b);
    var t, more := TaxFreeStart(n, books), books + [b];
    assert forall i :: 0 <= i < |books| ==> more[i] == books[i];
    assert TradeGoal(n, more) == t.obj[BookIdx(n, b) := 1];
    assert TaxFreeBasis(n, more) == t.basis + [CapacityCol(n, BookIdx(n, b))];
    assert Capacities(n, more) == t.v + [b.upper];
  }

  // ---- solutions and flows ----

  /** A point of the tax-free program, with no penalties. */
  ghost function Widen(n: nat, x: seq<real>): (z: seq<real>)
    requires |x| == Width(n)
    ensures |z| == NumCols(n)
  {
    x + seq(n, _ => 0.0)
  }

  lemma {:induction false} DotWiden(r: seq<int>, n: nat, x: seq<real>, k: nat)
    requires |r| == NumCols(n) && |x| == Width(n) && k <= NumCols(n)
    ensures Dot(r, Widen(n, x), k) == Dot(r[..Width(n)], x, if k < Width(n) then k else Width(n))
  {
    if k > 0 {
      DotWiden(r, n, x, k - 1);
      if k > Width(n) { assert Widen(n, x)[k - 1] == 0.0; } else { assert Widen(n, x)[k - 1] == x[k - 1]; }
    }
  }

  lemma WidenSolves(n: nat, books: seq<Book>, x: seq<real>)
    requires GoodBooks(n, books) && FromZero(books) && |x| == Width(n)
    ensures Solves(TaxFreeRows(n, books), Width(n), Capacities(n, books), x)
      <==> Solves(ProgramRows(n, books), NumCols(n), ProgramValues(n, books), Widen(n, x))
  {
    hide Index, NumOrderbooks, BookRow, AssetRow;
    var m, v := ProgramRows(n, books), ProgramValues(n, books);
    forall r | 0 <= r < |m|
      ensures Dot(m[r], Widen(n, x), NumCols(n)) == Dot(TaxFreeRows(n, books)[r], x, Width(n))
      ensures v[r] == Capacities(n, books)[r]
    {
      DotWiden(m[r], n, x, NumCols(n));
      if r < n { NothingForced(books, r); }
    }
  }

  /** The total that the first k orderbooks trade. */
  ghost function Traded(y: seq<real>, k: nat): real
    requires k <= |y|
  {
    if k == 0 then 0.0 else Traded(y, k - 1) + y[k - 1]
  }

  lemma {:induction false} GoalIsTrade(n: nat, books: seq<Book>, x: seq<real>, y: seq<real>, k: nat)
    requires GoodBooks(n, books) && |x| == Width(n) && |y| == NumOrderbooks(n) && k <= Width(n)
    requires forall c :: 0 <= c < |y| ==> y[c] == x[c] && (!HasBook(n, books, c) ==> x[c] == 0.0)
    ensures Dot(TradeGoal(n, books), x, k) == Traded(y, if k < |y| then k else |y|)
  {
    hide NumOrderbooks, HasBook;
    if k > 0 {
      GoalIsTrade(n, books, x, y, k - 1);
      assert TradeGoal(n, books)[k - 1] as real * x[k - 1] == if k - 1 < |y| then y[k - 1] else 0.0;
    }
  }

  lemma PenaltyGoal(n: nat, x: seq<real>)
    requires |x| == Width(n)
    ensures Dot(Goal(n), Widen(n, x), NumCols(n)) == 0.0
  {
    DotZero(Goal(n), Widen(n, x), NumCols(n));
  }

  lemma FromZeroLower(n: nat, books: seq<Book>, c: nat)
    requires GoodBooks(n, books) && FromZero(books)
    ensures LowerAt(n, books, c) == 0
  {
  }

  lemma SameFlow(n: nat, books: seq<Book>, x: seq<real>)
    requires GoodBooks(n, books) && FromZero(books) && |x| == Width(n)
    ensures PointFlow(n, books, Widen(n, x)) == x[..NumOrderbooks(n)]
  {
    hide NumOrderbooks, FromZero, GoodBooks;
    forall c | 0 <= c < NumOrderbooks(n) ensures LowerAt(n, books, c) == 0 { FromZeroLower(n, books, c); }
  }

  /** A solution that leaves closed orderbooks alone is a flow, and its goal the trade. */
  lemma SolutionIsFlow(n: nat, books: seq<Book>, x: seq<real>)
    requires GoodBooks(n, books) && FromZero(books) && |x| == Width(n)
    requires Solves(TaxFreeRows(n, books), Width(n), Capacities(n, books), x) && Nonnegative(x)
    requires forall c :: 0 <= c < NumOrderbooks(n) && !HasBook(n, books, c) ==> x[c] == 0.0
    ensures FeasibleFlow(n, books, x[..NumOrderbooks(n)])
    ensures Dot(TradeGoal(n, books), x, Width(n)) == Traded(x[..NumOrderbooks(n)], NumOrderbooks(n))
  {
    hide Index, NumOrderbooks, ProgramRows, ProgramValues, TaxFreeRows, Capacities, Solves, FeasibleFlow, HasBook, Dot;
    var z, y := Widen(n, x), x[..NumOrderbooks(n)];
    WidenSolves(n, books, x);
    PenaltyGoal(n, x);
    PointToFlow(n, books, z);
    SameFlow(n, books, x);
    GoalIsTrade(n, books, x, y, Width(n));
  }

  /** Every flow is such a solution. */
  lemma FlowIsSolution(n: nat, books: seq<Book>, y: seq<real>) returns (x: seq<real>)
    requires GoodBooks(n, books) && FromZero(books) && FeasibleFlow(n, books, y)
    ensures |x| == Width(n) && x[..NumOrderbooks(n)] == y
    ensures Solves(TaxFreeRows(n, books), Width(n), Capacities(n, books), x) && Nonnegative(x)
    ensures forall j :: 0 <= j < Width(n) && !IsOpen(n, books, j) ==> x[j] == 0.0
    ensures Dot(TradeGoal(n, books), x, Width(n)) == Traded(y, NumOrderbooks(n))
  {
    hide Index, NumOrderbooks, ProgramRows, ProgramValues, TaxFreeRows, Capacities, Solves, IsOpen, HasBook,
      FlowPointAt;
    var z := FlowPoint(n, books, y);
    FlowToPoint(n, books, y);
    x := z[..Width(n)];
    assert z == Widen(n, x) by {
      forall j | Width(n) <= j < NumCols(n) ensures z[j] == 0.0 { PenaltyFree(n, books, y, j); }
    }
    WidenSolves(n, books, x);
    forall c | 0 <= c < NumOrderbooks(n) ensures x[c] == y[c] { FlowStartsPoint(n, books, y, c); }
    GoalIsTrade(n, books, x, y, Width(n));
  }

  lemma FlowStartsPoint(n: nat, books: seq<Book>, y: seq<real>, c: nat)
    requires GoodBooks(n, books) && FromZero(books) && |y| == NumOrderbooks(n) && c < NumOrderbooks(n)
    ensures FlowPointAt(n, books, y, c) == y[c]
  {
    FromZeroLower(n, books, c);
  }

  // ---- the goal is bounded ----

  function SumUpper(books: seq<Book>): int {
    if books == [] then 0 else SumUpper(books[..|books| - 1]) + books[|books| - 1].upper
  }

  lemma {:induction false} UpperWithin(n: nat, books: seq<Book>, i: nat)
    requires GoodBooks(n, books) && FromZero(books)
    ensures SumUpper(books) >= 0 && (i < |books| ==> books[i].upper <= SumUpper(books))
  {
    if books != [] { UpperWithin(n, books[..|books| - 1], i); }
  }

  /** In a solution no orderbook trades more than its capacity. */
  lemma WithinCapacity(n: nat, books: seq<Book>, x: seq<real>, c: nat)
    requires GoodBooks(n, books) && FromZero(books) && |x| == Width(n) && HasBook(n, books, c) && c < Width(n)
    requires Solves(TaxFreeRows(n, books), Width(n), Capacities(n, books), x) && Nonnegative(x)
    ensures x[c] <= SumUpper(books) as real
  {
    hide Index, NumOrderbooks, ProgramRows, TaxFreeRows, Capacities;
    var i :| 0 <= i < |books| && BookIdx(n, books[i]) == c;
    WidenSolves(n, books, x);
    assert Dot(ProgramRows(n, books)[n + i], Widen(n, x), NumCols(n)) == ProgramValues(n, books)[n + i] as real;
    BookBalance(n, books, Widen(n, x), i);
    UpperWithin(n, books, i);
  }

  lemma OneMore(k: nat, top: nat)
    requires k > 0
    ensures k * top == (k - 1) * top + top
  {
  }

  lemma {:induction false} GoalWithin(g: seq<int>, x: seq<real>, k: nat, top: nat)
    requires k <= |g| && k <= |x|
    requires forall j :: 0 <= j < k ==> g[j] == 0 || (g[j] == 1 && x[j] <= top as real)
    ensures Dot(g, x, k) <= (k * top) as real
  {
    if k > 0 {
      GoalWithin(g, x, k - 1, top);
      OneMore(k, top);
    }
  }

  lemma TradeBounded(n: nat, books: seq<Book>) returns (bound: nat)
    requires GoodBooks(n, books) && FromZero(books)
    ensures BoundedBy(TaxFreeLp(n, books), Width(n), bound)
  {
    hide NumOrderbooks, HasBook, Capacities, TaxFreeRows, TradeGoal, Width, SumUpper, Nonnegative;
    UpperWithin(n, books, 0);
    var width, top: nat := Width(n), SumUpper(books);
    bound := Bound(width, top);
    var lp := TaxFreeLp(n, books);
    forall x | Solves(lp.m, width, lp.v, x) && Nonnegative(x) ensures Dot(lp.goal, x, width) <= bound as real {
      SolutionBounded(n, books, x, width, top);
    }
  }

  function Bound(width: nat, top: nat): nat { width * top }

  lemma SolutionBounded(n: nat, books: seq<Book>, x: seq<real>, width: nat, top: nat)
    requires GoodBooks(n, books) && FromZero(books) && width == Width(n) && top == SumUpper(books)
    requires Solves(TaxFreeRows(n, books), width, Capacities(n, books), x) && Nonnegative(x)
    ensures Dot(TradeGoal(n, books), x, width) <= Bound(width, top) as real
  {
    hide NumOrderbooks, HasBook, Capacities, TaxFreeRows, Width, SumUpper, Nonnegative, Solves;
    var g := TradeGoal(n, books);
    assert |x| == width by { SolvesWidth(n, books, x); }
    forall j | 0 <= j < width ensures g[j] == 0 || (g[j] == 1 && x[j] <= top as real) {
      if g[j] != 0 { WithinCapacity(n, books, x, j); }
    }
    GoalWithin(g, x, width, top);
  }

  lemma SolvesWidth(n: nat, books: seq<Book>, x: seq<real>)
    requires GoodBooks(n, books) && Solves(TaxFreeRows(n, books), Width(n), Capacities(n, books), x)
    ensures |x| == Width(n)
  {
    hide NumOrderbooks, TaxFreeRows, Capacities;
  }

  // ---- the size of the objective entries ----

  lemma {:induction false} NothingCarried(goal: seq<int>, basis: seq<nat>, m: Mat, cols: nat, j: nat, n: nat)
    requires Rect(m, cols) && n <= |m| && n <= |basis| && |goal| == cols && j < cols
    requires forall i :: 0 <= i < n ==> basis[i] < cols && goal[basis[i]] == 0
    ensures Carried(goal, basis, m, j, n) == 0
  {
    if n > 0 {
      NothingCarried(goal, basis, m, cols, j, n - 1);
      assert goal[basis[n - 1]] * m[n - 1][j] == 0;
    }
  }

  /** At the start the basis carries nothing: only the columns of orderbooks have a goal. */
  lemma StartReduced(n: nat, books: seq<Book>)
    requires BooksOk(n, books)
    ensures Reduced(TaxFreeStart(n, books), TradeGoal(n, books), Width(n))
  {
    hide Index, NumOrderbooks, TaxFreeRows, HasBook;
    var t, goal := TaxFreeStart(n, books), TradeGoal(n, books);
    forall i | 0 <= i < |t.basis| ensures t.basis[i] < Width(n) && goal[t.basis[i]] == 0 {
      if i >= n { IndexInverts(n, books[i - n].sell, books[i - n].buy); }
    }
    forall j | 0 <= j < Width(n) ensures Carried(goal, t.basis, t.m, j, |t.m|) == 0 {
      NothingCarried(goal, t.basis, t.m, Width(n), j, |t.m|);
    }
  }

  /** A tableau of a run, whatever the capacities: its objective row is what the basis leaves of
      the goal. */
  ghost predicate OnTrack(t: Tableau, n: nat, books: seq<Book>)
    requires BooksOk(n, books)
  {
    Reduced(t, TradeGoal(n, books), Width(n)) && |t.m| == n + |books|
  }

  lemma StartTrade(n: nat, books: seq<Book>)
    requires BooksOk(n, books)
    ensures OnTrack(TaxFreeStart(n, books), n, books)
  {
    hide Reduced, TaxFreeRows, TradeGoal, Capacities;
    StartReduced(n, books);
  }

  lemma StepTrade(t: Tableau, u: Tableau, n: nat, books: seq<Book>, result: PivotResult, p: nat, q: nat)
    requires BooksOk(n, books) && OnTrack(t, n, books)
    requires Shaped(t, Width(n)) && |t.basis| == |t.m|
    requires result != Pivoted ==> u == t
    requires result == Pivoted ==>
      q < Width(n) && IsPivotRow(t, Width(n), p, q) && u == PivotTableau(t, Width(n), p, q)
    ensures OnTrack(u, n, books)
  {
    hide Reduced, TradeGoal;
    if result == Pivoted { PivotReduced(t, TradeGoal(n, books), Width(n), p, q); }
  }

  /** Along a run no objective entry is larger than one more than the number of rows. */
  lemma TradeWithin(t: Tableau, n: nat, books: seq<Book>)
    requires BooksOk(n, books) && OnTrack(t, n, books) && Shaped(t, Width(n)) && UnitEntries(t.m, Width(n))
    ensures var rows := n + |books|; forall j :: 0 <= j < Width(n) ==> -rows <= t.obj[j] <= rows + 1
  {
    hide HasBook, NumOrderbooks;
    ObjectiveWithin(t, TradeGoal(n, books), Width(n));
  }

  // ---- what a finished run proves ----

  /** A flow in whole units trades this much, and no flow, fractional ones included, trades
      more. */
  ghost predicate IsMaximum(n: nat, books: seq<Book>, trade: int)
    requires GoodBooks(n, books)
  {
    && (exists g :: FeasibleFlow(n, books, Reals(g)) && Traded(Reals(g), NumOrderbooks(n)) == trade as real)
    && (forall y :: FeasibleFlow(n, books, y) ==> Traded(y, NumOrderbooks(n)) <= trade as real)
  }

  /** A finished run has found the largest total trade. */
  lemma FinishedMaximal(t: Tableau, n: nat, books: seq<Book>)
    requires GoodBooks(n, books) && FromZero(books) && PlainInvariant(t, TaxFreeLp(n, books), Width(n))
    requires BasisOpen(n, books, t.basis) && forall j :: 0 <= j < Width(n) && IsOpen(n, books, j) ==> t.obj[j] <= 0
    ensures IsMaximum(n, books, -t.objVal)
  {
    hide Index, NumOrderbooks, ProgramRows, TaxFreeRows, Capacities, IsOpen, TradeGoal;
    MaximumReached(t, n, books);
    var open := seq(Width(n), j requires 0 <= j => IsOpen(n, books, j));
    forall y | FeasibleFlow(n, books, y) ensures Traded(y, NumOrderbooks(n)) <= (-t.objVal) as real {
      var x := FlowIsSolution(n, books, y);
      Optimal(t, TaxFreeLp(n, books), Width(n), open, x);
    }
  }

  lemma MaximumReached(t: Tableau, n: nat, books: seq<Book>)
    requires GoodBooks(n, books) && FromZero(books) && PlainInvariant(t, TaxFreeLp(n, books), Width(n))
    requires BasisOpen(n, books, t.basis)
    ensures exists g :: FeasibleFlow(n, books, Reals(g)) && Traded(Reals(g), NumOrderbooks(n)) == (-t.objVal) as real
  {
    hide Index, ProgramRows, TaxFreeRows, Capacities, TradeGoal;
    var x := Basic(t, Width(n));
    BasicSolves(t, TaxFreeLp(n, books), Width(n));
    forall c | 0 <= c < NumOrderbooks(n) && !HasBook(n, books, c) ensures x[c] == 0.0 {
      assert !IsBasic(t.basis, c);
      assert EdgeAt(t.m, Width(n), t.v, t.basis, Width(n), 0, c) == 0;
    }
    SolutionIsFlow(n, books, x);
    var g := seq(NumOrderbooks(n), c requires 0 <= c < NumOrderbooks(n) =>
      EdgeAt(t.m, Width(n), t.v, t.basis, Width(n), 0, c));
    assert Reals(g) == x[..NumOrderbooks(n)];
  }

  // ---- a run ----

  ghost predicate OnCourse(t: Tableau, n: nat, books: seq<Book>)
    requires GoodBooks(n, books)
  {
    PlainInvariant(t, TaxFreeLp(n, books), Width(n)) && BasisOpen(n, books, t.basis)
  }

  lemma StartSound(n: nat, books: seq<Book>)
    requires GoodBooks(n, books)
    ensures Signable(TaxFreeStart(n, books).m, Width(n))
    ensures FromZero(books) ==> OnCourse(TaxFreeStart(n, books), n, books)
  {
    hide Index, NumOrderbooks, Signable, PlainInvariant;
    TaxFreeSignable(n, books);
    if FromZero(books) { StartPlain(n, books); }
  }

  /** A pivot keeps a run on course, a pivot row is there whenever one is needed, and without
      an improving column the trade is the largest. */
  lemma StepSound(t: Tableau, u: Tableau, n: nat, books: seq<Book>, active: seq<bool>, result: PivotResult, p: nat,
                  q: nat)
    requires GoodBooks(n, books) && FromZero(books) && OnCourse(t, n, books) && |active| == Width(n)
    requires forall c :: 0 <= c < Width(n) ==> (active[c] <==> IsOpen(n, books, c))
    requires Shaped(t, Width(n)) && |t.basis| == |t.m|
    requires result == NoColumn ==> u == t && forall j :: 0 <= j < Width(n) && active[j] ==> t.obj[j] <= 0
    requires result == NoRow ==>
      u == t && q < Width(n) && t.obj[q] > 0 && forall r :: 0 <= r < |t.m| ==> t.m[r][q] != 1
    requires result == Pivoted ==>
      q < Width(n) && active[q] && IsPivotRow(t, Width(n), p, q) && u == PivotTableau(t, Width(n), p, q)
    ensures OnCourse(u, n, books) && result != NoRow
    ensures result == NoColumn ==> IsMaximum(n, books, -u.objVal)
  {
    hide Index, NumOrderbooks, PlainInvariant, TaxFreeLp, IsMaximum;
    match result
    case NoColumn => FinishedMaximal(t, n, books);
    case NoRow =>
      var bound := TradeBounded(n, books);
      PivotRowExists(t, TaxFreeLp(n, books), Width(n), bound, q);
    case Pivoted =>
      PlainKeeps(t, TaxFreeLp(n, books), Width(n), p, q);
  }
}
