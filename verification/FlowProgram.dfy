/** The feasibility program of a set of orderbook bounds, and its meaning: its
    penalty-free solutions are exactly the flows within the bounds in which every
    asset sells at least as much as it buys.

    Columns: one per orderbook, one capacity slack per orderbook, one surplus slack
    per asset, one penalty per asset. Rows: one per asset, then one per added book. */
module FlowProgram {
  import opened Matrix
  import opened LinearSystem
  import opened SimplexRun
  import opened OfferCategories

  /** An orderbook given to the solver with its bounds on the amount sold. */
  datatype Book = Book(sell: nat, buy: nat, lower: int, upper: int)

  function NumCols(n: nat): nat { 2 * NumOrderbooks(n) + 2 * n }
  function CapacityCol(n: nat, c: nat): nat { NumOrderbooks(n) + c }
  function SlackCol(n: nat, a: nat): nat { 2 * NumOrderbooks(n) + a }
  function PenaltyCol(n: nat, a: nat): nat { 2 * NumOrderbooks(n) + n + a }

  function BookIdx(n: nat, b: Book): nat
    requires ValidCategory(n, b.sell, b.buy)
  {
    Index(n, b.sell, b.buy)
  }

  /** Valid categories, each with bounds in order. */
  ghost predicate BooksOk(n: nat, books: seq<Book>) {
    forall i :: 0 <= i < |books| ==>
      ValidCategory(n, books[i].sell, books[i].buy) && books[i].lower <= books[i].upper
  }

  /** Each of them given once. */
  ghost predicate GoodBooks(n: nat, books: seq<Book>) {
    && BooksOk(n, books)
    && (forall i, j :: 0 <= i < j < |books| ==> BookIdx(n, books[i]) != BookIdx(n, books[j]))
  }

  // ---- flows ----

  /** Amount of asset a sold to the first k assets by flow y. */
  ghost function Sold(n: nat, y: seq<real>, a: nat, k: nat): real
    requires a < n && k <= n && |y| >= NumOrderbooks(n)
  {
    if k == 0 then 0.0 else Sold(n, y, a, k - 1) + (if k - 1 == a then 0.0 else At(n, y, a, k - 1))
  }

  /** Amount of asset a bought from the first k assets by flow y. */
  ghost function Bought(n: nat, y: seq<real>, a: nat, k: nat): real
    requires a < n && k <= n && |y| >= NumOrderbooks(n)
  {
    if k == 0 then 0.0 else Bought(n, y, a, k - 1) + (if k - 1 == a then 0.0 else At(n, y, k - 1, a))
  }

  ghost function At(n: nat, y: seq<real>, s: nat, b: nat): real
    requires ValidCategory(n, s, b) && |y| >= NumOrderbooks(n)
  {
    IndexInverts(n, s, b);
    y[Index(n, s, b)]
  }

  ghost predicate HasBook(n: nat, books: seq<Book>, c: nat)
    requires BooksOk(n, books)
  {
    exists i :: 0 <= i < |books| && BookIdx(n, books[i]) == c
  }

  /** A flow within the bounds, with nothing traded in other orderbooks, in which
      every asset sells at least as much as it buys. */
  ghost predicate FeasibleFlow(n: nat, books: seq<Book>, y: seq<real>)
    requires GoodBooks(n, books)
  {
    && |y| == NumOrderbooks(n)
    && (forall i :: 0 <= i < |books| ==>
          books[i].lower as real <= At(n, y, books[i].sell, books[i].buy) <= books[i].upper as real)
    && (forall c :: 0 <= c < |y| && !HasBook(n, books, c) ==> y[c] == 0.0)
    && (forall a :: 0 <= a < n ==> Sold(n, y, a, n) >= Bought(n, y, a, n))
  }

  ghost function Reals(g: seq<int>): (y: seq<real>)
    ensures |y| == |g|
  {
    seq(|g|, i requires 0 <= i < |g| => g[i] as real)
  }

  // ---- the program ----

  /** Entry of asset a's row in column c once the first k other assets are entered. */
  function AssetEntry(n: nat, a: nat, k: nat, c: nat): int {
    if c < NumOrderbooks(n) then
      if SellOf(n, c) == a && BuyOf(n, c) < k then -1
      else if BuyOf(n, c) == a && SellOf(n, c) < k then 1
      else 0
    else if c == SlackCol(n, a) then 1
    else if c == PenaltyCol(n, a) then -1
    else 0
  }

  function AssetRow(n: nat, a: nat, k: nat): (r: seq<int>)
    ensures |r| == NumCols(n)
  {
    seq(NumCols(n), c requires 0 <= c => AssetEntry(n, a, k, c))
  }

  function BookRow(n: nat, c: nat): (r: seq<int>)
    ensures |r| == NumCols(n)
  {
    seq(NumCols(n), j => if j == c || j == CapacityCol(n, c) then 1 else 0)
  }

  /** Lower bounds of sold books less those of bought books. */
  function AssetValue(books: seq<Book>, a: nat): int {
    if books == [] then 0
    else
      var b := books[|books| - 1];
      AssetValue(books[..|books| - 1], a) + (if b.sell == a then b.lower else 0) - (if b.buy == a then b.lower else 0)
  }

  function ProgramRows(n: nat, books: seq<Book>): (m: Mat)
    requires forall i :: 0 <= i < |books| ==> ValidCategory(n, books[i].sell, books[i].buy)
    ensures |m| == n + |books| && Rect(m, NumCols(n))
  {
    seq(n, a requires 0 <= a => AssetRow(n, a, n)) +
    seq(|books|, i requires 0 <= i < |books| => BookRow(n, BookIdx(n, books[i])))
  }

  function ProgramValues(n: nat, books: seq<Book>): (v: seq<int>)
    ensures |v| == n + |books|
  {
    seq(n, a requires 0 <= a => AssetValue(books, a)) +
    seq(|books|, i requires 0 <= i < |books| => books[i].upper - books[i].lower)
  }

  /** Maximise minus the sum of the penalties. */
  function Goal(n: nat): (g: seq<int>)
    ensures |g| == NumCols(n)
  {
    seq(NumCols(n), j => if j >= PenaltyCol(n, 0) then -1 else 0)
  }

  function FlowLp(n: nat, books: seq<Book>): Program
    requires forall i :: 0 <= i < |books| ==> ValidCategory(n, books[i].sell, books[i].buy)
  {
    Program(ProgramRows(n, books), ProgramValues(n, books), Goal(n))
  }

  // ---- asset rows as flow balances ----

  lemma AssetRowStep(n: nat, a: nat, k: nat)
    requires a < n && k < n
    ensures k == a ==> AssetRow(n, a, k + 1) == AssetRow(n, a, k)
    ensures k != a ==>
      && Index(n, a, k) < NumOrderbooks(n) && Index(n, k, a) < NumOrderbooks(n)
      && AssetRow(n, a, k)[Index(n, a, k)] == 0 && AssetRow(n, a, k)[Index(n, k, a)] == 0
      && AssetRow(n, a, k + 1) == AssetRow(n, a, k)[Index(n, a, k) := -1][Index(n, k, a) := 1]
      && Index(n, a, k) != Index(n, k, a)
  {
    hide Index, SellOf, BuyOf, NumOrderbooks;
    forall c | 0 <= c < NumOrderbooks(n)
      ensures ValidCategory(n, SellOf(n, c), BuyOf(n, c)) && Index(n, SellOf(n, c), BuyOf(n, c)) == c
    {
      CategoryInverts(n, c);
    }
    if k != a {
      IndexInverts(n, a, k);
      IndexInverts(n, k, a);
    }
  }

  /** The inner product of an asset row is bought minus sold plus surplus minus penalty. */
  lemma {:induction false} AssetRowDot(n: nat, a: nat, k: nat, x: seq<real>)
    requires a < n && k <= n && |x| == NumCols(n)
    ensures Dot(AssetRow(n, a, k), x, NumCols(n)) ==
            Bought(n, x, a, k) - Sold(n, x, a, k) + x[SlackCol(n, a)] - x[PenaltyCol(n, a)]
  {
    hide Index, SellOf, BuyOf, NumOrderbooks;
    if k == 0 {
      forall c | 0 <= c < NumOrderbooks(n) ensures AssetEntry(n, a, 0, c) == 0 {
      }
      DotTwo(AssetRow(n, a, 0), x, NumCols(n), SlackCol(n, a), PenaltyCol(n, a));
    } else {
      AssetRowDot(n, a, k - 1, x);
      AssetRowDotStep(n, a, k - 1, x);
    }
  }

  lemma AssetRowDotStep(n: nat, a: nat, k: nat, x: seq<real>)
    requires a < n && k < n && |x| == NumCols(n)
    ensures Dot(AssetRow(n, a, k + 1), x, NumCols(n)) ==
            Dot(AssetRow(n, a, k), x, NumCols(n)) + (if k == a then 0.0 else At(n, x, k, a) - At(n, x, a, k))
  {
    hide Index, SellOf, BuyOf, NumOrderbooks, AssetEntry, AssetRow;
    AssetRowStep(n, a, k);
    if k != a {
      var r, i, j := AssetRow(n, a, k), Index(n, a, k), Index(n, k, a);
      DotUpdate(r, x, NumCols(n), i, -1);
      DotUpdate(r[i := -1], x, NumCols(n), j, 1);
      assert (-1) as real * x[i] == -x[i];
    }
  }

  lemma BookRowDot(n: nat, c: nat, x: seq<real>)
    requires c < NumOrderbooks(n) && |x| == NumCols(n)
    ensures Dot(BookRow(n, c), x, NumCols(n)) == x[c] + x[CapacityCol(n, c)]
  {
    DotTwo(BookRow(n, c), x, NumCols(n), c, CapacityCol(n, c));
  }

  // ---- lower bounds ----

  ghost function BookOf(n: nat, books: seq<Book>, c: nat): Book
    requires GoodBooks(n, books) && HasBook(n, books, c)
  {
    var i :| 0 <= i < |books| && BookIdx(n, books[i]) == c;
    books[i]
  }

  lemma BookOfIndex(n: nat, books: seq<Book>, i: nat)
    requires GoodBooks(n, books) && i < |books|
    ensures HasBook(n, books, BookIdx(n, books[i])) && BookOf(n, books, BookIdx(n, books[i])) == books[i]
  {
    var c := BookIdx(n, books[i]);
    assert HasBook(n, books, c);
    var j :| 0 <= j < |books| && BookIdx(n, books[j]) == c && BookOf(n, books, c) == books[j];
    assert i == j;
  }

  ghost function LowerAt(n: nat, books: seq<Book>, c: nat): int
    requires GoodBooks(n, books)
  {
    if HasBook(n, books, c) then BookOf(n, books, c).lower else 0
  }

  ghost function Lowers(n: nat, books: seq<Book>): (y: seq<int>)
    requires GoodBooks(n, books)
    ensures |y| == NumOrderbooks(n)
  {
    seq(NumOrderbooks(n), c requires 0 <= c => LowerAt(n, books, c))
  }

  lemma LowersStep(n: nat, books: seq<Book>)
    requires GoodBooks(n, books) && books != []
    ensures GoodBooks(n, books[..|books| - 1])
    ensures var b := books[|books| - 1];
      && BookIdx(n, b) < NumOrderbooks(n)
      && Lowers(n, books[..|books| - 1])[BookIdx(n, b)] == 0
      && Lowers(n, books) == Lowers(n, books[..|books| - 1])[BookIdx(n, b) := b.lower]
  {
    var prev, k := books[..|books| - 1], |books| - 1;
    var b := books[k];
    IndexInverts(n, b.sell, b.buy);
    BookOfIndex(n, books, k);
    forall c | 0 <= c < NumOrderbooks(n) && c != BookIdx(n, b)
      ensures LowerAt(n, books, c) == LowerAt(n, prev, c)
    {
      if HasBook(n, books, c) {
        var i :| 0 <= i < |books| && BookIdx(n, books[i]) == c;
        assert prev[i] == books[i];
        BookOfIndex(n, books, i);
        BookOfIndex(n, prev, i);
      }
      assert HasBook(n, prev, c) ==> HasBook(n, books, c) by {
        if HasBook(n, prev, c) {
          var i :| 0 <= i < |prev| && BookIdx(n, prev[i]) == c;
          assert books[i] == prev[i];
        }
      }
    }
    assert Lowers(n, books) == Lowers(n, prev)[BookIdx(n, b) := b.lower];
  }

  lemma {:induction false} TradesUpdate(n: nat, y: seq<real>, s: nat, b: nat, z: real, a: nat, k: nat)
    requires ValidCategory(n, s, b) && a < n && k <= n && |y| == NumOrderbooks(n)
    requires Index(n, s, b) < |y|
    ensures Sold(n, y[Index(n, s, b) := z], a, k) ==
            Sold(n, y, a, k) + (if a == s && b < k then z - y[Index(n, s, b)] else 0.0)
    ensures Bought(n, y[Index(n, s, b) := z], a, k) ==
            Bought(n, y, a, k) + (if a == b && s < k then z - y[Index(n, s, b)] else 0.0)
  {
    hide Index, SellOf, BuyOf, NumOrderbooks;
    if k > 0 {
      TradesUpdate(n, y, s, b, z, a, k - 1);
      if k - 1 != a {
        IndexInjective(n, s, b, a, k - 1);
        IndexInjective(n, s, b, k - 1, a);
        IndexInverts(n, a, k - 1);
        IndexInverts(n, k - 1, a);
      }
    }
  }

  lemma {:induction false} TradesZero(n: nat, y: seq<real>, a: nat, k: nat)
    requires a < n && k <= n && |y| >= NumOrderbooks(n)
    requires forall c :: 0 <= c < NumOrderbooks(n) && (SellOf(n, c) == a || BuyOf(n, c) == a) ==> y[c] == 0.0
    ensures Sold(n, y, a, k) == 0.0 && Bought(n, y, a, k) == 0.0
  {
    if k > 0 {
      TradesZero(n, y, a, k - 1);
      if k - 1 != a {
        IndexInverts(n, a, k - 1);
        IndexInverts(n, k - 1, a);
      }
    }
  }

  /** The value of an asset row is the net sale of the lower bounds. */
  lemma {:induction false} AssetValueMeaning(n: nat, books: seq<Book>, a: nat)
    requires GoodBooks(n, books) && a < n
    ensures AssetValue(books, a) as real ==
            Sold(n, Reals(Lowers(n, books)), a, n) - Bought(n, Reals(Lowers(n, books)), a, n)
  {
    if books == [] {
      TradesZero(n, Reals(Lowers(n, books)), a, n);
    } else {
      LowersStep(n, books);
      var prev, b := books[..|books| - 1], books[|books| - 1];
      AssetValueMeaning(n, prev, a);
      var y := Reals(Lowers(n, prev));
      assert Reals(Lowers(n, books)) == y[BookIdx(n, b) := b.lower as real];
      TradesUpdate(n, y, b.sell, b.buy, b.lower as real, a, n);
    }
  }

  lemma {:induction false} TradesAdd(n: nat, y: seq<real>, x: seq<real>, z: seq<real>, a: nat, k: nat)
    requires a < n && k <= n && |y| >= NumOrderbooks(n) && |x| >= NumOrderbooks(n) && |z| >= NumOrderbooks(n)
    requires forall c :: 0 <= c < NumOrderbooks(n) ==> y[c] == x[c] + z[c]
    ensures Sold(n, y, a, k) == Sold(n, x, a, k) + Sold(n, z, a, k)
    ensures Bought(n, y, a, k) == Bought(n, x, a, k) + Bought(n, z, a, k)
  {
    if k > 0 {
      TradesAdd(n, y, x, z, a, k - 1);
      if k - 1 != a {
        IndexInverts(n, a, k - 1);
        IndexInverts(n, k - 1, a);
      }
    }
  }

  // ---- what the program decides ----

  /** Columns opened by the added books: their own, their capacity slacks, and the
      slacks of the assets they touch. */
  ghost predicate IsOpen(n: nat, books: seq<Book>, j: nat)
    requires BooksOk(n, books)
  {
    if j < NumOrderbooks(n) then HasBook(n, books, j)
    else if j < 2 * NumOrderbooks(n) then HasBook(n, books, j - NumOrderbooks(n))
    else if j < PenaltyCol(n, 0) then Touched(books, j - SlackCol(n, 0))
    else Touched(books, j - PenaltyCol(n, 0))
  }

  ghost predicate Touched(books: seq<Book>, a: nat) {
    exists i :: 0 <= i < |books| && (books[i].sell == a || books[i].buy == a)
  }

  ghost predicate ClosedZero(n: nat, books: seq<Book>, x: seq<real>)
    requires GoodBooks(n, books) && |x| == NumCols(n)
  {
    forall j :: 0 <= j < |x| && !IsOpen(n, books, j) ==> x[j] == 0.0
  }

  ghost function FlowPointAt(n: nat, books: seq<Book>, y: seq<real>, j: nat): real
    requires GoodBooks(n, books) && |y| == NumOrderbooks(n) && j < NumCols(n)
  {
    var k := NumOrderbooks(n);
    if j < k then y[j] - LowerAt(n, books, j) as real
    else if j < 2 * k then
      if HasBook(n, books, j - k) then BookOf(n, books, j - k).upper as real - y[j - k] else 0.0
    else if j < PenaltyCol(n, 0) then Sold(n, y, j - 2 * k, n) - Bought(n, y, j - 2 * k, n)
    else 0.0
  }

  ghost function FlowPoint(n: nat, books: seq<Book>, y: seq<real>): (x: seq<real>)
    requires GoodBooks(n, books) && |y| == NumOrderbooks(n)
    ensures |x| == NumCols(n)
  {
    seq(NumCols(n), j requires 0 <= j < NumCols(n) => FlowPointAt(n, books, y, j))
  }

  ghost function PointFlow(n: nat, books: seq<Book>, x: seq<real>): (y: seq<real>)
    requires GoodBooks(n, books) && |x| == NumCols(n)
    ensures |y| == NumOrderbooks(n)
  {
    seq(NumOrderbooks(n), c requires 0 <= c < NumOrderbooks(n) => x[c] + LowerAt(n, books, c) as real)
  }

  /** The asset row of a solution shifts the balance of the flow by surplus less penalty. */
  lemma AssetBalance(n: nat, books: seq<Book>, x: seq<real>, y: seq<real>, a: nat)
    requires GoodBooks(n, books) && |x| == NumCols(n) && |y| == NumOrderbooks(n) && a < n
    requires forall c :: 0 <= c < NumOrderbooks(n) ==> y[c] == x[c] + LowerAt(n, books, c) as real
    ensures Dot(ProgramRows(n, books)[a], x, NumCols(n)) == ProgramValues(n, books)[a] as real
      <==> x[SlackCol(n, a)] - x[PenaltyCol(n, a)] == Sold(n, y, a, n) - Bought(n, y, a, n)
  {
    hide Index, SellOf, BuyOf, NumOrderbooks;
    AssetRowDot(n, a, n, x);
    AssetValueMeaning(n, books, a);
    TradesAdd(n, y, x, Reals(Lowers(n, books)), a, n);
    assert ProgramRows(n, books)[a] == AssetRow(n, a, n);
    assert ProgramValues(n, books)[a] == AssetValue(books, a);
  }

  lemma BookBalance(n: nat, books: seq<Book>, x: seq<real>, i: nat)
    requires GoodBooks(n, books) && |x| == NumCols(n) && i < |books|
    ensures BookIdx(n, books[i]) < NumOrderbooks(n)
    ensures Dot(ProgramRows(n, books)[n + i], x, NumCols(n)) == ProgramValues(n, books)[n + i] as real
      <==> x[BookIdx(n, books[i])] + x[CapacityCol(n, BookIdx(n, books[i]))]
           == (books[i].upper - books[i].lower) as real
  {
    IndexInverts(n, books[i].sell, books[i].buy);
    BookRowDot(n, BookIdx(n, books[i]), x);
    assert ProgramRows(n, books)[n + i] == BookRow(n, BookIdx(n, books[i]));
    assert ProgramValues(n, books)[n + i] == books[i].upper - books[i].lower;
  }

  lemma BookInRange(n: nat, books: seq<Book>, c: nat)
    requires GoodBooks(n, books) && HasBook(n, books, c)
    ensures var b := BookOf(n, books, c);
      ValidCategory(n, b.sell, b.buy) && BookIdx(n, b) == c && b in books && c < NumOrderbooks(n)
      && SellOf(n, c) == b.sell && BuyOf(n, c) == b.buy
  {
    var b := BookOf(n, books, c);
    IndexInverts(n, b.sell, b.buy);
  }

  /** An untouched asset trades nothing. */
  lemma UntouchedTrades(n: nat, books: seq<Book>, y: seq<real>, a: nat)
    requires GoodBooks(n, books) && |y| == NumOrderbooks(n) && a < n && !Touched(books, a)
    requires forall c :: 0 <= c < |y| && !HasBook(n, books, c) ==> y[c] == 0.0
    ensures Sold(n, y, a, n) == 0.0 && Bought(n, y, a, n) == 0.0
  {
    forall c | 0 <= c < NumOrderbooks(n) && (SellOf(n, c) == a || BuyOf(n, c) == a) ensures y[c] == 0.0 {
      if HasBook(n, books, c) { BookInRange(n, books, c); }
    }
    TradesZero(n, y, a, n);
  }

  lemma FlowPointBounds(n: nat, books: seq<Book>, y: seq<real>, j: nat)
    requires GoodBooks(n, books) && FeasibleFlow(n, books, y) && j < NumCols(n)
    ensures FlowPointAt(n, books, y, j) >= 0.0
    ensures !IsOpen(n, books, j) ==> FlowPointAt(n, books, y, j) == 0.0
  {
    hide Index, SellOf, BuyOf, NumOrderbooks;
    var k := NumOrderbooks(n);
    if j < 2 * k {
      var c := if j < k then j else j - k;
      if HasBook(n, books, c) {
        BookInRange(n, books, c);
        var b := BookOf(n, books, c);
        assert At(n, y, b.sell, b.buy) == y[c];
      }
    } else if j < PenaltyCol(n, 0) && !IsOpen(n, books, j) {
      UntouchedTrades(n, books, y, j - 2 * k);
    }
  }

  lemma FlowPointSolves(n: nat, books: seq<Book>, y: seq<real>, r: nat)
    requires GoodBooks(n, books) && FeasibleFlow(n, books, y) && r < n + |books|
    ensures Dot(ProgramRows(n, books)[r], FlowPoint(n, books, y), NumCols(n)) == ProgramValues(n, books)[r] as real
  {
    hide Index, SellOf, BuyOf, NumOrderbooks, ProgramRows, ProgramValues, Sold, Bought;
    var x := FlowPoint(n, books, y);
    if r < n {
      AssetBalance(n, books, x, y, r);
    } else {
      BookBalance(n, books, x, r - n);
      BookOfIndex(n, books, r - n);
    }
  }

  /** Every feasible flow is a penalty-free nonnegative solution that uses open columns only. */
  lemma FlowToPoint(n: nat, books: seq<Book>, y: seq<real>)
    requires GoodBooks(n, books) && FeasibleFlow(n, books, y)
    ensures var x := FlowPoint(n, books, y); var lp := FlowLp(n, books);
      && Solves(lp.m, NumCols(n), lp.v, x) && Nonnegative(x) && ClosedZero(n, books, x)
      && Dot(lp.goal, x, NumCols(n)) == 0.0
  {
    hide Index, SellOf, BuyOf, NumOrderbooks, IsOpen, FlowPointAt, ProgramRows, ProgramValues;
    var x, lp := FlowPoint(n, books, y), FlowLp(n, books);
    forall j | 0 <= j < NumCols(n)
      ensures x[j] >= 0.0 && (!IsOpen(n, books, j) ==> x[j] == 0.0)
    {
      FlowPointBounds(n, books, y, j);
    }
    forall r | 0 <= r < |lp.m| ensures Dot(lp.m[r], x, NumCols(n)) == lp.v[r] as real {
      FlowPointSolves(n, books, y, r);
    }
    forall j | PenaltyCol(n, 0) <= j < NumCols(n) ensures x[j] == 0.0 {
      PenaltyFree(n, books, y, j);
    }
    DotZero(lp.goal, x, NumCols(n));
  }

  lemma PenaltyFree(n: nat, books: seq<Book>, y: seq<real>, j: nat)
    requires GoodBooks(n, books) && |y| == NumOrderbooks(n) && PenaltyCol(n, 0) <= j < NumCols(n)
    ensures FlowPointAt(n, books, y, j) == 0.0
  {
  }

  lemma {:induction false} GoalZero(g: seq<int>, x: seq<real>, k: nat, j: nat)
    requires k <= |g| && k <= |x| && Nonnegative(x)
    requires forall i :: 0 <= i < k ==> g[i] == 0 || g[i] == -1
    ensures Dot(g, x, k) <= 0.0
    ensures Dot(g, x, k) == 0.0 && j < k && g[j] == -1 ==> x[j] == 0.0
  {
    if k > 0 { GoalZero(g, x, k - 1, j); }
  }

  /** Every penalty-free nonnegative solution without closed book columns is a feasible flow. */
  lemma PointToFlow(n: nat, books: seq<Book>, x: seq<real>)
    requires GoodBooks(n, books) && |x| == NumCols(n)
    requires Solves(FlowLp(n, books).m, NumCols(n), FlowLp(n, books).v, x) && Nonnegative(x)
    requires forall c :: 0 <= c < NumOrderbooks(n) && !HasBook(n, books, c) ==> x[c] == 0.0
    requires Dot(Goal(n), x, NumCols(n)) == 0.0
    ensures FeasibleFlow(n, books, PointFlow(n, books, x))
  {
    hide Index, SellOf, BuyOf, NumOrderbooks, ProgramRows, ProgramValues, Sold, Bought, Solves, Dot;
    var y := PointFlow(n, books, x);
    forall i | 0 <= i < |books|
      ensures books[i].lower as real <= At(n, y, books[i].sell, books[i].buy) <= books[i].upper as real
    {
      PointWithinBounds(n, books, x, i);
    }
    forall a | 0 <= a < n ensures Sold(n, y, a, n) >= Bought(n, y, a, n) {
      PointBalances(n, books, x, a);
    }
    forall c | 0 <= c < |y| && !HasBook(n, books, c) ensures y[c] == 0.0 {
      assert x[c] == 0.0;
    }
  }

  lemma PointBalances(n: nat, books: seq<Book>, x: seq<real>, a: nat)
    requires GoodBooks(n, books) && |x| == NumCols(n) && a < n
    requires Solves(FlowLp(n, books).m, NumCols(n), FlowLp(n, books).v, x) && Nonnegative(x)
    requires Dot(Goal(n), x, NumCols(n)) == 0.0
    ensures Sold(n, PointFlow(n, books, x), a, n) >= Bought(n, PointFlow(n, books, x), a, n)
  {
    hide Index, SellOf, BuyOf, NumOrderbooks, ProgramRows, ProgramValues, Sold, Bought;
    assert Dot(ProgramRows(n, books)[a], x, NumCols(n)) == ProgramValues(n, books)[a] as real;
    AssetBalance(n, books, x, PointFlow(n, books, x), a);
    GoalZero(Goal(n), x, NumCols(n), PenaltyCol(n, a));
  }

  lemma PointWithinBounds(n: nat, books: seq<Book>, x: seq<real>, i: nat)
    requires GoodBooks(n, books) && |x| == NumCols(n) && i < |books|
    requires Solves(FlowLp(n, books).m, NumCols(n), FlowLp(n, books).v, x) && Nonnegative(x)
    ensures books[i].lower as real
      <= At(n, PointFlow(n, books, x), books[i].sell, books[i].buy)
      <= books[i].upper as real
  {
    hide Index, SellOf, BuyOf, NumOrderbooks, ProgramRows, ProgramValues;
    assert Dot(ProgramRows(n, books)[n + i], x, NumCols(n)) == ProgramValues(n, books)[n + i] as real;
    BookBalance(n, books, x, i);
    BookOfIndex(n, books, i);
  }
}
