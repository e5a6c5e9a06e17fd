/** The tableau the solver starts from: it is signable, and the normalisation of
    the short asset rows brings it into the form every pivot then keeps. */
module FlowStart {
  import opened Matrix
  import opened LinearSystem
  import opened SimplexRun
  import opened OfferCategories
  import opened FlowProgram

  /** An asset row is short when its lower bounds buy more than they sell. */
  predicate Short(books: seq<Book>, a: nat) {
    AssetValue(books, a) < 0
  }

  function StartBasis(n: nat, books: seq<Book>): (b: seq<nat>)
    requires forall i :: 0 <= i < |books| ==> ValidCategory(n, books[i].sell, books[i].buy)
    ensures |b| == n + |books|
  {
    seq(n, a requires 0 <= a => if Short(books, a) then PenaltyCol(n, a) else SlackCol(n, a)) +
    seq(|books|, i requires 0 <= i < |books| => CapacityCol(n, BookIdx(n, books[i])))
  }

  function StartTableau(n: nat, books: seq<Book>): Tableau
    requires forall i :: 0 <= i < |books| ==> ValidCategory(n, books[i].sell, books[i].buy)
  {
    Tableau(ProgramRows(n, books), ProgramValues(n, books), Goal(n), 0, StartBasis(n, books))
  }

  // ---- signing the start ----

  function AssetSign(rows: set<nat>, a: nat): int {
    if a in rows then 1 else 0
  }

  /** Asset rows are signed plus, the objective row minus, and each capacity row
      against what its own column sums to over the asset rows. */
  ghost function StartSign(n: nat, books: seq<Book>, rows: set<nat>, r: nat): int {
    if r !in rows then 0
    else if r < n then 1
    else if r < n + |books| then
      var b := books[r - n];
      if AssetSign(rows, b.buy) > AssetSign(rows, b.sell) then -1 else 1
    else -1
  }

  ghost function StartSigns(n: nat, books: seq<Book>, rows: set<nat>): (w: seq<int>)
    ensures |w| == n + |books| + 1
  {
    seq(n + |books| + 1, r requires 0 <= r => StartSign(n, books, rows, r))
  }

  ghost function StartEntry(n: nat, books: seq<Book>, r: nat, j: nat): int
    requires GoodBooks(n, books)
  {
    if r < n then AssetEntry(n, r, n, j)
    else if r < n + |books| then
      var c := BookIdx(n, books[r - n]); if j == c || j == CapacityCol(n, c) then 1 else 0
    else if j >= PenaltyCol(n, 0) then -1 else 0
  }

  lemma StartEntries(n: nat, books: seq<Book>, r: nat, j: nat)
    requires GoodBooks(n, books) && r < n + |books| + 1 && j < NumCols(n)
    ensures WithObjective(StartTableau(n, books))[r][j] == StartEntry(n, books, r, j)
  {
    hide Index, SellOf, BuyOf, NumOrderbooks;
  }

  ghost predicate Own(n: nat, books: seq<Book>, c: nat, b: nat)
    requires GoodBooks(n, books)
  {
    n <= b && if HasBook(n, books, c) then b < n + |books| && BookIdx(n, books[b - n]) == c else b == n + |books| + 1
  }

  lemma OwnRow(n: nat, books: seq<Book>, c: nat) returns (b: nat)
    requires GoodBooks(n, books)
    ensures Own(n, books, c, b)
  {
    if HasBook(n, books, c) {
      var i :| 0 <= i < |books| && BookIdx(n, books[i]) == c;
      b := n + i;
    } else {
      b := n + |books| + 1;
    }
  }

  /** The nonzero rows of each kind of column. */
  lemma StartColumn(n: nat, books: seq<Book>, j: nat, b: nat, r: nat)
    requires GoodBooks(n, books) && j < NumCols(n) && r < n + |books| + 1
    requires j < NumOrderbooks(n) ==> Own(n, books, j, b)
    requires NumOrderbooks(n) <= j < 2 * NumOrderbooks(n) ==> Own(n, books, j - NumOrderbooks(n), b)
    ensures j < NumOrderbooks(n) && r != SellOf(n, j) && r != BuyOf(n, j) && r != b ==> StartEntry(n, books, r, j) == 0
    ensures NumOrderbooks(n) <= j < 2 * NumOrderbooks(n) && r != b ==> StartEntry(n, books, r, j) == 0
    ensures 2 * NumOrderbooks(n) <= j < PenaltyCol(n, 0) && r != j - SlackCol(n, 0) ==> StartEntry(n, books, r, j) == 0
    ensures PenaltyCol(n, 0) <= j && r != j - PenaltyCol(n, 0) && r != n + |books| ==> StartEntry(n, books, r, j) == 0
  {
    hide Index, SellOf, BuyOf, NumOrderbooks;
    if n <= r < n + |books| {
      IndexInverts(n, books[r - n].sell, books[r - n].buy);
      assert HasBook(n, books, BookIdx(n, books[r - n]));
    }
  }

  /** A column sum of the start, from the rows that can be nonzero there. */
  lemma StartSum(n: nat, books: seq<Book>, rows: set<nat>, j: nat, a1: nat, a2: nat, b: nat)
    requires GoodBooks(n, books) && j < NumCols(n) && a1 != a2 && a2 != b && a1 != b
    requires forall r :: 0 <= r < n + |books| + 1 && r != a1 && r != a2 && r != b ==> StartEntry(n, books, r, j) == 0
    ensures ColSum(StartSigns(n, books, rows), WithObjective(StartTableau(n, books)), NumCols(n), j, n + |books| + 1) ==
            StartTerm(n, books, rows, j, a1) + StartTerm(n, books, rows, j, a2) + StartTerm(n, books, rows, j, b)
  {
    hide Index, SellOf, BuyOf, NumOrderbooks, StartEntry, StartSign;
    var w, e, last := StartSigns(n, books, rows), WithObjective(StartTableau(n, books)), n + |books| + 1;
    forall r | 0 <= r < last ensures e[r][j] == StartEntry(n, books, r, j) {
      StartEntries(n, books, r, j);
    }
    ColSumThree(w, e, NumCols(n), j, last, a1, a2, b);
  }

  ghost function StartTerm(n: nat, books: seq<Book>, rows: set<nat>, j: nat, r: nat): int
    requires GoodBooks(n, books)
  {
    if r < n + |books| + 1 then StartSign(n, books, rows, r) * StartEntry(n, books, r, j) else 0
  }

  ghost predicate StartBalancedAt(n: nat, books: seq<Book>, rows: set<nat>, j: nat)
    requires GoodBooks(n, books) && j < NumCols(n)
  {
    -1 <= ColSum(StartSigns(n, books, rows), WithObjective(StartTableau(n, books)), NumCols(n), j, n + |books| + 1) <= 1
  }

  lemma BookColumnBalanced(n: nat, books: seq<Book>, rows: set<nat>, j: nat)
    requires GoodBooks(n, books) && j < NumOrderbooks(n) && j < NumCols(n)
    ensures StartBalancedAt(n, books, rows, j)
  {
    hide Index, SellOf, BuyOf, NumOrderbooks;
    CategoryInverts(n, j);
    var b := OwnRow(n, books, j);
    forall r | 0 <= r < n + |books| + 1 && r != SellOf(n, j) && r != BuyOf(n, j) && r != b
      ensures StartEntry(n, books, r, j) == 0
    {
      StartColumn(n, books, j, b, r);
    }
    StartSum(n, books, rows, j, SellOf(n, j), BuyOf(n, j), b);
    if b < n + |books| {
      IndexInverts(n, books[b - n].sell, books[b - n].buy);
    }
  }

  lemma CapacityColumnBalanced(n: nat, books: seq<Book>, rows: set<nat>, j: nat)
    requires GoodBooks(n, books) && NumOrderbooks(n) <= j < 2 * NumOrderbooks(n)
    ensures StartBalancedAt(n, books, rows, j)
  {
    hide Index, SellOf, BuyOf, NumOrderbooks;
    var b := OwnRow(n, books, j - NumOrderbooks(n));
    forall r | 0 <= r < n + |books| + 1 && r != b ensures StartEntry(n, books, r, j) == 0 {
      StartColumn(n, books, j, b, r);
    }
    StartSum(n, books, rows, j, n + |books| + 2, n + |books| + 3, b);
  }

  lemma AssetColumnBalanced(n: nat, books: seq<Book>, rows: set<nat>, j: nat)
    requires GoodBooks(n, books) && 2 * NumOrderbooks(n) <= j < NumCols(n)
    ensures StartBalancedAt(n, books, rows, j)
  {
    hide Index, SellOf, BuyOf, NumOrderbooks;
    var last := n + |books|;
    var a := if j < PenaltyCol(n, 0) then j - SlackCol(n, 0) else j - PenaltyCol(n, 0);
    forall r | 0 <= r < last + 1 && r != a && r != last ensures StartEntry(n, books, r, j) == 0 {
      StartColumn(n, books, j, last + 1, r);
    }
    StartSum(n, books, rows, j, a, last, last + 1);
  }

  /** The constraint matrix with its objective row is signable, hence totally unimodular. */
  lemma StartSignable(n: nat, books: seq<Book>)
    requires GoodBooks(n, books)
    ensures Signable(WithObjective(StartTableau(n, books)), NumCols(n))
  {
    hide Index, SellOf, BuyOf, NumOrderbooks;
    var e := WithObjective(StartTableau(n, books));
    forall rows: set<nat> ensures HasSigning(e, NumCols(n), rows) {
      var w := StartSigns(n, books, rows);
      forall j | 0 <= j < NumCols(n) ensures -1 <= ColSum(w, e, NumCols(n), j, |e|) <= 1 {
        if j < NumOrderbooks(n) {
          BookColumnBalanced(n, books, rows, j);
        } else if j < 2 * NumOrderbooks(n) {
          CapacityColumnBalanced(n, books, rows, j);
        } else {
          AssetColumnBalanced(n, books, rows, j);
        }
        assert StartBalancedAt(n, books, rows, j);
      }
      assert BalancedSigning(w, e, NumCols(n), rows);
    }
  }

  // ---- normalising the short rows ----

  function NegateTableau(t: Tableau, cols: nat, a: nat): (u: Tableau)
    requires Shaped(t, cols) && a < |t.m|
    ensures Shaped(u, cols) && |u.m| == |t.m|
  {
    t.(m := NegateRow(t.m, cols, a), v := t.v[a := -t.v[a]])
  }

  /** Negate asset a's row if it is short and clear its penalty from the objective. */
  function NormalizeAsset(t: Tableau, n: nat, books: seq<Book>, a: nat): (u: Tableau)
    requires Shaped(t, NumCols(n)) && a < n <= |t.m|
    ensures Shaped(u, NumCols(n)) && |u.m| == |t.m|
  {
    if Short(books, a) then
      var s := NegateTableau(t, NumCols(n), a);
      s.(obj := SubRow(s.obj, s.obj[PenaltyCol(n, a)], s.m[a]),
         objVal := s.objVal - s.obj[PenaltyCol(n, a)] * s.v[a])
    else t
  }

  function Normalized(n: nat, books: seq<Book>, k: nat): (t: Tableau)
    requires forall i :: 0 <= i < |books| ==> ValidCategory(n, books[i].sell, books[i].buy)
    requires k <= n
    ensures Shaped(t, NumCols(n)) && |t.m| == n + |books|
  {
    if k == 0 then StartTableau(n, books) else NormalizeAsset(Normalized(n, books, k - 1), n, books, k - 1)
  }

  ghost predicate Done(books: seq<Book>, k: nat, a: nat) {
    a < k && Short(books, a)
  }

  /** The tableau once the first k assets are normalised. */
  ghost predicate NormalForm(t: Tableau, n: nat, books: seq<Book>, k: nat)
    requires GoodBooks(n, books) && k <= n
  {
    && Shaped(t, NumCols(n)) && |t.m| == n + |books|
    && t.basis == StartBasis(n, books)
    && Signable(WithObjective(t), NumCols(n))
    && Equivalent(t, FlowLp(n, books), NumCols(n))
    && (forall r, j :: 0 <= r < n + |books| && 0 <= j < NumCols(n) ==>
          t.m[r][j] == if Done(books, k, r) then -StartEntry(n, books, r, j) else StartEntry(n, books, r, j))
    && (forall r :: 0 <= r < n + |books| ==>
          t.v[r] == if Done(books, k, r) then -ProgramValues(n, books)[r] else ProgramValues(n, books)[r])
    && (forall j :: NumOrderbooks(n) <= j < 2 * NumOrderbooks(n) ==> t.obj[j] == 0)
    && (forall a :: 0 <= a < n ==>
          && t.obj[SlackCol(n, a)] == (if Done(books, k, a) then -1 else 0)
          && t.obj[PenaltyCol(n, a)] == (if Done(books, k, a) then 0 else -1))
  }

  lemma StartNormal(n: nat, books: seq<Book>)
    requires GoodBooks(n, books)
    ensures NormalForm(StartTableau(n, books), n, books, 0)
  {
    hide Index, SellOf, BuyOf, NumOrderbooks, StartEntry;
    var t := StartTableau(n, books);
    StartSignable(n, books);
    forall r, j | 0 <= r < n + |books| && 0 <= j < NumCols(n) ensures t.m[r][j] == StartEntry(n, books, r, j) {
      StartEntries(n, books, r, j);
      assert WithObjective(t)[r] == t.m[r];
    }
  }

  /** Normalising is a negation followed by a pivot on the penalty column. */
  lemma NormalizeIsPivot(t: Tableau, n: nat, books: seq<Book>, a: nat)
    requires GoodBooks(n, books) && a < n && NormalForm(t, n, books, a) && Short(books, a)
    ensures var s := NegateTableau(t, NumCols(n), a);
      && s.m[a][PenaltyCol(n, a)] == 1
      && NormalizeAsset(t, n, books, a) == PivotTableau(s, NumCols(n), a, PenaltyCol(n, a))
  {
    hide Index, SellOf, BuyOf, NumOrderbooks;
    var cols, q := NumCols(n), PenaltyCol(n, a);
    var s := NegateTableau(t, cols, a);
    forall r | 0 <= r < |t.m| ensures s.m[r][q] == if r == a then 1 else 0 {
      if n <= r { IndexInverts(n, books[r - n].sell, books[r - n].buy); }
    }
    var u := PivotTableau(s, cols, a, q);
    forall r | 0 <= r < |s.m| ensures u.m[r] == s.m[r] && u.v[r] == s.v[r] {
      if r != a { assert SubRow(s.m[r], 0, s.m[a]) == s.m[r]; }
    }
    assert u.m == s.m && u.v == s.v && u.basis == s.basis;
  }

  lemma NegateEquivalent(t: Tableau, lp: Program, cols: nat, a: nat)
    requires Shaped(t, cols) && ShapedProgram(lp, cols) && a < |t.m| && Equivalent(t, lp, cols)
    ensures Equivalent(NegateTableau(t, cols, a), lp, cols)
  {
    var s := NegateTableau(t, cols, a);
    forall x ensures Solves(s.m, cols, s.v, x) <==> Solves(lp.m, cols, lp.v, x) {
      if |x| == cols { NegateSolves(t.m, cols, t.v, a, x); }
    }
  }

  lemma NormalizeKeepsProgram(t: Tableau, n: nat, books: seq<Book>, a: nat)
    requires GoodBooks(n, books) && a < n && NormalForm(t, n, books, a) && Short(books, a)
    ensures Signable(WithObjective(NormalizeAsset(t, n, books, a)), NumCols(n))
    ensures Equivalent(NormalizeAsset(t, n, books, a), FlowLp(n, books), NumCols(n))
  {
    hide Index, SellOf, BuyOf, NumOrderbooks, StartEntry, ProgramRows, ProgramValues;
    var cols, q := NumCols(n), PenaltyCol(n, a);
    var s := NegateTableau(t, cols, a);
    NormalizeIsPivot(t, n, books, a);
    NegateSignable(WithObjective(t), cols, a);
    assert NegateRow(WithObjective(t), cols, a) == WithObjective(s);
    PivotWithObjective(s, cols, a, q);
    assert WithObjective(s)[a][q] == 1;
    PivotSignable(WithObjective(s), cols, a, q);
    NegateEquivalent(t, FlowLp(n, books), cols, a);
    PivotEquivalent(s, FlowLp(n, books), cols, a, q);
  }

  lemma NormalizeObjective(t: Tableau, n: nat, books: seq<Book>, a: nat)
    requires GoodBooks(n, books) && a < n && NormalForm(t, n, books, a) && Short(books, a)
    ensures var u := NormalizeAsset(t, n, books, a);
      && (forall j :: NumOrderbooks(n) <= j < 2 * NumOrderbooks(n) ==> u.obj[j] == 0)
      && (forall b :: 0 <= b < n ==>
          && u.obj[SlackCol(n, b)] == (if Done(books, a + 1, b) then -1 else 0)
          && u.obj[PenaltyCol(n, b)] == (if Done(books, a + 1, b) then 0 else -1))
  {
    hide Index, SellOf, BuyOf, NumOrderbooks;
    var u := NormalizeAsset(t, n, books, a);
    forall j | 0 <= j < NumCols(n) ensures u.obj[j] == t.obj[j] - AssetEntry(n, a, n, j) {
      assert t.obj[PenaltyCol(n, a)] == -1;
      assert NegateTableau(t, NumCols(n), a).m[a][j] == -StartEntry(n, books, a, j);
    }
  }

  /** One normalisation step of the loop over the assets. */
  lemma NormalizeStep(t: Tableau, n: nat, books: seq<Book>, a: nat)
    requires GoodBooks(n, books) && a < n && NormalForm(t, n, books, a)
    ensures NormalForm(NormalizeAsset(t, n, books, a), n, books, a + 1)
  {
    hide Index, SellOf, BuyOf, NumOrderbooks, StartEntry, AssetEntry, ProgramRows, ProgramValues;
    var u := NormalizeAsset(t, n, books, a);
    if Short(books, a) {
      NormalizeKeepsProgram(t, n, books, a);
      NormalizeObjective(t, n, books, a);
    }
  }

  lemma {:induction false} NormalizedForm(n: nat, books: seq<Book>, k: nat)
    requires GoodBooks(n, books) && k <= n
    ensures NormalForm(Normalized(n, books, k), n, books, k)
  {
    hide NormalForm, NormalizeAsset, StartTableau, Index, NumOrderbooks;
    if k == 0 {
      StartNormal(n, books);
    } else {
      NormalizedForm(n, books, k - 1);
      NormalizeStep(Normalized(n, books, k - 1), n, books, k - 1);
    }
  }

  lemma StartBasisColumn(n: nat, books: seq<Book>, s: nat, r: nat)
    requires GoodBooks(n, books) && s < n + |books| && r < n + |books|
    ensures StartBasis(n, books)[s] < NumCols(n)
    ensures StartEntry(n, books, r, StartBasis(n, books)[s]) ==
      if r != s then 0 else if s < n && Short(books, s) then -1 else 1
  {
    hide Index, SellOf, BuyOf, NumOrderbooks;
    if n <= s { IndexInverts(n, books[s - n].sell, books[s - n].buy); }
    if n <= r { IndexInverts(n, books[r - n].sell, books[r - n].buy); }
  }

  lemma NormalBasis(t: Tableau, n: nat, books: seq<Book>)
    requires GoodBooks(n, books) && NormalForm(t, n, books, n)
    ensures BasisForm(t.m, NumCols(n), t.obj, t.basis)
  {
    hide Index, SellOf, BuyOf, NumOrderbooks, StartEntry;
    forall r | 0 <= r < |t.m| ensures t.basis[r] < NumCols(n) && t.obj[t.basis[r]] == 0 {
      StartBasisColumn(n, books, r, r);
      if n <= r { IndexInverts(n, books[r - n].sell, books[r - n].buy); }
    }
    forall r, s | 0 <= r < |t.m| && 0 <= s < |t.m| ensures t.m[r][t.basis[s]] == if r == s then 1 else 0 {
      StartBasisColumn(n, books, s, r);
    }
  }

  /** The invariant of the run holds when the pivot loop starts. */
  lemma NormalizedInvariant(n: nat, books: seq<Book>)
    requires GoodBooks(n, books)
    ensures RunInvariant(Normalized(n, books, n), FlowLp(n, books), NumCols(n))
    ensures Normalized(n, books, n).basis == StartBasis(n, books)
  {
    hide Index, SellOf, BuyOf, NumOrderbooks, StartEntry, AssetEntry, ProgramRows;
    var t := Normalized(n, books, n);
    NormalizedForm(n, books, n);
    NormalBasis(t, n, books);
    DropRow(t.m, t.obj, NumCols(n));
    forall r | 0 <= r < |t.v| ensures t.v[r] >= 0 {
    }
  }
}
