/** Books with equal bounds are skipped by the solver as if they were never given.
    When that leaves the answer right, exactly, and when it does not. */
module EqualBounds {
  import opened OfferCategories
  import opened FlowProgram
  import opened Feasibility

  ghost predicate AllEqual(books: seq<Book>) {
    forall i :: 0 <= i < |books| ==> books[i].lower == books[i].upper
  }

  /** The forced trades of the skipped books cancel out for every asset. */
  ghost predicate Cancels(n: nat, skipped: seq<Book>) {
    forall a :: 0 <= a < n ==> AssetValue(skipped, a) == 0
  }

  ghost predicate SkippingRight(n: nat, accepted: seq<Book>, skipped: seq<Book>)
    requires GoodBooks(n, accepted + skipped)
  {
    GoodParts(n, accepted, skipped);
    HasRealFlow(n, accepted) <==> HasRealFlow(n, accepted + skipped)
  }

  lemma GoodParts(n: nat, a: seq<Book>, b: seq<Book>)
    requires GoodBooks(n, a + b)
    ensures GoodBooks(n, a) && GoodBooks(n, b)
    ensures forall c: nat :: HasBook(n, a + b, c) <==> HasBook(n, a, c) || HasBook(n, b, c)
    ensures forall c: nat :: !(HasBook(n, a, c) && HasBook(n, b, c))
  {
    hide Index;
    var all := a + b;
    assert forall i :: 0 <= i < |a| ==> all[i] == a[i];
    assert forall i :: 0 <= i < |b| ==> all[|a| + i] == b[i];
    forall i, j | 0 <= i < j < |b| ensures BookIdx(n, b[i]) != BookIdx(n, b[j]) {
      assert all[|a| + i] == b[i] && all[|a| + j] == b[j];
    }
    forall c: nat ensures HasBook(n, all, c) <==> HasBook(n, a, c) || HasBook(n, b, c) {
      if HasBook(n, all, c) {
        var i :| 0 <= i < |all| && BookIdx(n, all[i]) == c;
        assert all[i] == if i < |a| then a[i] else b[i - |a|];
      }
      if HasBook(n, a, c) {
        var i :| 0 <= i < |a| && BookIdx(n, a[i]) == c;
        assert all[i] == a[i];
      }
      if HasBook(n, b, c) {
        var i :| 0 <= i < |b| && BookIdx(n, b[i]) == c;
        assert all[|a| + i] == b[i];
      }
    }
    forall c: nat ensures !(HasBook(n, a, c) && HasBook(n, b, c)) {
    }
  }

  /** Shifting a flow by a sign times the forced trades of the skipped books. */
  ghost function Shift(n: nat, skipped: seq<Book>, y: seq<real>, sign: real): (z: seq<real>)
    requires GoodBooks(n, skipped) && |y| == NumOrderbooks(n)
    ensures |z| == |y|
  {
    seq(|y|, c requires 0 <= c < |y| => y[c] + sign * LowerAt(n, skipped, c) as real)
  }

  lemma ShiftBalance(n: nat, skipped: seq<Book>, y: seq<real>, z: seq<real>, a: nat)
    requires GoodBooks(n, skipped) && |y| == |z| == NumOrderbooks(n) && a < n
    requires forall c :: 0 <= c < |y| ==> z[c] == y[c] + LowerAt(n, skipped, c) as real
    ensures Sold(n, z, a, n) - Bought(n, z, a, n) ==
            Sold(n, y, a, n) - Bought(n, y, a, n) + AssetValue(skipped, a) as real
  {
    hide Index, SellOf, BuyOf, NumOrderbooks, LowerAt;
    AssetValueMeaning(n, skipped, a);
    TradesAdd(n, z, y, Reals(Lowers(n, skipped)), a, n);
  }

  lemma AddForced(n: nat, accepted: seq<Book>, skipped: seq<Book>, y: seq<real>)
    requires GoodBooks(n, accepted + skipped) && AllEqual(skipped) && Cancels(n, skipped)
    requires GoodBooks(n, accepted) && GoodBooks(n, skipped) && FeasibleFlow(n, accepted, y)
    ensures FeasibleFlow(n, accepted + skipped, Shift(n, skipped, y, 1.0))
  {
    hide Index, SellOf, BuyOf, NumOrderbooks;
    var z, all := Shift(n, skipped, y, 1.0), accepted + skipped;
    GoodParts(n, accepted, skipped);
    forall i | 0 <= i < |all|
      ensures all[i].lower as real <= At(n, z, all[i].sell, all[i].buy) <= all[i].upper as real
    {
      IndexInverts(n, all[i].sell, all[i].buy);
      if i < |accepted| {
        assert all[i] == accepted[i] && HasBook(n, accepted, BookIdx(n, accepted[i]));
      } else {
        var j := i - |accepted|;
        assert all[i] == skipped[j] && HasBook(n, skipped, BookIdx(n, skipped[j]));
        BookOfIndex(n, skipped, j);
        assert !HasBook(n, accepted, BookIdx(n, skipped[j]));
      }
    }
    forall a | 0 <= a < n ensures Sold(n, z, a, n) >= Bought(n, z, a, n) {
      ShiftBalance(n, skipped, y, z, a);
    }
  }

  lemma DropForced(n: nat, accepted: seq<Book>, skipped: seq<Book>, z: seq<real>)
    requires GoodBooks(n, accepted + skipped) && AllEqual(skipped) && Cancels(n, skipped)
    requires GoodBooks(n, accepted) && GoodBooks(n, skipped) && FeasibleFlow(n, accepted + skipped, z)
    ensures FeasibleFlow(n, accepted, Shift(n, skipped, z, -1.0))
  {
    hide Index, SellOf, BuyOf, NumOrderbooks;
    var y, all := Shift(n, skipped, z, -1.0), accepted + skipped;
    GoodParts(n, accepted, skipped);
    forall i | 0 <= i < |accepted|
      ensures accepted[i].lower as real <= At(n, y, accepted[i].sell, accepted[i].buy) <= accepted[i].upper as real
    {
      IndexInverts(n, accepted[i].sell, accepted[i].buy);
      assert all[i] == accepted[i] && HasBook(n, accepted, BookIdx(n, accepted[i]));
    }
    forall c | 0 <= c < |y| && !HasBook(n, accepted, c) ensures y[c] == 0.0 {
      if HasBook(n, skipped, c) {
        var j :| 0 <= j < |skipped| && BookIdx(n, skipped[j]) == c;
        BookOfIndex(n, skipped, j);
        assert all[|accepted| + j] == skipped[j];
        assert At(n, z, skipped[j].sell, skipped[j].buy) == z[c];
      }
    }
    forall a | 0 <= a < n ensures Sold(n, y, a, n) >= Bought(n, y, a, n) {
      ShiftBalance(n, skipped, y, z, a);
    }
  }

  lemma CancellingIsHarmless(n: nat, accepted: seq<Book>, skipped: seq<Book>)
    requires GoodBooks(n, accepted + skipped) && AllEqual(skipped) && Cancels(n, skipped)
    ensures SkippingRight(n, accepted, skipped)
  {
    GoodParts(n, accepted, skipped);
    if HasRealFlow(n, accepted) {
      var y :| FeasibleFlow(n, accepted, y);
      AddForced(n, accepted, skipped, y);
    }
    if HasRealFlow(n, accepted + skipped) {
      var z :| FeasibleFlow(n, accepted + skipped, z);
      DropForced(n, accepted, skipped, z);
    }
  }

  ghost function TotalValue(books: seq<Book>, k: nat): int {
    if k == 0 then 0 else TotalValue(books, k - 1) + AssetValue(books, k - 1)
  }

  lemma {:induction false} TotalStep(books: seq<Book>, k: nat)
    requires books != []
    ensures var b := books[|books| - 1];
      TotalValue(books, k) == TotalValue(books[..|books| - 1], k) +
        (if b.sell < k then b.lower else 0) - (if b.buy < k then b.lower else 0)
  {
    if k > 0 { TotalStep(books, k - 1); }
  }

  /** What one asset sells another buys: the forced balances sum to zero. */
  lemma {:induction false} TotalZero(n: nat, books: seq<Book>)
    requires forall i :: 0 <= i < |books| ==> ValidCategory(n, books[i].sell, books[i].buy)
    ensures TotalValue(books, n) == 0
  {
    if books == [] {
      EmptyTotal(n);
    } else {
      TotalZero(n, books[..|books| - 1]);
      TotalStep(books, n);
    }
  }

  lemma {:induction false} EmptyTotal(n: nat)
    ensures TotalValue([], n) == 0
  {
    if n > 0 { EmptyTotal(n - 1); }
  }

  lemma {:induction false} NonnegativeTotal(books: seq<Book>, k: nat, a: nat)
    requires forall b :: 0 <= b < k ==> AssetValue(books, b) >= 0
    ensures TotalValue(books, k) >= 0
    ensures a < k ==> AssetValue(books, a) <= TotalValue(books, k)
  {
    if k > 0 { NonnegativeTotal(books, k - 1, a); }
  }

  lemma ForcedCancels(n: nat, skipped: seq<Book>)
    requires GoodBooks(n, skipped) && AllEqual(skipped) && HasRealFlow(n, skipped)
    ensures Cancels(n, skipped)
  {
    hide Index, SellOf, BuyOf, NumOrderbooks;
    var z :| FeasibleFlow(n, skipped, z);
    var y := seq(NumOrderbooks(n), _ => 0.0);
    forall c | 0 <= c < |z| ensures z[c] == y[c] + LowerAt(n, skipped, c) as real {
      if HasBook(n, skipped, c) {
        var j :| 0 <= j < |skipped| && BookIdx(n, skipped[j]) == c;
        BookOfIndex(n, skipped, j);
        assert At(n, z, skipped[j].sell, skipped[j].buy) == z[c];
      }
    }
    forall a | 0 <= a < n ensures AssetValue(skipped, a) >= 0 {
      ShiftBalance(n, skipped, y, z, a);
      TradesZero(n, y, a, n);
    }
    TotalZero(n, skipped);
    forall a | 0 <= a < n ensures AssetValue(skipped, a) == 0 {
      NonnegativeTotal(skipped, n, a);
    }
  }

  lemma NoBooksFlow(n: nat)
    ensures GoodBooks(n, []) && HasRealFlow(n, [])
  {
    hide Index, SellOf, BuyOf, NumOrderbooks;
    var y := seq(NumOrderbooks(n), _ => 0.0);
    forall a | 0 <= a < n ensures Sold(n, y, a, n) >= Bought(n, y, a, n) {
      TradesZero(n, y, a, n);
    }
    assert FeasibleFlow(n, [], y);
  }

  /** With nothing else to trade, books with equal bounds are feasible exactly when their
      forced trades cancel out. */
  lemma ForcedAlone(n: nat, skipped: seq<Book>)
    requires GoodBooks(n, skipped) && AllEqual(skipped)
    ensures HasRealFlow(n, skipped) <==> Cancels(n, skipped)
  {
    if HasRealFlow(n, skipped) { ForcedCancels(n, skipped); }
    if Cancels(n, skipped) {
      assert [] + skipped == skipped;
      NoBooksFlow(n);
      CancellingIsHarmless(n, [], skipped);
    }
  }

  /** Exactly when skipping is right: for every choice of the other books the answer is
      that of all the bounds given, if and only if the skipped trades cancel out. */
  lemma SkippingExact(n: nat, skipped: seq<Book>)
    requires GoodBooks(n, skipped) && AllEqual(skipped)
    ensures (forall accepted: seq<Book> :: GoodBooks(n, accepted + skipped) ==> SkippingRight(n, accepted, skipped))
      <==> Cancels(n, skipped)
  {
    if Cancels(n, skipped) {
      forall accepted: seq<Book> | GoodBooks(n, accepted + skipped) ensures SkippingRight(n, accepted, skipped) {
        CancellingIsHarmless(n, accepted, skipped);
      }
    }
    if forall accepted: seq<Book> :: GoodBooks(n, accepted + skipped) ==> SkippingRight(n, accepted, skipped) {
      assert [] + skipped == skipped;
      NoBooksFlow(n);
      assert SkippingRight(n, [], skipped);
      ForcedAlone(n, skipped);
    }
  }

  /** A single book that must sell exactly five units is infeasible, yet skipping it
      leaves a feasible problem. */
  lemma SkippingCanBeWrong()
    ensures var b := [Book(0, 1, 5, 5)];
      GoodBooks(2, b) && GoodBooks(2, []) && HasRealFlow(2, []) && !HasRealFlow(2, b)
  {
    var b := [Book(0, 1, 5, 5)];
    NoBooksFlow(2);
    assert b[..0] == [];
    assert AssetValue(b, 0) == 5;
    if HasRealFlow(2, b) { ForcedAlone(2, b); }
  }
}
