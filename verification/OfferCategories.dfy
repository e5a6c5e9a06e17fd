/** Orderbook indices: ordered pairs of distinct assets numbered row by row,
    skipping the diagonal. */
module OfferCategories {

  import opened Wrappers

  function NumOrderbooks(n: nat): nat {
    if n == 0 then 0 else n * (n - 1)
  }

  predicate ValidCategory(n: nat, sell: nat, buy: nat) {
    sell != buy && sell < n && buy < n
  }

  /** The index formula, for assets already known to be in range. */
  function Index(n: nat, sell: nat, buy: nat): nat
    requires sell < n && buy < n
  {
    sell * (n - 1) + (if buy > sell then buy - 1 else buy)
  }

  /** The index of a category; None is the "invalid asset number" error. */
  function CategoryToIdx(n: nat, sell: nat, buy: nat): Option<nat> {
    if sell >= n || buy >= n then None else Some(Index(n, sell, buy))
  }

  function SellOf(n: nat, idx: nat): nat
    requires idx < NumOrderbooks(n)
  {
    idx / (n - 1)
  }

  function BuyOf(n: nat, idx: nat): nat
    requires idx < NumOrderbooks(n)
  {
    var b := idx % (n - 1);
    if b >= SellOf(n, idx) then b + 1 else b
  }

  lemma {:induction false} MulMonotone(a: nat, b: nat, d: nat)
    requires a <= b
    ensures a * d <= b * d
  {
    if a < b {
      MulMonotone(a, b - 1, d);
      assert b * d == (b - 1) * d + d;
    }
  }

  lemma NextMultiple(q: nat, d: nat)
    ensures (q + 1) * d == q * d + d
  {
  }

  lemma QuotientUnique(q: nat, r: nat, q': nat, r': nat, d: nat)
    requires r < d && r' < d && q * d + r == q' * d + r'
    ensures q == q' && r == r'
  {
    NextMultiple(q, d);
    NextMultiple(q', d);
    if q < q' {
      MulMonotone(q + 1, q', d);
    } else if q' < q {
      MulMonotone(q' + 1, q, d);
    }
  }

  lemma DivMod(s: nat, b: nat, d: nat)
    requires b < d
    ensures (s * d + b) / d == s && (s * d + b) % d == b
  {
    var x := s * d + b;
    QuotientUnique(x / d, x % d, s, b, d);
  }

  /** Index is a bijection from valid categories to 0 .. n(n-1), inverted by SellOf and BuyOf. */
  lemma IndexInverts(n: nat, sell: nat, buy: nat)
    requires ValidCategory(n, sell, buy)
    ensures Index(n, sell, buy) < NumOrderbooks(n)
    ensures SellOf(n, Index(n, sell, buy)) == sell && BuyOf(n, Index(n, sell, buy)) == buy
  {
    var b := if buy > sell then buy - 1 else buy;
    DivMod(sell, b, n - 1);
    MulMonotone(sell + 1, n, n - 1);
    NextMultiple(sell, n - 1);
  }

  lemma CategoryInverts(n: nat, idx: nat)
    requires idx < NumOrderbooks(n)
    ensures ValidCategory(n, SellOf(n, idx), BuyOf(n, idx))
    ensures Index(n, SellOf(n, idx), BuyOf(n, idx)) == idx
  {
    var s, b := idx / (n - 1), idx % (n - 1);
    assert idx == s * (n - 1) + b;
    assert s < n by {
      if s >= n {
        MulMonotone(n, s, n - 1);
      }
    }
  }

  /** Two valid categories share an index only when they are the same category. */
  lemma IndexInjective(n: nat, s: nat, b: nat, s': nat, b': nat)
    requires ValidCategory(n, s, b) && ValidCategory(n, s', b')
    ensures Index(n, s, b) == Index(n, s', b') <==> s == s' && b == b'
  {
    IndexInverts(n, s, b);
    IndexInverts(n, s', b');
  }

  /** The books are numbered by what they sell, and then by what they buy. */
  lemma IndexOrdered(n: nat, s: nat, b: nat, s': nat, b': nat)
    requires ValidCategory(n, s, b) && ValidCategory(n, s', b')
    ensures Index(n, s, b) < Index(n, s', b') <==> s < s' || (s == s' && b < b')
  {
    NextMultiple(s, n - 1);
    NextMultiple(s', n - 1);
    if s < s' { MulMonotone(s + 1, s', n - 1); }
    if s' < s { MulMonotone(s' + 1, s, n - 1); }
  }

  /** Outside valid categories the formula does collide: selling an asset for itself
      gets the index of another book, which is why categories are validated first. */
  lemma DiagonalCollides(n: nat, a: nat)
    requires a + 1 < n
    ensures Index(n, a, a) == Index(n, a, a + 1) && !ValidCategory(n, a, a)
  {
  }

  lemma LastDiagonal(n: nat)
    requires n > 0
    ensures Index(n, n - 1, n - 1) == NumOrderbooks(n)
  {
    NextMultiple(n - 1, n - 1);
  }

  /** The book that it gets sells the same asset. */
  lemma DiagonalSells(n: nat, a: nat)
    requires a < n && Index(n, a, a) < NumOrderbooks(n)
    ensures a + 1 < n && SellOf(n, Index(n, a, a)) == a
  {
    LastDiagonal(n);
    assert a + 1 < n;
    IndexInverts(n, a, a + 1);
  }
}
