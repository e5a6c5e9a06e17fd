/** Real solutions of an integer tableau: rows as equations, the pivot step as an
    equivalence of systems, and the basic solution of a tableau in basis form. */
module LinearSystem {
  import opened Matrix

  /** Inner product of the first n coefficients with a real point. */
  ghost function Dot(a: seq<int>, x: seq<real>, n: nat): real
    requires n <= |a| && n <= |x|
  {
    if n == 0 then 0.0 else Dot(a, x, n - 1) + a[n-1] as real * x[n-1]
  }

  /** x satisfies every row equation. */
  ghost predicate Solves(m: Mat, cols: nat, v: seq<int>, x: seq<real>)
    requires Rect(m, cols) && |v| == |m|
  {
    |x| == cols && forall r :: 0 <= r < |m| ==> Dot(m[r], x, cols) == v[r] as real
  }

  function PivotValues(m: Mat, cols: nat, v: seq<int>, p: nat, q: nat): (d: seq<int>)
    requires Rect(m, cols) && |v| == |m| && p < |m| && q < cols
    ensures |d| == |m|
  {
    seq(|m|, r requires 0 <= r < |m| => if r == p then v[p] else v[r] - m[r][q] * v[p])
  }

  lemma ScaleTerm(a: int, k: int, b: int, x: real)
    ensures (a - k * b) as real * x == a as real * x - k as real * (b as real * x)
  {
    assert (k * b) as real == k as real * b as real;
    assert (a - k * b) as real == a as real - k as real * b as real;
    assert k as real * b as real * x == k as real * (b as real * x);
  }

  lemma {:induction false} DotSubRow(a: seq<int>, k: int, b: seq<int>, x: seq<real>, n: nat)
    requires |a| == |b| && n <= |a| && n <= |x|
    ensures Dot(SubRow(a, k, b), x, n) == Dot(a, x, n) - k as real * Dot(b, x, n)
  {
    if n > 0 {
      DotSubRow(a, k, b, x, n - 1);
      ScaleTerm(a[n-1], k, b[n-1], x[n-1]);
      var d, e := Dot(b, x, n - 1), b[n-1] as real * x[n-1];
      assert k as real * (d + e) == k as real * d + k as real * e;
    }
  }

  lemma {:induction false} DotNegate(m: Mat, cols: nat, p: nat, x: seq<real>, n: nat)
    requires Rect(m, cols) && p < |m| && n <= cols && n <= |x|
    ensures Dot(NegateRow(m, cols, p)[p], x, n) == -Dot(m[p], x, n)
  {
    if n > 0 {
      DotNegate(m, cols, p, x, n - 1);
      assert (-m[p][n-1]) as real == -(m[p][n-1] as real);
    }
  }

  /** A product with at most two nonzero terms. */
  lemma {:induction false} DotTwo(a: seq<int>, x: seq<real>, n: nat, j: nat, k: nat)
    requires n <= |a| && n <= |x| && j < |a| && j < |x| && k < |a| && k < |x| && j != k
    requires forall i :: 0 <= i < n && i != j && i != k ==> a[i] == 0 || x[i] == 0.0
    ensures Dot(a, x, n) == (if j < n then a[j] as real * x[j] else 0.0) + (if k < n then a[k] as real * x[k] else 0.0)
  {
    if n > 0 {
      DotTwo(a, x, n - 1, j, k);
      assert n - 1 != j && n - 1 != k ==> a[n-1] as real * x[n-1] == 0.0;
    }
  }

  lemma {:induction false} DotUpdate(a: seq<int>, x: seq<real>, n: nat, k: nat, c: int)
    requires n <= |a| && n <= |x| && k < |a| && k < |x|
    ensures Dot(a[k := c], x, n) == Dot(a, x, n) + (if k < n then (c - a[k]) as real * x[k] else 0.0)
  {
    if n > 0 {
      DotUpdate(a, x, n - 1, k, c);
      if k == n - 1 {
        assert (c - a[k]) as real == c as real - a[k] as real;
        assert (c as real - a[k] as real) * x[k] == c as real * x[k] - a[k] as real * x[k];
      }
    }
  }

  lemma {:induction false} DotZero(a: seq<int>, x: seq<real>, n: nat)
    requires n <= |a| && n <= |x|
    requires forall i :: 0 <= i < n ==> a[i] == 0 || x[i] == 0.0
    ensures Dot(a, x, n) == 0.0
  {
    if n > 0 {
      DotZero(a, x, n - 1);
      assert a[n-1] as real * x[n-1] == 0.0;
    }
  }

  /** The pivoted system has exactly the solutions of the original. */
  lemma PivotSolves(m: Mat, cols: nat, v: seq<int>, p: nat, q: nat, x: seq<real>)
    requires Rect(m, cols) && |v| == |m| && p < |m| && q < cols && |x| == cols
    requires m[p][q] == 1
    ensures Solves(m, cols, v, x) <==> Solves(Pivot(m, cols, p, q), cols, PivotValues(m, cols, v, p, q), x)
  {
    var d, u := Pivot(m, cols, p, q), PivotValues(m, cols, v, p, q);
    assert d[p] == m[p] && u[p] == v[p];
    if Dot(m[p], x, cols) == v[p] as real {
      forall r | 0 <= r < |m|
        ensures Dot(m[r], x, cols) == v[r] as real <==> Dot(d[r], x, cols) == u[r] as real
      {
        if r != p {
          DotSubRow(m[r], m[r][q], m[p], x, cols);
          assert (v[r] - m[r][q] * v[p]) as real == v[r] as real - m[r][q] as real * v[p] as real;
        }
      }
    }
  }

  /** Negating a row with its value does not change the solutions. */
  lemma NegateSolves(m: Mat, cols: nat, v: seq<int>, p: nat, x: seq<real>)
    requires Rect(m, cols) && |v| == |m| && p < |m| && |x| == cols
    ensures Solves(m, cols, v, x) <==> Solves(NegateRow(m, cols, p), cols, v[p := -v[p]], x)
  {
    var d, u := NegateRow(m, cols, p), v[p := -v[p]];
    DotNegate(m, cols, p, x, cols);
    forall r | 0 <= r < |m|
      ensures Dot(m[r], x, cols) == v[r] as real <==> Dot(d[r], x, cols) == u[r] as real
    {
    }
  }

  /** Each row's basis column is that row's unit column and carries no objective weight. */
  ghost predicate BasisForm(m: Mat, cols: nat, obj: seq<int>, basis: seq<nat>)
    requires Rect(m, cols)
  {
    && |basis| == |m| && |obj| == cols
    && (forall r :: 0 <= r < |m| ==> basis[r] < cols && obj[basis[r]] == 0)
    && (forall r, s :: 0 <= r < |m| && 0 <= s < |m| ==> m[r][basis[s]] == if r == s then 1 else 0)
  }

  ghost function ColumnOf(m: Mat, cols: nat, r: nat, q: nat): int
    requires Rect(m, cols) && r < |m| && q <= cols
  {
    if q < cols then m[r][q] else 0
  }

  ghost predicate IsBasic(basis: seq<nat>, j: nat) {
    exists r :: 0 <= r < |basis| && basis[r] == j
  }

  ghost function EdgeAt(m: Mat, cols: nat, v: seq<int>, basis: seq<nat>, q: nat, t: int, j: nat): int
    requires Rect(m, cols) && |basis| == |m| == |v| && q <= cols && j < cols
  {
    if j == q then t
    else if IsBasic(basis, j) then
      var r :| 0 <= r < |basis| && basis[r] == j;
      v[r] - ColumnOf(m, cols, r, q) * t
    else 0
  }

  /** The point at distance t from the basic solution along column q; q == cols
      stands for no column, so that Edge(.., cols, 0) is the basic solution. */
  ghost function Edge(m: Mat, cols: nat, v: seq<int>, basis: seq<nat>, q: nat, t: int): (x: seq<real>)
    requires Rect(m, cols) && |basis| == |m| == |v| && q <= cols
    ensures |x| == cols
  {
    seq(cols, j requires 0 <= j < cols => EdgeAt(m, cols, v, basis, q, t, j) as real)
  }

  lemma EdgeAtBasis(m: Mat, cols: nat, v: seq<int>, obj: seq<int>, basis: seq<nat>, q: nat, t: int, r: nat)
    requires Rect(m, cols) && |m| == |v| && q <= cols && r < |m|
    requires BasisForm(m, cols, obj, basis)
    requires !IsBasic(basis, q)
    ensures EdgeAt(m, cols, v, basis, q, t, basis[r]) == v[r] - ColumnOf(m, cols, r, q) * t
  {
    assert basis[r] != q;
    var s :| 0 <= s < |basis| && basis[s] == basis[r] &&
      EdgeAt(m, cols, v, basis, q, t, basis[r]) == v[s] - ColumnOf(m, cols, s, q) * t;
    assert m[r][basis[s]] == 1;
  }

  /** Every point of an edge solves the system, and the objective moves along it by obj[q]. */
  lemma EdgeSolves(m: Mat, cols: nat, v: seq<int>, obj: seq<int>, basis: seq<nat>, q: nat, t: int)
    requires Rect(m, cols) && |m| == |v| && q <= cols
    requires BasisForm(m, cols, obj, basis)
    requires !IsBasic(basis, q)
    requires q == cols ==> t == 0
    ensures Solves(m, cols, v, Edge(m, cols, v, basis, q, t))
    ensures Dot(obj, Edge(m, cols, v, basis, q, t), cols) == if q < cols then (obj[q] * t) as real else 0.0
  {
    var x := Edge(m, cols, v, basis, q, t);
    forall r | 0 <= r < |m| ensures Dot(m[r], x, cols) == v[r] as real {
      EdgeRow(m, cols, v, obj, basis, q, t, r);
    }
    forall j | 0 <= j < cols && j != q ensures obj[j] == 0 || x[j] == 0.0 {
    }
    if q < cols {
      DotOne(obj, x, cols, q);
      assert (obj[q] * t) as real == obj[q] as real * t as real;
    } else {
      DotZero(obj, x, cols);
    }
  }

  lemma DotOne(a: seq<int>, x: seq<real>, n: nat, j: nat)
    requires n == |a| == |x| && j < n
    requires forall i :: 0 <= i < n && i != j ==> a[i] == 0 || x[i] == 0.0
    ensures Dot(a, x, n) == a[j] as real * x[j]
  {
    var b := a[j := 0];
    DotZero(b, x, n);
    DotUpdate(b, x, n, j, a[j]);
    assert b[j := a[j]] == a;
  }

  lemma EdgeRow(m: Mat, cols: nat, v: seq<int>, obj: seq<int>, basis: seq<nat>, q: nat, t: int, r: nat)
    requires Rect(m, cols) && |m| == |v| && q <= cols && r < |m|
    requires BasisForm(m, cols, obj, basis)
    requires !IsBasic(basis, q)
    requires q == cols ==> t == 0
    ensures Dot(m[r], Edge(m, cols, v, basis, q, t), cols) == v[r] as real
  {
    var x, b := Edge(m, cols, v, basis, q, t), basis[r];
    EdgeAtBasis(m, cols, v, obj, basis, q, t, r);
    assert x[b] == (v[r] - ColumnOf(m, cols, r, q) * t) as real;
    assert m[r][b] == 1;
    forall j | 0 <= j < cols && j != q && j != b ensures m[r][j] == 0 || x[j] == 0.0 {
      if IsBasic(basis, j) {
        var s :| 0 <= s < |basis| && basis[s] == j;
        assert m[r][basis[s]] == 0;
      }
    }
    if q < cols {
      assert q != b;
      DotTwo(m[r], x, cols, q, b);
      assert (m[r][q] * t) as real == m[r][q] as real * t as real;
      assert x[b] == v[r] as real - (m[r][q] * t) as real;
    } else {
      DotOne(m[r], x, cols, b);
    }
  }
}
