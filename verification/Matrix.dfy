/** Integer matrices, weighted column sums, row signings and the pivot step of
    the tableau. The signing property used here is the row characterisation of
    total unimodularity: every set of rows can be signed so that each column
    sums to -1, 0 or 1. */
module Matrix {

  type Mat = seq<seq<int>>

  ghost predicate Rect(m: Mat, cols: nat) {
    forall r :: 0 <= r < |m| ==> |m[r]| == cols
  }

  /** Sum over the first n rows of weight times the entry in column j. */
  ghost function ColSum(w: seq<int>, m: Mat, cols: nat, j: nat, n: nat): int
    requires Rect(m, cols) && j < cols && n <= |w| && n <= |m|
  {
    if n == 0 then 0 else ColSum(w, m, cols, j, n - 1) + w[n-1] * m[n-1][j]
  }

  /** w signs exactly the rows in the set: plus or minus one there, zero elsewhere. */
  ghost predicate Signs(w: seq<int>, rows: set<nat>) {
    forall i :: 0 <= i < |w| ==> if i in rows then w[i] == 1 || w[i] == -1 else w[i] == 0
  }

  ghost predicate Balanced(w: seq<int>, m: Mat, cols: nat)
    requires Rect(m, cols) && |w| == |m|
  {
    forall j :: 0 <= j < cols ==> -1 <= ColSum(w, m, cols, j, |m|) <= 1
  }

  ghost predicate BalancedSigning(w: seq<int>, m: Mat, cols: nat, rows: set<nat>)
    requires Rect(m, cols)
  {
    |w| == |m| && Signs(w, rows) && Balanced(w, m, cols)
  }

  ghost predicate HasSigning(m: Mat, cols: nat, rows: set<nat>)
    requires Rect(m, cols)
  {
    exists w :: BalancedSigning(w, m, cols, rows)
  }

  /** The row-signing form of total unimodularity. */
  ghost predicate Signable(m: Mat, cols: nat)
    requires Rect(m, cols)
  {
    forall rows: set<nat> :: HasSigning(m, cols, rows)
  }

  ghost predicate UnitEntries(m: Mat, cols: nat)
    requires Rect(m, cols)
  {
    forall r, c :: 0 <= r < |m| && 0 <= c < cols ==> -1 <= m[r][c] <= 1
  }

  /** Row a minus k times row b. */
  function SubRow(a: seq<int>, k: int, b: seq<int>): (d: seq<int>)
    requires |a| == |b|
    ensures |d| == |a|
  {
    seq(|a|, c requires 0 <= c < |a| => a[c] - k * b[c])
  }

  /** The Gauss-Jordan step on a unit pivot: column q becomes the unit column of row p. */
  function Pivot(m: Mat, cols: nat, p: nat, q: nat): (d: Mat)
    requires Rect(m, cols) && p < |m| && q < cols
    ensures |d| == |m| && Rect(d, cols)
  {
    seq(|m|, r requires 0 <= r < |m| => if r == p then m[p] else SubRow(m[r], m[r][q], m[p]))
  }

  function NegateRow(m: Mat, cols: nat, p: nat): (d: Mat)
    requires Rect(m, cols) && p < |m|
    ensures |d| == |m| && Rect(d, cols)
  {
    m[p := seq(cols, c requires 0 <= c < cols => -m[p][c])]
  }

  /** A column with at most three nonzero terms sums to those terms. */
  lemma {:induction false} ColSumThree(w: seq<int>, m: Mat, cols: nat, j: nat, n: nat, a: nat, b: nat, c: nat)
    requires Rect(m, cols) && j < cols && n <= |w| && n <= |m|
    requires a != b && b != c && a != c
    requires forall i :: 0 <= i < n && i != a && i != b && i != c ==> m[i][j] == 0
    ensures ColSum(w, m, cols, j, n) ==
            (if a < n then w[a] * m[a][j] else 0) + (if b < n then w[b] * m[b][j] else 0)
              + (if c < n then w[c] * m[c][j] else 0)
  {
    if n > 0 { ColSumThree(w, m, cols, j, n - 1, a, b, c); }
  }

  lemma PivotColSumTerm(sum: int, w: int, a: int, b: int, c: int)
    ensures w * (a - b * c) - sum * c == w * a - (sum + w * b) * c
  {
    assert w * (a - b * c) == w * a - w * (b * c);
    assert w * (b * c) == (w * b) * c;
    assert (sum + w * b) * c == sum * c + (w * b) * c;
  }

  /** Column sums of the pivoted matrix in terms of those of the original. */
  lemma {:induction false} PivotColSum(w: seq<int>, m: Mat, cols: nat, p: nat, q: nat, j: nat, n: nat)
    requires Rect(m, cols) && p < |m| && q < cols && j < cols && n <= |w| && n <= |m| && p < |w|
    requires m[p][q] == 1
    ensures ColSum(w, Pivot(m, cols, p, q), cols, j, n) ==
            ColSum(w, m, cols, j, n) - (ColSum(w, m, cols, q, n) - (if p < n then w[p] else 0)) * m[p][j]
  {
    if n > 0 {
      PivotColSum(w, m, cols, p, q, j, n - 1);
      var i := n - 1;
      var s := ColSum(w, m, cols, q, i) - (if p < i then w[p] else 0);
      if i != p {
        assert Pivot(m, cols, p, q)[i][j] == m[i][j] - m[i][q] * m[p][j];
        PivotColSumTerm(s, w[i], m[i][j], m[i][q], m[p][j]);
      }
    }
  }

  lemma {:induction false} ColSumUpdate(w: seq<int>, m: Mat, cols: nat, j: nat, n: nat, p: nat, t: int)
    requires Rect(m, cols) && j < cols && n <= |w| && n <= |m| && p < |w| && p < |m|
    ensures ColSum(w[p := t], m, cols, j, n) ==
            ColSum(w, m, cols, j, n) + (if p < n then (t - w[p]) * m[p][j] else 0)
  {
    if n > 0 { ColSumUpdate(w, m, cols, j, n - 1, p, t); }
  }

  /** Adding or dropping the pivot row from the signed set flips the parity of the pivot column. */
  lemma {:induction false} ParityFlips(w: seq<int>, v: seq<int>, rows: set<nat>, rows': set<nat>,
                                       m: Mat, cols: nat, p: nat, q: nat, n: nat)
    requires Rect(m, cols) && p < |m| && q < cols && n <= |m| && |w| == |m| == |v|
    requires m[p][q] == 1
    requires Signs(w, rows) && Signs(v, rows')
    requires forall i: nat :: i != p ==> (i in rows <==> i in rows')
    requires p in rows <==> p !in rows'
    ensures (ColSum(w, m, cols, q, n) - ColSum(v, m, cols, q, n)) % 2 == if p < n then 1 else 0
  {
    if n > 0 {
      ParityFlips(w, v, rows, rows', m, cols, p, q, n - 1);
      var i := n - 1;
      var d := ColSum(w, m, cols, q, i) - ColSum(v, m, cols, q, i);
      if i != p {
        var e := if w[i] == v[i] then 0 else w[i] * m[i][q];
        assert w[i] * m[i][q] - v[i] * m[i][q] == 2 * e;
        assert (d + 2 * e) % 2 == d % 2;
      } else {
        assert w[p] * m[p][q] == w[p] && v[p] * m[p][q] == v[p];
      }
    }
  }

  /** From a balanced signing whose pivot-column sum is t, replacing the pivot
      row's sign by t balances the pivoted matrix. */
  lemma PivotSigning(w: seq<int>, base: set<nat>, m: Mat, cols: nat, p: nat, q: nat, rows: set<nat>)
    requires Rect(m, cols) && p < |m| && q < cols && m[p][q] == 1
    requires BalancedSigning(w, m, cols, base)
    requires forall i: nat :: i != p ==> (i in base <==> i in rows)
    requires p in rows <==> ColSum(w, m, cols, q, |m|) != 0
    ensures BalancedSigning(w[p := ColSum(w, m, cols, q, |m|)], Pivot(m, cols, p, q), cols, rows)
  {
    var t := ColSum(w, m, cols, q, |m|);
    var v := w[p := t];
    var d := Pivot(m, cols, p, q);
    assert -1 <= t <= 1;
    forall j | 0 <= j < cols ensures -1 <= ColSum(v, d, cols, j, |d|) <= 1 {
      PivotColSum(v, m, cols, p, q, j, |m|);
      ColSumUpdate(w, m, cols, j, |m|, p, t);
      ColSumUpdate(w, m, cols, q, |m|, p, t);
      assert ColSum(v, m, cols, q, |m|) - v[p] == t - w[p];
      assert ColSum(v, d, cols, j, |d|) == ColSum(w, m, cols, j, |m|);
    }
  }

  /** Total unimodularity is inductive: a pivot keeps the signing property. */
  lemma PivotSignable(m: Mat, cols: nat, p: nat, q: nat)
    requires Rect(m, cols) && p < |m| && q < cols && m[p][q] == 1
    requires Signable(m, cols)
    ensures Signable(Pivot(m, cols, p, q), cols)
  {
    forall rows: set<nat>
      ensures HasSigning(Pivot(m, cols, p, q), cols, rows)
    {
      var flipped := if p in rows then rows - {p} else rows + {p};
      assert HasSigning(m, cols, rows);
      var w :| BalancedSigning(w, m, cols, rows);
      assert HasSigning(m, cols, flipped);
      var v :| BalancedSigning(v, m, cols, flipped);
      ParityFlips(w, v, rows, flipped, m, cols, p, q, |m|);
      var s, t := ColSum(w, m, cols, q, |m|), ColSum(v, m, cols, q, |m|);
      assert -1 <= s <= 1 && -1 <= t <= 1;
      if p in rows <==> s != 0 {
        PivotSigning(w, rows, m, cols, p, q, rows);
      } else {
        PivotSigning(v, flipped, m, cols, p, q, rows);
      }
    }
  }

  lemma {:induction false} NegateColSum(w: seq<int>, m: Mat, cols: nat, p: nat, j: nat, n: nat)
    requires Rect(m, cols) && p < |m| && j < cols && n <= |m| && |w| == |m|
    ensures ColSum(w[p := -w[p]], NegateRow(m, cols, p), cols, j, n) == ColSum(w, m, cols, j, n)
  {
    if n > 0 { NegateColSum(w, m, cols, p, j, n - 1); }
  }

  /** Negating a row keeps the signing property. */
  lemma NegateSignable(m: Mat, cols: nat, p: nat)
    requires Rect(m, cols) && p < |m|
    requires Signable(m, cols)
    ensures Signable(NegateRow(m, cols, p), cols)
  {
    forall rows: set<nat>
      ensures HasSigning(NegateRow(m, cols, p), cols, rows)
    {
      assert HasSigning(m, cols, rows);
      var w :| BalancedSigning(w, m, cols, rows);
      var v, d := w[p := -w[p]], NegateRow(m, cols, p);
      forall j | 0 <= j < cols ensures -1 <= ColSum(v, d, cols, j, |d|) <= 1 {
        NegateColSum(w, m, cols, p, j, |m|);
      }
      assert BalancedSigning(v, d, cols, rows);
    }
  }

  lemma {:induction false} PrefixColSum(w: seq<int>, v: seq<int>, m: Mat, p: Mat, cols: nat, j: nat, n: nat)
    requires Rect(m, cols) && Rect(p, cols) && j < cols && n <= |w| && n <= |v| && n <= |m| && n <= |p|
    requires forall i :: 0 <= i < n ==> m[i] == p[i] && w[i] == v[i]
    ensures ColSum(w, m, cols, j, n) == ColSum(v, p, cols, j, n)
  {
    if n > 0 { PrefixColSum(w, v, m, p, cols, j, n - 1); }
  }

  /** Dropping the last row keeps the signing property. */
  lemma DropRow(m: Mat, r: seq<int>, cols: nat)
    requires Rect(m, cols) && |r| == cols && Signable(m + [r], cols)
    ensures Signable(m, cols)
  {
    forall rows: set<nat> ensures HasSigning(m, cols, rows) {
      var inside := rows - {|m|};
      assert HasSigning(m + [r], cols, inside);
      var v :| BalancedSigning(v, m + [r], cols, inside);
      var w := v[..|m|];
      assert v[|m|] == 0;
      forall j | 0 <= j < cols ensures -1 <= ColSum(w, m, cols, j, |m|) <= 1 {
        PrefixColSum(w, v, m, m + [r], cols, j, |m|);
        assert -1 <= ColSum(v, m + [r], cols, j, |m| + 1) <= 1;
      }
      assert forall i :: 0 <= i < |w| ==> w[i] == v[i] && (i in rows <==> i in inside);
      assert BalancedSigning(w, m, cols, rows);
    }
  }

  lemma {:induction false} ColSumOne(w: seq<int>, m: Mat, cols: nat, r: nat, c: nat, n: nat)
    requires Rect(m, cols) && c < cols && n <= |m| && |w| == |m| && r < |m|
    requires Signs(w, {r})
    ensures ColSum(w, m, cols, c, n) == if r < n then w[r] * m[r][c] else 0
  {
    if n > 0 { ColSumOne(w, m, cols, r, c, n - 1); }
  }

  /** A signable matrix has entries in {-1, 0, 1} only: signing one row alone bounds it. */
  lemma SignableUnit(m: Mat, cols: nat)
    requires Rect(m, cols) && Signable(m, cols)
    ensures UnitEntries(m, cols)
  {
    forall r, c | 0 <= r < |m| && 0 <= c < cols ensures -1 <= m[r][c] <= 1 {
      assert HasSigning(m, cols, {r});
      var w :| BalancedSigning(w, m, cols, {r});
      ColSumOne(w, m, cols, r, c, |m|);
    }
  }
}
