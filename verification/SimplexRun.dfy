/** The abstract simplex run: what every pivot keeps, why a pivot row always
    exists, and what a tableau without a positive objective entry proves. */
module SimplexRun {
  import opened Matrix
  import opened LinearSystem

  /** Constraint rows with their values, and the objective row with its value;
      the objective entry of each column is kept in a row of its own. */
  datatype Tableau = Tableau(m: Mat, v: seq<int>, obj: seq<int>, objVal: int, basis: seq<nat>)

  /** The problem a run started from: maximise goal over the nonnegative solutions. */
  datatype Program = Program(m: Mat, v: seq<int>, goal: seq<int>)

  ghost predicate Shaped(t: Tableau, cols: nat) {
    Rect(t.m, cols) && |t.v| == |t.m| && |t.obj| == cols
  }

  ghost predicate ShapedProgram(lp: Program, cols: nat) {
    Rect(lp.m, cols) && |lp.v| == |lp.m| && |lp.goal| == cols
  }

  /** The objective row sits below the constraint rows, as one more row of the matrix. */
  function WithObjective(t: Tableau): Mat {
    t.m + [t.obj]
  }

  ghost predicate Equivalent(t: Tableau, lp: Program, cols: nat)
    requires Shaped(t, cols) && ShapedProgram(lp, cols)
  {
    && (forall x :: Solves(t.m, cols, t.v, x) <==> Solves(lp.m, cols, lp.v, x))
    && (forall x :: Solves(lp.m, cols, lp.v, x) ==>
          Dot(t.obj, x, cols) == t.objVal as real + Dot(lp.goal, x, cols))
  }

  /** What holds before and after every pivot of a run, whatever the objective row. */
  ghost predicate PlainInvariant(t: Tableau, lp: Program, cols: nat) {
    && Shaped(t, cols) && ShapedProgram(lp, cols)
    && Signable(t.m, cols)
    && (forall r :: 0 <= r < |t.v| ==> t.v[r] >= 0)
    && BasisForm(t.m, cols, t.obj, t.basis)
    && Equivalent(t, lp, cols)
  }

  /** The same when the objective row shares the signing property. */
  ghost predicate RunInvariant(t: Tableau, lp: Program, cols: nat) {
    PlainInvariant(t, lp, cols) && Signable(WithObjective(t), cols)
  }

  /** One pivot: constraint rows, values, objective row and basis. */
  function PivotTableau(t: Tableau, cols: nat, p: nat, q: nat): (u: Tableau)
    requires Shaped(t, cols) && p < |t.m| && q < cols && |t.basis| == |t.m|
    ensures Shaped(u, cols) && |u.m| == |t.m|
  {
    Tableau(Pivot(t.m, cols, p, q), PivotValues(t.m, cols, t.v, p, q),
            SubRow(t.obj, t.obj[q], t.m[p]), t.objVal - t.obj[q] * t.v[p], t.basis[p := q])
  }

  /** The row the ratio test picks: entry one and the least value among such rows. */
  ghost predicate IsPivotRow(t: Tableau, cols: nat, p: nat, q: nat)
    requires Shaped(t, cols) && q < cols
  {
    p < |t.m| && t.m[p][q] == 1 &&
    forall r :: 0 <= r < |t.m| && t.m[r][q] == 1 ==> t.v[p] <= t.v[r]
  }

  /** One pivot of a run: on an open column that improves, at the row of the ratio test. */
  ghost predicate Improves(t: Tableau, u: Tableau, cols: nat, open: seq<bool>) {
    && Shaped(t, cols) && |t.basis| == |t.m| && |open| == cols
    && exists p: nat, q: nat :: ImprovesAt(t, u, cols, open, p, q)
  }

  ghost predicate ImprovesAt(t: Tableau, u: Tableau, cols: nat, open: seq<bool>, p: nat, q: nat)
    requires Shaped(t, cols) && |t.basis| == |t.m| && |open| == cols
  {
    && q < cols && open[q] && t.obj[q] > 0
    && IsPivotRow(t, cols, p, q) && u == PivotTableau(t, cols, p, q)
  }

  /** A chain of exactly this many such pivots. */
  ghost predicate PivotsTo(t: Tableau, u: Tableau, cols: nat, open: seq<bool>, pivots: nat)
    decreases pivots
  {
    if pivots == 0 then u == t
    else exists s :: PivotsTo(t, s, cols, open, pivots - 1) && Improves(s, u, cols, open)
  }

  /** A chain within the fuel, of exactly that length when the run gave up. */
  ghost predicate RunMade(t: Tableau, u: Tableau, cols: nat, open: seq<bool>, fuel: nat, gaveUp: bool) {
    exists pivots: nat :: ChainOf(t, u, cols, open, fuel, gaveUp, pivots)
  }

  ghost predicate ChainOf(t: Tableau, u: Tableau, cols: nat, open: seq<bool>, fuel: nat, gaveUp: bool, pivots: nat) {
    pivots <= fuel && (gaveUp ==> pivots == fuel) && PivotsTo(t, u, cols, open, pivots)
  }

  lemma MadeRun(t: Tableau, u: Tableau, cols: nat, open: seq<bool>, fuel: nat, gaveUp: bool, pivots: nat)
    requires pivots <= fuel && (gaveUp ==> pivots == fuel) && PivotsTo(t, u, cols, open, pivots)
    ensures RunMade(t, u, cols, open, fuel, gaveUp)
  {
    assert ChainOf(t, u, cols, open, fuel, gaveUp, pivots);
  }

  lemma StepImproves(t: Tableau, u: Tableau, cols: nat, open: seq<bool>, p: nat, q: nat)
    requires Shaped(t, cols) && |t.basis| == |t.m| && |open| == cols
    requires ImprovesAt(t, u, cols, open, p, q)
    ensures Improves(t, u, cols, open)
  {
  }

  lemma NoPivots(t: Tableau, cols: nat, open: seq<bool>)
    ensures PivotsTo(t, t, cols, open, 0)
  {
  }

  lemma OnePivotMore(t: Tableau, s: Tableau, u: Tableau, cols: nat, open: seq<bool>, pivots: nat)
    requires PivotsTo(t, s, cols, open, pivots) && Improves(s, u, cols, open)
    ensures PivotsTo(t, u, cols, open, pivots + 1)
  {
  }

  lemma PivotWithObjective(t: Tableau, cols: nat, p: nat, q: nat)
    requires Shaped(t, cols) && p < |t.m| && q < cols && |t.basis| == |t.m|
    ensures WithObjective(PivotTableau(t, cols, p, q)) == Pivot(WithObjective(t), cols, p, q)
  {
  }

  lemma EntriesUnit(t: Tableau, lp: Program, cols: nat)
    requires RunInvariant(t, lp, cols)
    ensures UnitEntries(t.m, cols) && (forall c :: 0 <= c < cols ==> -1 <= t.obj[c] <= 1)
  {
    var e := WithObjective(t);
    SignableUnit(e, cols);
    forall r, c | 0 <= r < |t.m| && 0 <= c < cols ensures -1 <= t.m[r][c] <= 1 {
      assert e[r][c] == t.m[r][c];
    }
    forall c | 0 <= c < cols ensures -1 <= t.obj[c] <= 1 {
      assert e[|t.m|][c] == t.obj[c];
    }
  }

  lemma PivotBasis(t: Tableau, cols: nat, p: nat, q: nat)
    requires Shaped(t, cols) && BasisForm(t.m, cols, t.obj, t.basis)
    requires p < |t.m| && q < cols && t.m[p][q] == 1
    ensures var u := PivotTableau(t, cols, p, q); BasisForm(u.m, cols, u.obj, u.basis)
  {
    var u := PivotTableau(t, cols, p, q);
    forall r, s | 0 <= r < |u.m| && 0 <= s < |u.m|
      ensures u.m[r][u.basis[s]] == if r == s then 1 else 0
    {
      var c := u.basis[s];
      if r != p {
        assert u.m[r][c] == t.m[r][c] - t.m[r][q] * t.m[p][c];
      }
    }
    forall s | 0 <= s < |u.m| ensures u.basis[s] < cols && u.obj[u.basis[s]] == 0 {
      var c := u.basis[s];
      assert u.obj[c] == t.obj[c] - t.obj[q] * t.m[p][c];
    }
  }

  lemma PivotEquivalent(t: Tableau, lp: Program, cols: nat, p: nat, q: nat)
    requires Shaped(t, cols) && ShapedProgram(lp, cols) && Equivalent(t, lp, cols)
    requires p < |t.m| && q < cols && t.m[p][q] == 1 && |t.basis| == |t.m|
    ensures Equivalent(PivotTableau(t, cols, p, q), lp, cols)
  {
    var u := PivotTableau(t, cols, p, q);
    forall x ensures Solves(u.m, cols, u.v, x) <==> Solves(lp.m, cols, lp.v, x) {
      if |x| == cols { PivotSolves(t.m, cols, t.v, p, q, x); }
    }
    forall x | Solves(lp.m, cols, lp.v, x)
      ensures Dot(u.obj, x, cols) == u.objVal as real + Dot(lp.goal, x, cols)
    {
      assert Solves(t.m, cols, t.v, x);
      DotSubRow(t.obj, t.obj[q], t.m[p], x, cols);
      assert (t.obj[q] * t.v[p]) as real == t.obj[q] as real * t.v[p] as real;
    }
  }

  /** A pivot on a ratio-test row keeps everything: signability, nonnegative values, the
      basis, and the problem being solved. */
  lemma PlainKeeps(t: Tableau, lp: Program, cols: nat, p: nat, q: nat)
    requires PlainInvariant(t, lp, cols) && q < cols && IsPivotRow(t, cols, p, q)
    ensures PlainInvariant(PivotTableau(t, cols, p, q), lp, cols)
  {
    var u := PivotTableau(t, cols, p, q);
    SignableUnit(t.m, cols);
    PivotSignable(t.m, cols, p, q);
    PivotBasis(t, cols, p, q);
    PivotEquivalent(t, lp, cols, p, q);
    forall r | 0 <= r < |u.v| ensures u.v[r] >= 0 {
      assert -1 <= t.m[r][q] <= 1;
      assert t.m[r][q] == 1 || t.m[r][q] * t.v[p] <= 0;
    }
  }

  /** So does it for the objective row, hence unit entries there too. */
  lemma PivotKeeps(t: Tableau, lp: Program, cols: nat, p: nat, q: nat)
    requires RunInvariant(t, lp, cols) && q < cols && IsPivotRow(t, cols, p, q)
    ensures RunInvariant(PivotTableau(t, cols, p, q), lp, cols)
  {
    hide PlainInvariant;
    PlainKeeps(t, lp, cols, p, q);
    PlainShape(t, lp, cols);
    PivotWithObjective(t, cols, p, q);
    assert WithObjective(t)[p][q] == 1;
    PivotSignable(WithObjective(t), cols, p, q);
  }

  lemma PlainShape(t: Tableau, lp: Program, cols: nat)
    requires PlainInvariant(t, lp, cols)
    ensures Shaped(t, cols) && |t.basis| == |t.m|
  {
  }

  lemma {:induction false} DotNonpositive(a: seq<int>, x: seq<real>, n: nat)
    requires n <= |a| && n <= |x|
    requires forall i :: 0 <= i < n ==> a[i] <= 0 || x[i] == 0.0
    requires forall i :: 0 <= i < n ==> x[i] >= 0.0
    ensures Dot(a, x, n) <= 0.0
  {
    if n > 0 {
      DotNonpositive(a, x, n - 1);
      assert a[n-1] as real * x[n-1] <= 0.0;
    }
  }

  ghost predicate Nonnegative(x: seq<real>) {
    forall j :: 0 <= j < |x| ==> x[j] >= 0.0
  }

  ghost function Basic(t: Tableau, cols: nat): (x: seq<real>)
    requires Shaped(t, cols) && |t.basis| == |t.m|
    ensures |x| == cols
  {
    Edge(t.m, cols, t.v, t.basis, cols, 0)
  }

  /** The basic solution is nonnegative, solves the problem and has goal value -objVal. */
  lemma BasicSolves(t: Tableau, lp: Program, cols: nat)
    requires PlainInvariant(t, lp, cols)
    ensures var x := Basic(t, cols);
      Nonnegative(x) && Solves(lp.m, cols, lp.v, x) && Dot(lp.goal, x, cols) == -(t.objVal as real)
  {
    EdgeSolves(t.m, cols, t.v, t.obj, t.basis, cols, 0);
    var x := Basic(t, cols);
    assert Solves(t.m, cols, t.v, x);
    forall j | 0 <= j < cols ensures x[j] >= 0.0 {
      assert EdgeAt(t.m, cols, t.v, t.basis, cols, 0, j) >= 0;
    }
  }

  /** No nonnegative solution has a goal value above the bound. */
  ghost predicate BoundedBy(lp: Program, cols: nat, bound: int)
    requires ShapedProgram(lp, cols)
  {
    forall x :: Solves(lp.m, cols, lp.v, x) && Nonnegative(x) ==> Dot(lp.goal, x, cols) <= bound as real
  }

  lemma NonpositiveBounded(lp: Program, cols: nat)
    requires ShapedProgram(lp, cols) && forall j :: 0 <= j < cols ==> lp.goal[j] <= 0
    ensures BoundedBy(lp, cols, 0)
  {
    forall x | Solves(lp.m, cols, lp.v, x) && Nonnegative(x) ensures Dot(lp.goal, x, cols) <= 0.0 {
      DotNonpositive(lp.goal, x, cols);
    }
  }

  /** When the goal is bounded, an improving column always has a pivot row. */
  lemma PivotRowExists(t: Tableau, lp: Program, cols: nat, bound: nat, q: nat)
    requires PlainInvariant(t, lp, cols) && q < cols && t.obj[q] > 0
    requires BoundedBy(lp, cols, bound)
    ensures exists r :: 0 <= r < |t.m| && t.m[r][q] == 1
  {
    if forall r :: 0 <= r < |t.m| ==> t.m[r][q] != 1 {
      var d := if t.objVal + bound < 0 then 0 else t.objVal + bound + 1;
      assert !IsBasic(t.basis, q);
      EdgeSolves(t.m, cols, t.v, t.obj, t.basis, q, d);
      var x := Edge(t.m, cols, t.v, t.basis, q, d);
      assert Solves(t.m, cols, t.v, x);
      EdgeNonnegative(t, lp, cols, q, d);
      GrowsBeyond(t.obj[q], d, t.objVal, bound);
    }
  }

  /** An edge along which nothing decreases stays nonnegative. */
  lemma EdgeNonnegative(t: Tableau, lp: Program, cols: nat, q: nat, d: nat)
    requires PlainInvariant(t, lp, cols) && q < cols && !IsBasic(t.basis, q)
    requires forall r :: 0 <= r < |t.m| ==> t.m[r][q] != 1
    ensures Nonnegative(Edge(t.m, cols, t.v, t.basis, q, d))
  {
    hide Equivalent, Signable;
    SignableUnit(t.m, cols);
    var x := Edge(t.m, cols, t.v, t.basis, q, d);
    forall j | 0 <= j < cols ensures x[j] >= 0.0 {
      if j != q && IsBasic(t.basis, j) {
        var r :| 0 <= r < |t.basis| && t.basis[r] == j;
        EdgeAtBasis(t.m, cols, t.v, t.obj, t.basis, q, d, r);
        assert t.m[r][q] <= 0;
        assert t.m[r][q] * d <= 0;
      }
    }
  }

  lemma GrowsBeyond(slope: int, d: nat, objVal: int, bound: nat)
    requires slope > 0 && d > objVal + bound
    ensures slope * d - objVal > bound
  {
    assert slope * d >= d;
  }

  // ---- the size of the objective entries ----

  /** What the first n rows take off the goal of a column: their entries there, weighted by the
      goals of their basic columns. */
  ghost function Carried(goal: seq<int>, basis: seq<nat>, m: Mat, j: nat, n: nat): int
    requires n <= |m| && n <= |basis| && forall i :: 0 <= i < n ==> basis[i] < |goal| && j < |m[i]|
  {
    if n == 0 then 0 else Carried(goal, basis, m, j, n - 1) + Weighted(goal[basis[n - 1]], m[n - 1][j])
  }

  function Weighted(goal: int, entry: int): int { goal * entry }

  /** Every objective entry is the goal of its column less what the basis carries of it. */
  ghost predicate Reduced(t: Tableau, goal: seq<int>, cols: nat) {
    && Shaped(t, cols) && |goal| == cols && |t.basis| == |t.m|
    && (forall i :: 0 <= i < |t.basis| ==> t.basis[i] < cols)
    && forall j :: 0 <= j < cols ==> t.obj[j] == goal[j] - Carried(goal, t.basis, t.m, j, |t.m|)
  }

  /** A sum after the pivot: c and d are the sums of the column and of the pivot column before
      it, b the entry of the pivot row, and h the goal of the new basic column. */
  function Shifted(c: int, d: int, b: int, h: int, past: bool): int {
    c - b * d + (if past then b * h else 0)
  }

  /** One more term, of a row that is eliminated: a and k are its entries. */
  lemma OtherTerm(c: int, d: int, b: int, h: int, past: bool, g: int, a: int, k: int)
    ensures Shifted(c, d, b, h, past) + Weighted(g, Eliminated(a, k, b)) ==
      Shifted(c + Weighted(g, a), d + Weighted(g, k), b, h, past)
  {
    assert g * (a - k * b) == g * a - b * (g * k);
  }

  /** The term of the pivot row. */
  lemma PivotTerm(c: int, d: int, b: int, h: int, g: int)
    ensures Shifted(c, d, b, h, false) + Weighted(h, b) == Shifted(c + Weighted(g, b), d + Weighted(g, 1), b, h, true)
  {
  }

  lemma {:induction false} CarriedPivot(goal: seq<int>, basis: seq<nat>, m: Mat, cols: nat, p: nat, q: nat, j: nat,
                                        n: nat)
    requires Rect(m, cols) && |basis| == |m| && |goal| == cols && p < |m| && q < cols && j < cols && n <= |m|
    requires m[p][q] == 1 && forall i :: 0 <= i < |basis| ==> basis[i] < cols
    ensures Carried(goal, basis[p := q], Pivot(m, cols, p, q), j, n) ==
      Shifted(Carried(goal, basis, m, j, n), Carried(goal, basis, m, q, n), m[p][j], goal[q], p < n)
  {
    hide Shifted, Weighted, Pivot, SubRow, Eliminated;
    if n == 0 {
      NothingShifted(m[p][j], goal[q]);
    } else {
      var i := n - 1;
      var c, d := Carried(goal, basis, m, j, i), Carried(goal, basis, m, q, i);
      CarriedPivot(goal, basis, m, cols, p, q, j, i);
      PivotEntryAt(m, cols, p, q, i, j);
      if i == p {
        PivotTerm(c, d, m[p][j], goal[q], goal[basis[i]]);
      } else {
        OtherTerm(c, d, m[p][j], goal[q], p < i, goal[basis[i]], m[i][j], m[i][q]);
      }
    }
  }

  lemma NothingShifted(b: int, h: int)
    ensures Shifted(0, 0, b, h, false) == 0
  {
  }

  function Eliminated(a: int, k: int, b: int): int { a - k * b }

  lemma PivotEntryAt(m: Mat, cols: nat, p: nat, q: nat, i: nat, j: nat)
    requires Rect(m, cols) && p < |m| && q < cols && i < |m| && j < cols
    ensures Pivot(m, cols, p, q)[i][j] == if i == p then m[p][j] else Eliminated(m[i][j], m[i][q], m[p][j])
  {
  }

  /** A pivot keeps this, whatever the values are. */
  lemma PivotReduced(t: Tableau, goal: seq<int>, cols: nat, p: nat, q: nat)
    requires Reduced(t, goal, cols) && p < |t.m| && q < cols && t.m[p][q] == 1
    ensures Reduced(PivotTableau(t, cols, p, q), goal, cols)
  {
    var u := PivotTableau(t, cols, p, q);
    forall j | 0 <= j < cols ensures u.obj[j] == goal[j] - Carried(goal, u.basis, u.m, j, |u.m|) {
      CarriedPivot(goal, t.basis, t.m, cols, p, q, j, |t.m|);
      assert u.obj[j] == t.obj[j] - t.obj[q] * t.m[p][j];
      assert t.m[p][j] * (goal[q] - t.obj[q]) == t.m[p][j] * goal[q] - t.m[p][j] * t.obj[q];
    }
  }

  lemma {:induction false} CarriedWithin(goal: seq<int>, basis: seq<nat>, m: Mat, cols: nat, j: nat, n: nat)
    requires Rect(m, cols) && UnitEntries(m, cols) && n <= |m| && n <= |basis| && |goal| == cols && j < cols
    requires forall i :: 0 <= i < n ==> basis[i] < cols
    requires forall c :: 0 <= c < cols ==> 0 <= goal[c] <= 1
    ensures 0 <= Carried(goal, basis, m, j, n) + n <= 2 * n
  {
    if n > 0 {
      CarriedWithin(goal, basis, m, cols, j, n - 1);
      assert goal[basis[n - 1]] == 0 || goal[basis[n - 1]] == 1;
    }
  }

  /** With goals of zero and one, no objective entry is larger than one more than the number of
      rows. */
  lemma ObjectiveWithin(t: Tableau, goal: seq<int>, cols: nat)
    requires Reduced(t, goal, cols) && UnitEntries(t.m, cols)
    requires forall c :: 0 <= c < cols ==> 0 <= goal[c] <= 1
    ensures forall j :: 0 <= j < cols ==> -|t.m| <= t.obj[j] <= |t.m| + 1
  {
    forall j | 0 <= j < cols ensures -|t.m| <= t.obj[j] <= |t.m| + 1 {
      CarriedWithin(goal, t.basis, t.m, cols, j, |t.m|);
    }
  }

  // ---- the end of a run ----

  /** With no positive objective entry among the open columns, no solution that is
      zero on the closed columns does better than the basic one. */
  lemma Optimal(t: Tableau, lp: Program, cols: nat, open: seq<bool>, x: seq<real>)
    requires PlainInvariant(t, lp, cols) && |open| == cols
    requires forall j :: 0 <= j < cols && open[j] ==> t.obj[j] <= 0
    requires Solves(lp.m, cols, lp.v, x) && Nonnegative(x)
    requires forall j :: 0 <= j < cols && !open[j] ==> x[j] == 0.0
    ensures Dot(lp.goal, x, cols) <= -(t.objVal as real)
  {
    DotNonpositive(t.obj, x, cols);
  }
}
