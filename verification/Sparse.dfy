/** The sparse tableau: rows and columns as sorted lists, in one allocator, of the positions
    holding a plus and a minus, with one negation flag per row read by both copies. */
module Sparse {
  import opened Matrix
  import opened LinearSystem
  import opened Wrappers
  import opened ForwardLists
  import opened SignedLists

  datatype SignedRow = SignedRow(lists: Lists, value: int)

  // ---- the tableau ----

  ghost predicate InStep(rows: seq<SignedRow>, cols: seq<Lists>) {
    && (forall r :: 0 <= r < |rows| ==> ListsOk(rows[r].lists, |cols|))
    && (forall c :: 0 <= c < |cols| ==> ListsOk(cols[c], |rows|))
    && (forall r, c :: 0 <= r < |rows| && 0 <= c < |cols| ==> Raw(rows[r].lists, c) == Raw(cols[c], r))
  }

  /** The matrix the row lists denote under the negation flags. */
  function DenseOf(rows: seq<SignedRow>, negations: seq<bool>, width: nat): (m: Mat)
    requires |negations| == |rows|
    ensures |m| == |rows| && Rect(m, width)
  {
    seq(|rows|, r requires 0 <= r < |rows| =>
      seq(width, c requires 0 <= c => Signed(rows[r].lists, negations[r], c)))
  }

  function ValuesOf(rows: seq<SignedRow>, negations: seq<bool>): (v: seq<int>)
    requires |negations| == |rows|
    ensures |v| == |rows|
  {
    seq(|rows|, r requires 0 <= r < |rows| => Sgn(negations[r]) * rows[r].value)
  }

  /** now is was with the pivot row p added, under the flags, to every touched row
      in all columns below b. */
  ghost predicate RowsAdded(was: seq<SignedRow>, now: seq<SignedRow>, flags: seq<bool>, touched: seq<nat>,
                            p: nat, b: nat)
    requires |was| == |now| == |flags| && p < |was|
  {
    forall r, c: nat {:trigger Raw(now[r].lists, c)} :: 0 <= r < |was| ==>
      Raw(now[r].lists, c) == Raw(was[r].lists, c) +
        (if r in touched && c < b then Sgn(flags[r]) * Signed(was[p].lists, flags[p], c) else 0)
  }

  /** The pivoted matrix has entries in {-1, 0, 1} only. */
  ghost predicate PivotUnit(m: Mat, cols: nat, p: nat, q: nat)
    requires Rect(m, cols) && p < |m| && q < cols
  {
    UnitEntries(Pivot(m, cols, p, q), cols)
  }

  lemma SameMatrix(a: Mat, b: Mat, cols: nat)
    requires |a| == |b| && Rect(a, cols) && Rect(b, cols)
    requires forall r, c :: 0 <= r < |a| && 0 <= c < cols ==> a[r][c] == b[r][c]
    ensures a == b
  {
    forall r | 0 <= r < |a| ensures a[r] == b[r] {
    }
  }

  lemma InStepUpdate(rows: seq<SignedRow>, cols: seq<Lists>, r: nat, c: nat, row: Lists, col: Lists, d: int)
    requires InStep(rows, cols) && r < |rows| && c < |cols|
    requires ListsOk(row, |cols|) && ListsOk(col, |rows|)
    requires AddedAt(rows[r].lists, row, c, d) && AddedAt(cols[c], col, r, d)
    ensures InStep(rows[r := rows[r].(lists := row)], cols[c := col])
  {
  }

  lemma InStepMeans(rows: seq<SignedRow>, cols: seq<Lists>, r: nat, c: nat)
    requires InStep(rows, cols) && r < |rows| && c < |cols|
    ensures ListsOk(rows[r].lists, |cols|) && ListsOk(cols[c], |rows|) && Raw(rows[r].lists, c) == Raw(cols[c], r)
  {
  }

  /** One entry of the denoted matrix is set. */
  lemma EntrySet(was: seq<SignedRow>, now: seq<SignedRow>, flags: seq<bool>, width: nat, r: nat, c: nat, value: int)
    requires |was| == |now| == |flags| && r < |was| && c < width && (value == 1 || value == -1)
    requires now == was[r := was[r].(lists := now[r].lists)] && Raw(was[r].lists, c) == 0
    requires AddedAt(was[r].lists, now[r].lists, c, Sgn(flags[r] == (value > 0)))
    ensures DenseOf(now, flags, width) == DenseOf(was, flags, width)[r := DenseOf(was, flags, width)[r][c := value]]
    ensures ValuesOf(now, flags) == ValuesOf(was, flags)
  {
    var m := DenseOf(was, flags, width);
    SameMatrix(DenseOf(now, flags, width), m[r := m[r][c := value]], width);
  }

  lemma FreshCursor(l: Lists, x: nat)
    ensures CursorOk(l, Cursor(0, 0), x)
  {
  }

  /** Every touched row's iterator has passed only columns below x. */
  ghost predicate CursorsOk(rows: seq<SignedRow>, touched: seq<nat>, cursors: seq<Cursor>, x: nat) {
    |cursors| == |touched| && forall k :: 0 <= k < |touched| ==>
      touched[k] < |rows| && CursorOk(rows[touched[k]].lists, cursors[k], x)
  }

  /** An iterator over every touched row. */
  ghost predicate RowsAt(nodes: map<Pointer, seq<Pointer>>, rowLists: seq<Pair>, touched: seq<nat>,
                         its: seq<PairIter>, cursors: seq<Cursor>)
  {
    |its| == |touched| == |cursors| && forall k :: 0 <= k < |touched| ==>
      touched[k] < |rowLists| && PairAt(nodes, rowLists[touched[k]], its[k], cursors[k])
  }

  lemma RowsAtLength(nodes: map<Pointer, seq<Pointer>>, rowLists: seq<Pair>, touched: seq<nat>,
                     its: seq<PairIter>, cursors: seq<Cursor>)
    requires RowsAt(nodes, rowLists, touched, its, cursors)
    ensures |its| == |touched| == |cursors|
  {
  }

  lemma RowAtOne(nodes: map<Pointer, seq<Pointer>>, rowLists: seq<Pair>, touched: seq<nat>,
                 its: seq<PairIter>, cursors: seq<Cursor>, k: nat)
    requires RowsAt(nodes, rowLists, touched, its, cursors) && k < |touched|
    ensures |its| == |touched| == |cursors| && touched[k] < |rowLists|
    ensures PairAt(nodes, rowLists[touched[k]], its[k], cursors[k])
  {
  }

  /** Editing one touched row at a column moves no other row's iterator. */
  lemma RowsAtStep(was: map<Pointer, seq<Pointer>>, now: map<Pointer, seq<Pointer>>, rowLists: seq<Pair>, col: Pair,
                   touched: seq<nat>, its: seq<PairIter>, cursors: seq<Cursor>, k: nat, it: PairIter, cur: Cursor)
    requires RowsAt(was, rowLists, touched, its, cursors) && k < |touched| && Increasing(touched)
    requires touched[k] < |rowLists| && BothNodes(was, now, rowLists[touched[k]], col)
    requires forall r, s :: 0 <= r < |rowLists| && 0 <= s < |rowLists| && r != s ==> Apart(rowLists[r], rowLists[s])
    requires forall r :: 0 <= r < |rowLists| ==>
      Apart(col, rowLists[r]) && rowLists[r].pos in was && rowLists[r].neg in was
    requires PairAt(now, rowLists[touched[k]], it, cur)
    ensures |its| == |touched| == |cursors| && RowsAt(now, rowLists, touched, its[k := it], cursors[k := cur])
  {
    hide PairAt, BothNodes, Apart, NodesKept;
    forall i | 0 <= i < |touched| && i != k ensures PairAt(now, rowLists[touched[i]], its[i], cursors[i]) {
      AtBoth(was, now, rowLists[touched[k]], col, rowLists[touched[i]]);
      AtKept(was, now, rowLists[touched[i]], its[i], cursors[i]);
    }
  }

  /** The nodes of rows that are not touched are as they were. */
  ghost predicate OthersStay(was: map<Pointer, seq<Pointer>>, now: map<Pointer, seq<Pointer>>, rowLists: seq<Pair>,
                             touched: seq<nat>)
  {
    forall r :: 0 <= r < |rowLists| && r !in touched ==> NodesKept(was, now, rowLists[r])
  }

  lemma NobodyMoves(nodes: map<Pointer, seq<Pointer>>, rowLists: seq<Pair>, touched: seq<nat>)
    requires forall r :: 0 <= r < |rowLists| ==> rowLists[r].pos in nodes && rowLists[r].neg in nodes
    ensures OthersStay(nodes, nodes, rowLists, touched)
  {
  }

  lemma OthersStayStep(was: map<Pointer, seq<Pointer>>, mid: map<Pointer, seq<Pointer>>,
                       now: map<Pointer, seq<Pointer>>, rowLists: seq<Pair>, col: Pair, touched: seq<nat>, k: nat)
    requires OthersStay(was, mid, rowLists, touched) && k < |touched| && touched[k] < |rowLists|
    requires BothNodes(mid, now, rowLists[touched[k]], col)
    requires forall r, s :: 0 <= r < |rowLists| && 0 <= s < |rowLists| && r != s ==> Apart(rowLists[r], rowLists[s])
    requires forall r :: 0 <= r < |rowLists| ==>
      Apart(col, rowLists[r]) && rowLists[r].pos in mid && rowLists[r].neg in mid
    ensures OthersStay(was, now, rowLists, touched)
  {
    hide BothNodes, Apart;
    forall r | 0 <= r < |rowLists| && r !in touched ensures NodesKept(was, now, rowLists[r]) {
      AtBoth(mid, now, rowLists[touched[k]], col, rowLists[r]);
    }
  }

  lemma StaysAt(was: map<Pointer, seq<Pointer>>, now: map<Pointer, seq<Pointer>>, rowLists: seq<Pair>,
                touched: seq<nat>, p: nat, it: PairIter, cur: Cursor)
    requires OthersStay(was, now, rowLists, touched) && p < |rowLists| && p !in touched
    requires PairAt(was, rowLists[p], it, cur)
    ensures PairAt(now, rowLists[p], it, cur)
  {
    AtKept(was, now, rowLists[p], it, cur);
  }

  lemma UntouchedRow(was: seq<SignedRow>, now: seq<SignedRow>, flags: seq<bool>, touched: seq<nat>, c: nat,
                     coeff: int, p: nat)
    requires |was| == |now| == |flags| && ColumnAdded(was, now, flags, touched, c, coeff) && p < |was| && p !in touched
    ensures now[p] == was[p]
  {
  }

  lemma SingleInStep(rows: seq<SignedRow>, cols: seq<Lists>, flags: seq<bool>, c: nat, r: nat, col: Lists)
    requires InStep(rows, cols) && |flags| == |rows| && r < |rows| && c < |cols|
    requires forall s :: 0 <= s < |rows| ==> Signed(rows[s].lists, flags[s], c) == if s == r then 1 else 0
    requires col == if flags[r] then Lists([], [r]) else Lists([r], [])
    ensures InStep(rows, cols[c := col])
  {
    forall s: nat | s < |rows| ensures Raw(col, s) == Raw(rows[s].lists, c) {
    }
  }

  lemma FreshCursors(rows: seq<SignedRow>, touched: seq<nat>, cursors: seq<Cursor>)
    requires |cursors| == |touched|
    requires forall k :: 0 <= k < |touched| ==> touched[k] < |rows| && cursors[k] == Cursor(0, 0)
    ensures CursorsOk(rows, touched, cursors, 0)
  {
  }

  lemma CursorsAdvance(rows: seq<SignedRow>, touched: seq<nat>, cursors: seq<Cursor>, x: nat, y: nat)
    requires CursorsOk(rows, touched, cursors, x) && x <= y
    ensures CursorsOk(rows, touched, cursors, y)
  {
  }

  lemma NothingAdded(rows: seq<SignedRow>, flags: seq<bool>, touched: seq<nat>, p: nat)
    requires |rows| == |flags| && p < |rows|
    ensures RowsAdded(rows, rows, flags, touched, p, 0)
  {
  }

  lemma ColumnAddedValues(was: seq<SignedRow>, now: seq<SignedRow>, flags: seq<bool>, touched: seq<nat>, c: nat,
                          coeff: int)
    requires |was| == |now| == |flags| && ColumnAdded(was, now, flags, touched, c, coeff)
    ensures forall r :: 0 <= r < |was| ==> now[r].value == was[r].value
  {
  }

  lemma CursorAdvance(l: Lists, cur: Cursor, x: nat, y: nat)
    requires CursorOk(l, cur, x) && x <= y
    ensures CursorOk(l, cur, y)
  {
  }

  /** now is was with a signed coefficient added in column c to the rows listed. */
  ghost predicate ColumnAdded(was: seq<SignedRow>, now: seq<SignedRow>, flags: seq<bool>, touched: seq<nat>,
                              c: nat, coeff: int)
    requires |was| == |now| == |flags|
  {
    forall r :: 0 <= r < |was| ==>
      if r in touched then
        now[r].value == was[r].value && AddedAt(was[r].lists, now[r].lists, c, Sgn(flags[r]) * coeff)
      else now[r] == was[r]
  }

  /** The pivot column walked below row b: the rows touched so far, those negated for
      it, and the flags, which give every touched row a signed minus one. */
  ghost predicate Walked(col: Lists, was: seq<bool>, p: nat, b: nat, touched: seq<nat>, flipped: seq<nat>,
                         now: seq<bool>) {
    && |now| == |was| && Increasing(touched) && Distinct(flipped)
    && (forall x: nat :: x in touched <==> x != p && x < b && Raw(col, x) != 0)
    && (forall x: nat :: x < |was| ==> now[x] == if x in touched then Raw(col, x) == 1 else was[x])
    && (forall x: nat :: x in flipped <==> x < |was| && x in touched && now[x] != was[x])
  }

  /** Record one row of the pivot column. */
  method Touch(ghost col: Lists, p: nat, row: nat, plus: bool, touched: seq<nat>, flipped: seq<nat>, now: seq<bool>,
               ghost was: seq<bool>, ghost b: nat)
    returns (touched': seq<nat>, flipped': seq<nat>, now': seq<bool>)
    requires Walked(col, was, p, b, touched, flipped, now)
    requires b <= row < |was| && Raw(col, row) == Sgn(!plus)
    requires forall x: nat :: b <= x < row ==> Raw(col, x) == 0
    ensures Walked(col, was, p, row + 1, touched', flipped', now')
  {
    touched', flipped', now' := touched, flipped, now;
    if row != p {
      assert row !in touched && row !in flipped;
      if now[row] != plus {
        now' := now[row := !now[row]];
        flipped' := flipped + [row];
      }
      AppendIncreasing(touched, row);
      touched' := touched + [row];
    }
  }

  lemma StartWalk(col: Lists, was: seq<bool>, p: nat)
    ensures Walked(col, was, p, 0, [], [], was)
  {
  }

  lemma WalkLength(col: Lists, was: seq<bool>, p: nat, b: nat, touched: seq<nat>, flipped: seq<nat>, now: seq<bool>)
    requires Walked(col, was, p, b, touched, flipped, now)
    ensures |now| == |was|
  {
  }

  lemma EndWalk(col: Lists, was: seq<bool>, p: nat, b: nat, touched: seq<nat>, flipped: seq<nat>, now: seq<bool>)
    requires ListsOk(col, |was|) && b <= |was|
    requires Before(col.pos, |col.pos|, b) && Before(col.neg, |col.neg|, b)
    requires Walked(col, was, p, b, touched, flipped, now)
    ensures Walked(col, was, p, |was|, touched, flipped, now)
  {
    forall x: nat | x >= b ensures Raw(col, x) == 0 {
      assert forall k :: 0 <= k < |col.pos| ==> col.pos[k] < b;
      assert forall k :: 0 <= k < |col.neg| ==> col.neg[k] < b;
    }
  }

  /** Between the walked part of two lists and the next element there is nothing, and
      that element is in one list only. */
  lemma NextIsClear(l: Lists, i: nat, j: nat, plus: bool, b: nat, x: nat, bound: nat)
    requires ListsOk(l, bound) && i <= |l.pos| && j <= |l.neg|
    requires if plus then i > 0 && l.pos[i - 1] == x else j > 0 && l.neg[j - 1] == x
    requires Before(l.pos, if plus then i - 1 else i, b) && Before(l.neg, if plus then j else j - 1, b)
    requires if plus then j < |l.neg| ==> x <= l.neg[j] else i < |l.pos| ==> x <= l.pos[i]
    ensures forall y: nat :: b <= y < x ==> Raw(l, y) == 0
    ensures Raw(l, x) == Sgn(!plus) && x < bound
    ensures (i < |l.pos| ==> x < l.pos[i]) && (j < |l.neg| ==> x < l.neg[j])
  {
    NoneBetween(l.pos, if plus then i - 1 else i, b, x);
    NoneBetween(l.neg, if plus then j else j - 1, b, x);
    assert x in if plus then l.pos else l.neg;
    assert i < |l.pos| ==> l.pos[i] in l.pos;
    assert j < |l.neg| ==> l.neg[j] in l.neg;
  }

  // ---- the lists of the tableau in their store ----

  /** Every row and every column has a pair of lists of its own, holding what it holds. */
  ghost predicate Stored(contents: map<Pointer, seq<nat>>, rowLists: seq<Pair>, colLists: seq<Pair>,
                         rows: seq<SignedRow>, cols: seq<Lists>)
  {
    && |rowLists| == |rows| && |colLists| == |cols|
    && (forall r :: 0 <= r < |rows| ==> Holds(contents, rowLists[r], rows[r].lists))
    && (forall c :: 0 <= c < |cols| ==> Holds(contents, colLists[c], cols[c]))
    && (forall r, s :: 0 <= r < |rows| && 0 <= s < |rows| && r != s ==> Apart(rowLists[r], rowLists[s]))
    && (forall c, d :: 0 <= c < |cols| && 0 <= d < |cols| && c != d ==> Apart(colLists[c], colLists[d]))
    && (forall r, c :: 0 <= r < |rows| && 0 <= c < |cols| ==> Apart(rowLists[r], colLists[c]))
  }

  /** Values play no part in the lists. */
  lemma ListsKept(was: seq<SignedRow>, now: seq<SignedRow>, cols: seq<Lists>, contents: map<Pointer, seq<nat>>,
                  rowLists: seq<Pair>, colLists: seq<Pair>)
    requires |was| == |now| && forall r :: 0 <= r < |was| ==> now[r].lists == was[r].lists
    requires InStep(was, cols) && Stored(contents, rowLists, colLists, was, cols)
    ensures InStep(now, cols) && Stored(contents, rowLists, colLists, now, cols)
  {
    hide Holds, Apart, ListsOk, SignedLists.Raw;
  }

  lemma StoredRow(contents: map<Pointer, seq<nat>>, rowLists: seq<Pair>, colLists: seq<Pair>,
                  rows: seq<SignedRow>, cols: seq<Lists>, r: nat, l: Lists)
    requires Stored(contents, rowLists, colLists, rows, cols) && r < |rows|
    ensures |rowLists| == |rows| && Holds(contents, rowLists[r], rows[r].lists)
    ensures Stored(Held(contents, rowLists[r], l), rowLists, colLists, rows[r := rows[r].(lists := l)], cols)
  {
    hide Holds, Held, Apart;
    forall s | 0 <= s < |rows| && s != r ensures Holds(Held(contents, rowLists[r], l), rowLists[s], rows[s].lists) {
      HeldFacts(contents, rowLists[r], rows[r].lists, l, rowLists[s], rows[s].lists);
    }
    forall c | 0 <= c < |cols| ensures Holds(Held(contents, rowLists[r], l), colLists[c], cols[c]) {
      HeldFacts(contents, rowLists[r], rows[r].lists, l, colLists[c], cols[c]);
    }
    HeldSelf(contents, rowLists[r], rows[r].lists, l);
  }

  lemma StoredCol(contents: map<Pointer, seq<nat>>, rowLists: seq<Pair>, colLists: seq<Pair>,
                  rows: seq<SignedRow>, cols: seq<Lists>, c: nat, l: Lists)
    requires Stored(contents, rowLists, colLists, rows, cols) && c < |cols|
    ensures |colLists| == |cols| && Holds(contents, colLists[c], cols[c])
    ensures Stored(Held(contents, colLists[c], l), rowLists, colLists, rows, cols[c := l])
  {
    hide Holds, Held, Apart;
    forall d | 0 <= d < |cols| && d != c ensures Holds(Held(contents, colLists[c], l), colLists[d], cols[d]) {
      HeldFacts(contents, colLists[c], cols[c], l, colLists[d], cols[d]);
    }
    forall r | 0 <= r < |rows| ensures Holds(Held(contents, colLists[c], l), rowLists[r], rows[r].lists) {
      ApartFlips(rowLists[r], colLists[c]);
      HeldFacts(contents, colLists[c], cols[c], l, rowLists[r], rows[r].lists);
    }
    HeldSelf(contents, colLists[c], cols[c], l);
  }

  /** A row and a column can be edited together. */
  lemma StoredEntry(contents: map<Pointer, seq<nat>>, rowLists: seq<Pair>, colLists: seq<Pair>,
                    rows: seq<SignedRow>, cols: seq<Lists>, r: nat, c: nat, row: Lists, col: Lists)
    requires Stored(contents, rowLists, colLists, rows, cols) && r < |rows| && c < |cols|
    ensures |rowLists| == |rows| && |colLists| == |cols| && Apart(rowLists[r], colLists[c])
    ensures Holds(contents, rowLists[r], rows[r].lists) && Holds(contents, colLists[c], cols[c])
    ensures Stored(Held(Held(contents, rowLists[r], row), colLists[c], col), rowLists, colLists,
                   rows[r := rows[r].(lists := row)], cols[c := col])
  {
    hide Holds, Held, Apart;
    StoredRow(contents, rowLists, colLists, rows, cols, r, row);
    StoredCol(contents, rowLists, colLists, rows, cols, c, cols[c]);
    StoredCol(Held(contents, rowLists[r], row), rowLists, colLists, rows[r := rows[r].(lists := row)], cols, c, col);
  }

  /** A new pair of lists shares nothing with those there are. */
  lemma StoredNew(contents: map<Pointer, seq<nat>>, rowLists: seq<Pair>, colLists: seq<Pair>,
                  rows: seq<SignedRow>, cols: seq<Lists>, p: Pair)
    requires Stored(contents, rowLists, colLists, rows, cols)
    requires p.pos !in contents && p.neg !in contents && p.pos != p.neg
    ensures var now := Held(contents, p, Lists([], []));
      && Stored(now, rowLists + [p], colLists, rows + [SignedRow(Lists([], []), 0)], cols)
      && Stored(now, rowLists, colLists + [p], rows, cols + [Lists([], [])])
  {
    hide Holds, Apart, Held;
    forall r | 0 <= r < |rows|
      ensures Apart(p, rowLists[r]) && Apart(rowLists[r], p)
      ensures Holds(Held(contents, p, Lists([], [])), rowLists[r], rows[r].lists)
    {
      NewApart(contents, p, rowLists[r], rows[r].lists);
    }
    forall c | 0 <= c < |cols|
      ensures Apart(p, colLists[c]) && Apart(colLists[c], p)
      ensures Holds(Held(contents, p, Lists([], [])), colLists[c], cols[c])
    {
      NewApart(contents, p, colLists[c], cols[c]);
    }
    NewHeld(contents, p);
  }

  lemma NewApart(contents: map<Pointer, seq<nat>>, p: Pair, q: Pair, l: Lists)
    requires Holds(contents, q, l) && p.pos !in contents && p.neg !in contents
    ensures Apart(p, q) && Apart(q, p) && Holds(Held(contents, p, Lists([], [])), q, l)
  {
  }

  lemma NewHeld(contents: map<Pointer, seq<nat>>, p: Pair)
    requires p.pos != p.neg
    ensures Holds(Held(contents, p, Lists([], [])), p, Lists([], []))
  {
  }

  /** Other pairs' iterators do not move when an entry is edited. */
  lemma AtBoth(was: map<Pointer, seq<Pointer>>, now: map<Pointer, seq<Pointer>>, p: Pair, q: Pair, o: Pair)
    requires BothNodes(was, now, p, q) && Apart(p, o) && Apart(q, o) && o.pos in was && o.neg in was
    ensures NodesKept(was, now, o)
  {
  }

  /** A pair of lists has the nodes it had. */
  ghost predicate NodesKept(was: map<Pointer, seq<Pointer>>, now: map<Pointer, seq<Pointer>>, p: Pair) {
    && p.pos in was && p.neg in was && p.pos in now && p.neg in now
    && now[p.pos] == was[p.pos] && now[p.neg] == was[p.neg]
  }

  lemma AtKept(was: map<Pointer, seq<Pointer>>, now: map<Pointer, seq<Pointer>>, p: Pair, it: PairIter, cur: Cursor)
    requires NodesKept(was, now, p) && PairAt(was, p, it, cur)
    ensures PairAt(now, p, it, cur)
  {
  }

  predicate Distinct(s: seq<nat>) {
    forall i, j :: 0 <= i < j < |s| ==> s[i] != s[j]
  }

  lemma AppendIncreasing(s: seq<nat>, x: nat)
    requires Increasing(s) && forall y :: y in s ==> y < x
    ensures Increasing(s + [x])
  {
    assert forall i :: 0 <= i < |s| ==> s[i] in s;
  }

  class SparseTableau {
    const store: ListStore
    var negations: seq<bool>
    /** Values before the negation flags are applied. */
    var values: seq<int>
    var rowLists: seq<Pair>
    var colLists: seq<Pair>
    /** What the rows and the columns hold. */
    ghost var rows: seq<SignedRow>
    ghost var cols: seq<Lists>

    ghost predicate Valid()
      reads this, store, store.alloc
    {
      && |negations| == |rows| && InStep(rows, cols) && Backed()
    }

    /** The lists in the store hold the rows and columns. */
    ghost predicate Backed()
      reads this, store, store.alloc
    {
      && store.Valid() && Stored(store.contents, rowLists, colLists, rows, cols)
      && |values| == |rows| && forall r :: 0 <= r < |rows| ==> values[r] == rows[r].value
    }

    ghost function Dense(): (m: Mat)
      requires |negations| == |rows|
      reads this
      ensures |m| == |rows| && Rect(m, |cols|)
    {
      DenseOf(rows, negations, |cols|)
    }

    ghost function Values(): (v: seq<int>)
      requires |negations| == |rows|
      reads this
      ensures |v| == |rows|
    {
      ValuesOf(rows, negations)
    }

    lemma BackedMeans()
      requires Backed()
      ensures store.Valid() && Stored(store.contents, rowLists, colLists, rows, cols)
      ensures |values| == |rows| == |rowLists| && |colLists| == |cols|
    {
    }

    constructor (numCols: nat)
      ensures Valid() && rows == [] && |cols| == numCols && Dense() == [] && Values() == []
      ensures fresh(store) && fresh(store.alloc)
    {
      store := new ListStore();
      negations, values, rowLists, colLists := [], [], [], [];
      rows, cols := [], [];
      new;
      for c := 0 to numCols
        invariant Valid() && rows == [] && |cols| == c
        invariant fresh(store) && fresh(store.alloc)
      {
        hide Stored, InStep, Listed;
        AddCol();
      }
    }

    method AddCol()
      requires Valid() && rows == []
      modifies this`colLists, this`cols, store, store.alloc
      ensures Valid() && |cols| == |old(cols)| + 1
    {
      hide Stored, Listed;
      var p := NewPair();
      colLists := colLists + [p];
      cols := cols + [Lists([], [])];
    }

    /** Two new lists, for one more row or column. */
    method NewPair() returns (p: Pair)
      requires Backed()
      modifies store, store.alloc
      ensures store.Valid() && store.contents == Held(old(store.contents), p, Lists([], []))
      ensures |values| == |rows| && forall r :: 0 <= r < |rows| ==> values[r] == rows[r].value
      ensures Stored(store.contents, rowLists + [p], colLists, rows + [SignedRow(Lists([], []), 0)], cols)
      ensures Stored(store.contents, rowLists, colLists + [p], rows, cols + [Lists([], [])])
    {
      hide Stored, Listed;
      ghost var contents := store.contents;
      var pos := store.NewList();
      var neg := store.NewList();
      p := Pair(pos, neg);
      StoredNew(contents, rowLists, colLists, rows, cols, p);
    }

    method AddRow()
      requires Valid()
      modifies this, store, store.alloc
      ensures Valid() && |cols| == old(|cols|)
      ensures Dense() == old(Dense()) + [seq(|cols|, _ => 0)]
      ensures Values() == old(Values()) + [0]
    {
      hide Stored;
      var p := NewPair();
      rowLists := rowLists + [p];
      negations := negations + [false];
      values := values + [0];
      rows := rows + [SignedRow(Lists([], []), 0)];
      assert InStep(rows, cols) by {
        assert forall c :: 0 <= c < |cols| ==> Raw(cols[c], |rows| - 1) == 0;
      }
      SameMatrix(Dense(), old(Dense()) + [seq(|cols|, _ => 0)], |cols|);
      assert Values() == old(Values()) + [0];
    }

    /** Insert into the lists of a row and of a column. */
    method InsertEntry(r: nat, c: nat, plus: bool)
      requires Valid() && r < |rows| && c < |cols| && Raw(rows[r].lists, c) == 0
      modifies this`rows, this`cols, store, store.alloc
      ensures Valid() && |rows| == old(|rows|) && |cols| == old(|cols|)
      ensures rows == old(rows)[r := old(rows)[r].(lists := rows[r].lists)]
      ensures AddedAt(old(rows)[r].lists, rows[r].lists, c, Sgn(negations[r] == plus))
    {
      hide Stored, Listed, AddedAt, ListsOk, InStep, Holds, Held, PairAt, PairNodes, Apart, SignedLists.Raw;
      BackedMeans();
      InStepMeans(rows, cols, r, c);
      ghost var contents := store.contents;
      ghost var row, col := rows[r].lists, cols[c];
      StoredEntry(contents, rowLists, colLists, rows, cols, r, c, row, col);
      FreshCursor(row, c);
      FreshCursor(col, r);
      var rowIt := PairBegin(store, rowLists[r], row);
      ghost var row', col', cur;
      rowIt, row', cur := InsertPos(store, rowLists[r], rowIt, negations[r] == plus, c, row, Cursor(0, 0), |cols|);
      HeldFacts(contents, rowLists[r], row, row', colLists[c], col);
      var colIt := PairBegin(store, colLists[c], col);
      colIt, col', cur := InsertPos(store, colLists[c], colIt, negations[r] == plus, r, col, Cursor(0, 0), |rows|);
      StoredEntry(contents, rowLists, colLists, rows, cols, r, c, row', col');
      InStepUpdate(rows, cols, r, c, row', col', Sgn(negations[r] == plus));
      rows := rows[r := rows[r].(lists := row')];
      cols := cols[c := col'];
    }

    /** Set an entry that is not set yet. */
    method SetEntry(r: nat, c: nat, value: int)
      requires Valid() && r < |rows| && c < |cols| && (value == 1 || value == -1)
      requires Dense()[r][c] == 0
      modifies this`rows, this`cols, store, store.alloc
      ensures Valid() && |rows| == old(|rows|) && |cols| == old(|cols|)
      ensures Dense() == old(Dense())[r := old(Dense())[r][c := value]]
      ensures Values() == old(Values())
    {
      hide InStep, Backed;
      assert Signed(rows[r].lists, negations[r], c) == 0;
      InsertEntry(r, c, value > 0);
      EntrySet(old(rows), rows, negations, |cols|, r, c, value);
    }

    method NegateRow(r: nat)
      requires Valid() && r < |rows|
      modifies this`negations
      ensures Valid() && negations == old(negations)[r := !old(negations)[r]]
      ensures Dense() == Matrix.NegateRow(old(Dense()), |cols|, r)
      ensures Values() == old(Values())[r := -old(Values())[r]]
    {
      hide Stored;
      negations := negations[r := !negations[r]];
      SameMatrix(Dense(), Matrix.NegateRow(old(Dense()), |cols|, r), |cols|);
      assert Values() == old(Values())[r := -old(Values())[r]];
    }

    method GetValue(r: nat) returns (v: int)
      requires Valid() && r < |rows|
      ensures v == Values()[r]
    {
      v := if negations[r] then -values[r] else values[r];
    }

    method SetValue(r: nat, v: int)
      requires Valid() && r < |rows|
      modifies this`rows, this`values
      ensures Valid() && |rows| == old(|rows|)
      ensures forall s :: 0 <= s < |rows| ==> rows[s].lists == old(rows[s].lists)
      ensures forall s :: 0 <= s < |rows| && s != r ==> rows[s] == old(rows[s])
      ensures Dense() == old(Dense())
      ensures Values() == old(Values())[r := v]
    {
      hide Stored, InStep, Listed;
      var raw := if negations[r] then -v else v;
      values := values[r := raw];
      rows := rows[r := rows[r].(value := raw)];
      ListsKept(old(rows), rows, cols, store.contents, rowLists, colLists);
      SameLists(old(rows), rows, negations, |cols|);
      assert Values() == old(Values())[r := v];
    }

    /** The elements of one list. */
    method ReadList(l: Pointer) returns (s: seq<nat>)
      requires store.Valid() && l in store.contents
      ensures s == store.contents[l]
    {
      hide Listed, IterAt;
      var it := store.Begin(l);
      s := [];
      while true
        invariant |s| <= |store.contents[l]| && s == store.contents[l][..|s|] && store.At(l, it, |s|)
        decreases |store.contents[l]| - |s|
      {
        var end := store.AtEnd(it, l, |s|);
        if end { return; }
        var v := store.Value(it, l, |s|);
        it := store.Next(it, l, |s|);
        s := s + [v];
      }
    }

    /** The lists of a row. */
    method ReadRow(r: nat) returns (l: Lists)
      requires Valid() && r < |rows|
      ensures l == rows[r].lists
    {
      hide Listed, InStep;
      var pos := ReadList(rowLists[r].pos);
      var neg := ReadList(rowLists[r].neg);
      l := Lists(pos, neg);
    }

    /** The row of least value among those of a list with this flag, and the one found so far. */
    method LeastRow(l: Pointer, flag: bool, found: Option<nat>) returns (r: Option<nat>)
      requires Valid() && l in store.contents
      requires forall k :: 0 <= k < |store.contents[l]| ==> store.contents[l][k] < |rows|
      requires found.Some? ==> found.value < |rows|
      ensures r.Some? ==>
        r.value < |rows| && (r == found || (r.value in store.contents[l] && negations[r.value] == flag))
      ensures found.Some? ==> r.Some? && Values()[r.value] <= Values()[found.value]
      ensures forall s :: s in store.contents[l] && negations[s] == flag ==>
        r.Some? && Values()[r.value] <= Values()[s]
    {
      hide InStep, Stored, Listed, IterAt, Backed, Values;
      BackedMeans();
      ghost var list, signed := store.contents[l], Values();
      r := found;
      var value := 0;
      if r.Some? { value := GetValue(r.value); }
      var it := store.Begin(l);
      ghost var i: nat := 0;
      while true
        invariant i <= |list| && store.At(l, it, i)
        invariant r.Some? ==> r.value < |signed| && value == signed[r.value]
        invariant r == found || (r.Some? && r.value in list && negations[r.value] == flag)
        invariant found.Some? ==> r.Some? && value <= signed[found.value]
        invariant forall k :: 0 <= k < i && negations[list[k]] == flag ==> r.Some? && value <= signed[list[k]]
        decreases |list| - i
      {
        var end := store.AtEnd(it, l, i);
        if end { break; }
        var row := store.Value(it, l, i);
        var v := GetValue(row);
        if negations[row] == flag && (r.None? || value > v) { r, value := Some(row), v; }
        it := store.Next(it, l, i);
        i := i + 1;
      }
    }

    /** The row with a plus one in the column and the least value; None is the
        "failed to find pivot row" error. */
    method GetPivotRow(q: nat) returns (r: Option<nat>)
      requires Valid() && q < |cols|
      ensures r.Some? ==>
        && r.value < |rows| && Dense()[r.value][q] == 1
        && forall s :: 0 <= s < |rows| && Dense()[s][q] == 1 ==> Values()[r.value] <= Values()[s]
      ensures r.None? ==> forall s :: 0 <= s < |rows| ==> Dense()[s][q] != 1
    {
      hide InStep, ListsOk, Values, Dense, Stored, Listed;
      PlusOnes(q);
      ColumnHeld(q);
      InBounds(cols[q], |rows|);
      var least := LeastRow(colLists[q].pos, false, None);
      r := LeastRow(colLists[q].neg, true, least);
    }

    /** A row has a plus one where the list of the column that its flag selects has the row. */
    lemma PlusOnes(q: nat)
      requires Valid() && q < |cols|
      ensures forall s :: 0 <= s < |rows| ==>
        (Dense()[s][q] == 1 <==> (s in cols[q].pos && !negations[s]) || (s in cols[q].neg && negations[s]))
    {
      hide Backed;
      forall s | 0 <= s < |rows|
        ensures Dense()[s][q] == 1 <==> (s in cols[q].pos && !negations[s]) || (s in cols[q].neg && negations[s])
      {
        assert Raw(rows[s].lists, q) == Raw(cols[q], s);
      }
    }

    lemma ColumnHeld(q: nat)
      requires Valid() && q < |cols|
      ensures |colLists| == |cols| && store.Valid() && Holds(store.contents, colLists[q], cols[q])
      ensures ListsOk(cols[q], |rows|)
    {
    }

    /** Walk the pivot column in row order and negate rows so that every other row
        with an entry there has a signed minus one. */
    method CollectTouched(p: nat, q: nat) returns (touched: seq<nat>, flipped: seq<nat>, negations': seq<bool>)
      requires Valid() && q < |cols|
      ensures Walked(cols[q], negations, p, |negations|, touched, flipped, negations')
    {
      hide Walked, Increasing, Stored, Listed, InStep, IterAt;
      ghost var col := cols[q];
      ColumnHeld(q);
      touched, flipped, negations' := [], [], negations;
      InBounds(col, |negations|);
      var l := colLists[q];
      var it := PairBegin(store, l, col);
      ghost var i, j: nat := 0, 0;
      ghost var b: nat := 0;
      StartWalk(col, negations, p);
      while true
        invariant i <= |col.pos| && j <= |col.neg| && |negations'| == |negations|
        invariant PairAt(store.nodes, l, it, Cursor(i, j))
        invariant Before(col.pos, i, b) && Before(col.neg, j, b) && b <= |negations|
        invariant (i < |col.pos| ==> b <= col.pos[i]) && (j < |col.neg| ==> b <= col.neg[j])
        invariant Walked(col, negations, p, b, touched, flipped, negations')
        decreases |col.pos| + |col.neg| - i - j
      {
        var row, plus, end;
        end, it, row, plus := NextOfPair(l, it, col, i, j);
        if end { break; }
        if plus { i := i + 1; } else { j := j + 1; }
        NextIsClear(col, i, j, plus, b, row, |negations|);
        touched, flipped, negations' := Touch(col, p, row, plus, touched, flipped, negations', negations, b);
        WalkLength(col, negations, p, row + 1, touched, flipped, negations');
        b := row + 1;
      }
      EndWalk(col, negations, p, b, touched, flipped, negations');
    }

    /** The lesser of the two elements reached, and past it. */
    method NextOfPair(l: Pair, it: PairIter, ghost lists: Lists, ghost i: nat, ghost j: nat)
      returns (end: bool, it': PairIter, x: nat, plus: bool)
      requires store.Valid() && Holds(store.contents, l, lists) && PairAt(store.nodes, l, it, Cursor(i, j))
      ensures i <= |lists.pos| && j <= |lists.neg|
      ensures end <==> i == |lists.pos| && j == |lists.neg|
      ensures !end ==>
        && plus == (j == |lists.neg| || (i < |lists.pos| && lists.pos[i] < lists.neg[j]))
        && (plus ==> i < |lists.pos| && x == lists.pos[i] && PairAt(store.nodes, l, it', Cursor(i + 1, j)))
        && (!plus ==> j < |lists.neg| && x == lists.neg[j] && PairAt(store.nodes, l, it', Cursor(i, j + 1)))
    {
      hide Listed;
      x, plus, it' := 0, false, it;
      var posEnd := store.AtEnd(it.pos, l.pos, i);
      var negEnd := store.AtEnd(it.neg, l.neg, j);
      end := posEnd && negEnd;
      if end { return; }
      if !negEnd { x := store.Value(it.neg, l.neg, j); }
      if !posEnd {
        var y := store.Value(it.pos, l.pos, i);
        if negEnd || y < x { x, plus := y, true; }
      }
      if plus {
        var a := store.Next(it.pos, l.pos, i);
        it' := it.(pos := a);
      } else {
        var a := store.Next(it.neg, l.neg, j);
        it' := it.(neg := a);
      }
    }

    /** Add a signed coefficient to one entry, in the row's and the column's lists. */
    method AddToEntry(r: nat, c: nat, coeff: int, rowIt: PairIter, colIt: PairIter,
                      ghost rowCur: Cursor, ghost colCur: Cursor)
      returns (rowIt': PairIter, colIt': PairIter, ghost rowCur': Cursor, ghost colCur': Cursor)
      requires Valid() && r < |rows| && c < |cols| && r < |rowLists| && c < |colLists| && (coeff == 1 || coeff == -1)
      requires PairAt(store.nodes, rowLists[r], rowIt, rowCur) && PairAt(store.nodes, colLists[c], colIt, colCur)
      requires CursorOk(rows[r].lists, rowCur, c) && CursorOk(cols[c], colCur, r)
      requires -1 <= Signed(rows[r].lists, negations[r], c) + coeff <= 1
      modifies this`rows, this`cols, store, store.alloc
      ensures Valid() && |rows| == old(|rows|) && |cols| == old(|cols|)
      ensures PairAt(store.nodes, rowLists[r], rowIt', rowCur') && PairAt(store.nodes, colLists[c], colIt', colCur')
      ensures BothNodes(old(store.nodes), store.nodes, rowLists[r], colLists[c])
      ensures CursorOk(rows[r].lists, rowCur', c) && CursorOk(cols[c], colCur', r)
      ensures rows == old(rows)[r := old(rows)[r].(lists := rows[r].lists)]
      ensures AddedAt(old(rows)[r].lists, rows[r].lists, c, Sgn(negations[r]) * coeff)
    {
      hide InStep, Stored, Listed, Holds, Held, PairAt, BothNodes, CursorOk, AddedAt, ListsOk, Apart, SignedLists.Raw;
      BackedMeans();
      InStepMeans(rows, cols, r, c);
      ghost var contents, row0, col0 := store.contents, rows[r].lists, cols[c];
      ghost var row, col;
      StoredEntry(contents, rowLists, colLists, rows, cols, r, c, row0, col0);
      if coeff > 0 {
        rowIt', colIt', row, rowCur', col, colCur' :=
          GuardedInsertPos(store, rowLists[r], rowIt, colLists[c], colIt, negations[r], c, r,
                           row0, rowCur, col0, colCur, |cols|, |rows|);
      } else {
        rowIt', colIt', row, rowCur', col, colCur' :=
          GuardedInsertNeg(store, rowLists[r], rowIt, colLists[c], colIt, negations[r], c, r,
                           row0, rowCur, col0, colCur, |cols|, |rows|);
      }
      StoredEntry(contents, rowLists, colLists, rows, cols, r, c, row, col);
      InStepUpdate(rows, cols, r, c, row, col, Sgn(negations[r]) * coeff);
      rows := rows[r := rows[r].(lists := row)];
      cols := cols[c := col];
    }

    /** The column has been merged into the first k touched rows. */
    ghost predicate Merged(was: seq<SignedRow>, nodes: map<Pointer, seq<Pointer>>, c: nat, coeff: int,
                           touched: seq<nat>, k: nat, its: seq<PairIter>, cursors: seq<Cursor>,
                           colIt: PairIter, colCur: Cursor)
      requires |was| == |rows| == |negations| && k <= |touched|
      reads this, store, store.alloc
    {
      && c < |cols| && c < |colLists| && PairAt(store.nodes, colLists[c], colIt, colCur)
      && (k < |touched| ==> CursorOk(cols[c], colCur, touched[k]))
      && |cursors| == |touched|
      && (forall i :: 0 <= i < |touched| ==> touched[i] < |rows| && CursorOk(rows[touched[i]].lists, cursors[i], c))
      && RowsAt(store.nodes, rowLists, touched, its, cursors)
      && OthersStay(nodes, store.nodes, rowLists, touched)
      && (forall i :: k <= i < |touched| ==> touched[i] < |rows| && rows[touched[i]] == was[touched[i]])
      && ColumnAdded(was, rows, negations, touched[..k], c, coeff)
    }

    /** Merge the column into one more row. */
    method MergeRow(c: nat, coeff: int, r: nat, it: PairIter, colIt: PairIter, ghost was: seq<SignedRow>,
                    ghost nodes: map<Pointer, seq<Pointer>>, ghost touched: seq<nat>, ghost k: nat,
                    ghost its: seq<PairIter>, ghost cursors: seq<Cursor>, ghost colCur: Cursor)
      returns (it': PairIter, colIt': PairIter, ghost cursors': seq<Cursor>, ghost colCur': Cursor)
      requires Valid() && |was| == |rows| && k < |touched| && Increasing(touched) && r == touched[k]
      requires Merged(was, nodes, c, coeff, touched, k, its, cursors, colIt, colCur)
      requires |its| == |touched| && it == its[k]
      requires (coeff == 1 || coeff == -1) && r < |was| && -1 <= Signed(was[r].lists, negations[r], c) + coeff <= 1
      modifies this`rows, this`cols, store, store.alloc
      ensures Valid() && |was| == |rows| && |cols| == old(|cols|)
      ensures Merged(was, nodes, c, coeff, touched, k + 1, its[k := it'], cursors', colIt', colCur')
    {
      hide InStep, CursorOk, AddedAt, ListsOk, Stored, Listed, PairAt, BothNodes, RowsAt, OthersStay, Backed, Apart;
      RowAtOne(store.nodes, rowLists, touched, its, cursors, k);
      ghost var rowCur, before := cursors[k], store.nodes;
      assert r !in touched[..k];
      StoredNodes(c);
      it', colIt', rowCur, colCur' := AddToEntry(r, c, coeff, it, colIt, rowCur, colCur);
      RowsAtStep(before, store.nodes, rowLists, colLists[c], touched, its, cursors, k, it', rowCur);
      OthersStayStep(nodes, before, store.nodes, rowLists, colLists[c], touched, k);
      cursors' := cursors[k := rowCur];
      assert touched[..k + 1] == touched[..k] + [r];
      if k + 1 < |touched| { CursorAdvance(cols[c], colCur', r, touched[k + 1]); }
    }

    /** Add a signed coefficient to column c of every touched row, in row order,
        with one iterator over the column and the rows' own running iterators. */
    method AddToColumn(c: nat, coeff: int, touched: seq<nat>, its: seq<PairIter>, ghost cursors: seq<Cursor>)
      returns (its': seq<PairIter>, ghost cursors': seq<Cursor>)
      requires Valid() && c < |cols| && (coeff == 1 || coeff == -1)
      requires Increasing(touched) && forall k :: 0 <= k < |touched| ==> touched[k] < |rows|
      requires CursorsOk(rows, touched, cursors, c) && RowsAt(store.nodes, rowLists, touched, its, cursors)
      requires forall k :: 0 <= k < |touched| ==>
        -1 <= Signed(rows[touched[k]].lists, negations[touched[k]], c) + coeff <= 1
      modifies this`rows, this`cols, store, store.alloc
      ensures Valid() && |rows| == old(|rows|) && |cols| == old(|cols|)
      ensures CursorsOk(rows, touched, cursors', c) && RowsAt(store.nodes, rowLists, touched, its', cursors')
      ensures ColumnAdded(old(rows), rows, negations, touched, c, coeff)
      ensures OthersStay(old(store.nodes), store.nodes, rowLists, touched)
    {
      hide InStep, Stored, Listed, Backed, Merged, Increasing;
      its', cursors' := its, cursors;
      ColumnHeld(c);
      RowsAtLength(store.nodes, rowLists, touched, its, cursors);
      var colIt := PairBegin(store, colLists[c], cols[c]);
      ghost var colCur := Cursor(0, 0);
      StartMerge(c, coeff, touched, its, cursors, colIt);
      for k := 0 to |touched|
        invariant |its'| == |touched| && Valid() && |rows| == |old(rows)| && |cols| == old(|cols|)
        invariant Merged(old(rows), old(store.nodes), c, coeff, touched, k, its', cursors', colIt, colCur)
      {
        var it;
        it, colIt, cursors', colCur :=
          MergeRow(c, coeff, touched[k], its'[k], colIt, old(rows), old(store.nodes), touched, k, its', cursors',
            colCur);
        its' := its'[k := it];
      }
      EndMerge(old(rows), old(store.nodes), c, coeff, touched, its', cursors', colIt, colCur);
    }

    lemma StartMerge(c: nat, coeff: int, touched: seq<nat>, its: seq<PairIter>, cursors: seq<Cursor>, colIt: PairIter)
      requires Valid() && c < |cols| && |colLists| == |cols| && PairAt(store.nodes, colLists[c], colIt, Cursor(0, 0))
      requires forall k :: 0 <= k < |touched| ==> touched[k] < |rows|
      requires CursorsOk(rows, touched, cursors, c) && RowsAt(store.nodes, rowLists, touched, its, cursors)
      ensures Merged(rows, store.nodes, c, coeff, touched, 0, its, cursors, colIt, Cursor(0, 0))
    {
      hide InStep, Stored, Listed, PairAt, Backed, AddedAt;
      FreshCursor(cols[c], if touched == [] then 0 else touched[0]);
      StoredNodes(c);
      NobodyMoves(store.nodes, rowLists, touched);
    }

    lemma EndMerge(was: seq<SignedRow>, nodes: map<Pointer, seq<Pointer>>, c: nat, coeff: int, touched: seq<nat>,
                   its: seq<PairIter>, cursors: seq<Cursor>, colIt: PairIter, colCur: Cursor)
      requires |was| == |rows| == |negations|
      requires Merged(was, nodes, c, coeff, touched, |touched|, its, cursors, colIt, colCur)
      ensures CursorsOk(rows, touched, cursors, c) && RowsAt(store.nodes, rowLists, touched, its, cursors)
      ensures ColumnAdded(was, rows, negations, touched, c, coeff) && OthersStay(nodes, store.nodes, rowLists, touched)
    {
      hide PairAt, AddedAt, CursorOk;
      assert touched[..|touched|] == touched;
    }

    /** The lists of rows are apart from each other and from a column's. */
    lemma StoredNodes(c: nat)
      requires Valid() && c < |cols|
      ensures |rowLists| == |rows| && |colLists| == |cols|
      ensures forall r, s :: 0 <= r < |rows| && 0 <= s < |rows| && r != s ==> Apart(rowLists[r], rowLists[s])
      ensures forall r :: 0 <= r < |rows| ==> Apart(colLists[c], rowLists[r])
      ensures forall r :: 0 <= r < |rows| ==> rowLists[r].pos in store.nodes && rowLists[r].neg in store.nodes
    {
      hide InStep;
      forall r | 0 <= r < |rows|
        ensures Apart(colLists[c], rowLists[r]) && rowLists[r].pos in store.nodes && rowLists[r].neg in store.nodes
      {
        ApartFlips(rowLists[r], colLists[c]);
        assert Holds(store.contents, rowLists[r], rows[r].lists);
      }
    }

    /** Merge the pivot row at one column into every touched row. The pivot row's iterator
        stays where it is. */
    method AddAt(idx: nat, coeff: int, p: nat, touched: seq<nat>, its: seq<PairIter>, ghost was: seq<SignedRow>,
                 ghost b: nat, ghost cursors: seq<Cursor>, ghost it: PairIter, ghost cur: Cursor)
      returns (its': seq<PairIter>, ghost cursors': seq<Cursor>)
      requires Valid() && |was| == |rows| && p < |rows| && p !in touched && Increasing(touched) && b <= idx < |cols|
      requires forall k :: 0 <= k < |touched| ==> touched[k] < |rows|
      requires SumsUnit(was, negations, touched, p) && RowsAdded(was, rows, negations, touched, p, b)
      requires (forall r :: 0 <= r < |rows| ==> rows[r].value == was[r].value) && rows[p].lists == was[p].lists
      requires CursorsOk(rows, touched, cursors, b) && RowsAt(store.nodes, rowLists, touched, its, cursors)
      requires p < |rowLists| && PairAt(store.nodes, rowLists[p], it, cur)
      requires (coeff == 1 || coeff == -1) && coeff == Signed(was[p].lists, negations[p], idx)
      requires forall y: nat :: b <= y < idx ==> Raw(was[p].lists, y) == 0
      modifies this`rows, this`cols, store, store.alloc
      ensures Valid() && |rows| == old(|rows|) && |cols| == old(|cols|)
      ensures RowsAdded(was, rows, negations, touched, p, idx + 1)
      ensures (forall r :: 0 <= r < |rows| ==> rows[r].value == was[r].value) && rows[p].lists == was[p].lists
      ensures CursorsOk(rows, touched, cursors', idx + 1) && RowsAt(store.nodes, rowLists, touched, its', cursors')
      ensures PairAt(store.nodes, rowLists[p], it, cur)
    {
      hide InStep, CursorOk, AddedAt, RowsAdded, ColumnAdded, Increasing, SumsUnit, Stored, Listed, PairAt, RowsAt,
        OthersStay, Backed, CursorsOk, SignedLists.Raw;
      CursorsAdvance(rows, touched, cursors, b, idx);
      ghost var mid, nodes := rows, store.nodes;
      SumAt(was, rows, negations, touched, p, b, idx);
      its', cursors' := AddToColumn(idx, coeff, touched, its, cursors);
      StaysAt(nodes, store.nodes, rowLists, touched, p, it, cur);
      RowsAddedStep(was, mid, rows, negations, touched, p, b, idx, coeff);
      ColumnAddedValues(mid, rows, negations, touched, idx, coeff);
      UntouchedRow(mid, rows, negations, touched, idx, coeff, p);
      CursorsAdvance(rows, touched, cursors', idx, idx + 1);
    }

    /** Merge the pivot row, in column order, into every touched row. */
    method AddPivotRow(p: nat, touched: seq<nat>)
      requires Valid() && p < |rows| && p !in touched && Increasing(touched)
      requires forall k :: 0 <= k < |touched| ==> touched[k] < |rows|
      requires SumsUnit(rows, negations, touched, p)
      modifies this`rows, this`cols, store, store.alloc
      ensures Valid() && |rows| == old(|rows|) && |cols| == old(|cols|)
      ensures RowsAdded(old(rows), rows, negations, touched, p, |cols|)
      ensures forall r :: 0 <= r < |rows| ==> rows[r].value == old(rows)[r].value
    {
      hide InStep, CursorOk, AddedAt, RowsAdded, Increasing, SumsUnit, Stored, Listed, PairAt, RowsAt, Backed,
        CursorsOk, ListsOk, Holds, SignedLists.Raw;
      ghost var row, width := rows[p].lists, |cols|;
      RowHeld(p);
      InBounds(row, width);
      var its := BeginRows(touched);
      var it := PairBegin(store, rowLists[p], row);
      ghost var cursors := seq(|touched|, _ => Cursor(0, 0));
      FreshCursors(rows, touched, cursors);
      NothingAdded(rows, negations, touched, p);
      ghost var i, j: nat := 0, 0;
      ghost var b: nat := 0;
      while true
        invariant i <= |row.pos| && j <= |row.neg|
        invariant Before(row.pos, i, b) && Before(row.neg, j, b)
        invariant (i < |row.pos| ==> b <= row.pos[i]) && (j < |row.neg| ==> b <= row.neg[j])
        invariant Valid() && |rows| == old(|rows|) && |cols| == width && rows[p].lists == row
        invariant p < |rowLists| && PairAt(store.nodes, rowLists[p], it, Cursor(i, j))
        invariant RowsAdded(old(rows), rows, negations, touched, p, b)
        invariant forall r :: 0 <= r < |rows| ==> rows[r].value == old(rows)[r].value
        invariant CursorsOk(rows, touched, cursors, b) && RowsAt(store.nodes, rowLists, touched, its, cursors)
        decreases |row.pos| + |row.neg| - i - j
      {
        RowHeld(p);
        var idx, plus, end;
        end, it, idx, plus := NextOfPair(rowLists[p], it, row, i, j);
        if end { break; }
        if plus { i := i + 1; } else { j := j + 1; }
        var coeff := if plus != negations[p] then 1 else -1;
        NextIsClear(row, i, j, plus, b, idx, width);
        its, cursors := AddAt(idx, coeff, p, touched, its, old(rows), b, cursors, it, Cursor(i, j));
        b := idx + 1;
      }
      RowsAddedRest(old(rows), rows, negations, touched, p, b, width);
    }

    lemma RowHeld(r: nat)
      requires Valid() && r < |rows|
      ensures |rowLists| == |rows| && store.Valid() && Holds(store.contents, rowLists[r], rows[r].lists)
      ensures ListsOk(rows[r].lists, |cols|)
    {
    }

    /** An iterator at the start of every touched row. */
    method BeginRows(touched: seq<nat>) returns (its: seq<PairIter>)
      requires Valid() && forall k :: 0 <= k < |touched| ==> touched[k] < |rows|
      ensures RowsAt(store.nodes, rowLists, touched, its, seq(|touched|, _ => Cursor(0, 0)))
    {
      hide InStep, Stored, Listed, PairAt, Backed;
      its := [];
      BackedMeans();
      for k := 0 to |touched|
        invariant |its| == k && |rowLists| == |rows|
        invariant forall i :: 0 <= i < k ==> PairAt(store.nodes, rowLists[touched[i]], its[i], Cursor(0, 0))
      {
        RowHeld(touched[k]);
        var it := PairBegin(store, rowLists[touched[k]], rows[touched[k]].lists);
        its := its + [it];
      }
    }

    /** The last line of the pivot on the column side: only the pivot row is left. */
    method SetSinglePos(c: nat, r: nat)
      requires Valid() && r < |rows| && c < |cols|
      requires forall s :: 0 <= s < |rows| ==> Signed(rows[s].lists, negations[s], c) == if s == r then 1 else 0
      modifies this`cols, store, store.alloc
      ensures Valid() && |cols| == old(|cols|)
    {
      hide Stored, Listed;
      ghost var contents := store.contents;
      ColumnHeld(c);
      var p := colLists[c];
      store.Clear(p.pos);
      store.Clear(p.neg);
      ghost var col := if negations[r] then Lists([], [r]) else Lists([r], []);
      if negations[r] {
        var it := store.InsertAfter(p.neg, r, p.neg, 0);
      } else {
        var it := store.InsertAfter(p.pos, r, p.pos, 0);
      }
      assert [][..0] + [r] + [][0..] == [r];
      assert store.contents == Held(contents, p, col);
      StoredCol(contents, rowLists, colLists, rows, cols, c, col);
      SingleInStep(rows, cols, negations, c, r, col);
      cols := cols[c := col];
    }

    /** Add the pivot row's value to every touched row. */
    method AddValues(p: nat, touched: seq<nat>)
      requires Valid() && p < |rows| && p !in touched && Increasing(touched)
      requires forall k :: 0 <= k < |touched| ==> touched[k] < |rows|
      modifies this`rows, this`values
      ensures Valid() && |rows| == old(|rows|)
      ensures forall r :: 0 <= r < |rows| ==> rows[r].lists == old(rows)[r].lists
      ensures forall r :: 0 <= r < |rows| ==>
        Values()[r] == old(Values())[r] + (if r in touched then old(Values())[p] else 0)
    {
      hide InStep, Backed;
      for k := 0 to |touched|
        invariant Valid() && |rows| == old(|rows|)
        invariant forall r :: 0 <= r < |rows| ==> rows[r].lists == old(rows)[r].lists
        invariant forall r :: 0 <= r < |rows| ==>
          Values()[r] == old(Values())[r] + (if r in touched[..k] then old(Values())[p] else 0)
      {
        var v := GetValue(touched[k]);
        var w := GetValue(p);
        assert touched[k] !in touched[..k];
        SetValue(touched[k], v + w);
        assert touched[..k + 1] == touched[..k] + [touched[k]];
      }
      assert touched[..|touched|] == touched;
    }

    /** Flip back the flags that were flipped for the pivot. */
    method Unnegate(flipped: seq<nat>)
      requires Valid() && Distinct(flipped)
      requires forall k :: 0 <= k < |flipped| ==> flipped[k] < |rows|
      modifies this`negations
      ensures Valid()
      ensures forall r :: 0 <= r < |rows| ==>
        negations[r] == if r in flipped then !old(negations)[r] else old(negations)[r]
    {
      hide InStep, Backed;
      for k := 0 to |flipped|
        invariant Valid()
        invariant forall r :: 0 <= r < |rows| ==>
          negations[r] == if r in flipped[..k] then !old(negations)[r] else old(negations)[r]
      {
        assert flipped[k] !in flipped[..k];
        NegateRow(flipped[k]);
        assert flipped[..k + 1] == flipped[..k] + [flipped[k]];
      }
      assert flipped[..|flipped|] == flipped;
    }

    /** The sparse pivot is the dense Gauss-Jordan pivot, on entries and on values,
        and both copies of the tableau stay in step. */
    method DoPivot(p: nat, q: nat)
      requires Valid() && p < |rows| && q < |cols|
      requires Dense()[p][q] == 1 && PivotUnit(Dense(), |cols|, p, q)
      modifies this`negations, this`values, this`rows, this`cols, store, store.alloc
      ensures Valid() && |rows| == old(|rows|) && |cols| == old(|cols|)
      ensures Dense() == Pivot(old(Dense()), |cols|, p, q)
      ensures Values() == PivotValues(old(Dense()), |cols|, old(Values()), p, q)
    {
      hide InStep, Pivot, PivotValues, DenseOf, ValuesOf, SumsUnit, RowsAdded, Increasing, ListsOk, Walked, Collected,
        Backed;
      var touched, flipped, flags;
      ghost var flags0 := negations;
      touched, flipped, flags := CollectTouched(p, q);
      WalkedCollected(rows, cols, flags0, flags, touched, flipped, p, q);
      SetFlags(flags);
      ghost var flags1 := negations;
      TouchedSumsUnit(rows, cols, flags0, flags1, touched, p, q);
      AddPivotRow(p, touched);
      ghost var rows1 := rows;
      PivotColumnCleared(old(rows), rows1, old(cols), flags0, flags1, touched, p, q);
      PivotDenoted(old(rows), rows1, old(cols), flags0, flags1, touched, p, q);
      SameValues(old(rows), rows1, flags1);
      SetSinglePos(q, p);
      AddValues(p, touched);
      SameLists(rows1, rows, flags0, |cols|);
      PivotValued(old(rows), rows, old(cols), flags0, flags1, touched, p, q);
      Unnegate(flipped);
      assert negations == flags0;
    }

    method SetFlags(flags: seq<bool>)
      requires Valid() && |flags| == |negations|
      modifies this`negations
      ensures Valid() && negations == flags
    {
      hide InStep, Stored, Listed;
      negations := flags;
    }
  }

  // ---- the pivot, step by step ----

  lemma SameLists(a: seq<SignedRow>, b: seq<SignedRow>, flags: seq<bool>, width: nat)
    requires |a| == |b| == |flags|
    requires forall r :: 0 <= r < |a| ==> a[r].lists == b[r].lists
    ensures DenseOf(a, flags, width) == DenseOf(b, flags, width)
  {
    SameMatrix(DenseOf(a, flags, width), DenseOf(b, flags, width), width);
  }

  lemma SameValues(a: seq<SignedRow>, b: seq<SignedRow>, flags: seq<bool>)
    requires |a| == |b| == |flags|
    requires forall r :: 0 <= r < |a| ==> a[r].value == b[r].value
    ensures ValuesOf(a, flags) == ValuesOf(b, flags)
  {
  }

  ghost predicate SumsUnit(rows: seq<SignedRow>, flags: seq<bool>, touched: seq<nat>, p: nat)
    requires |rows| == |flags| && p < |rows|
  {
    forall r, c: nat :: 0 <= r < |rows| && r in touched ==>
      -1 <= Signed(rows[r].lists, flags[r], c) + Signed(rows[p].lists, flags[p], c) <= 1
  }

  lemma SumAt(was: seq<SignedRow>, now: seq<SignedRow>, flags: seq<bool>, touched: seq<nat>, p: nat, b: nat, idx: nat)
    requires |was| == |now| == |flags| && p < |was| && b <= idx
    requires SumsUnit(was, flags, touched, p)
    requires RowsAdded(was, now, flags, touched, p, b)
    ensures forall r :: 0 <= r < |was| && r in touched ==>
      -1 <= Signed(now[r].lists, flags[r], idx) + Signed(was[p].lists, flags[p], idx) <= 1
  {
    forall r | 0 <= r < |was| && r in touched
      ensures -1 <= Signed(now[r].lists, flags[r], idx) + Signed(was[p].lists, flags[p], idx) <= 1
    {
      assert Raw(now[r].lists, idx) == Raw(was[r].lists, idx);
    }
  }

  lemma RowsAddedStep(was: seq<SignedRow>, mid: seq<SignedRow>, now: seq<SignedRow>, flags: seq<bool>,
                      touched: seq<nat>, p: nat, b: nat, idx: nat, coeff: int)
    requires |was| == |mid| == |now| == |flags| && p < |was| && b <= idx
    requires RowsAdded(was, mid, flags, touched, p, b)
    requires ColumnAdded(mid, now, flags, touched, idx, coeff)
    requires coeff == Signed(was[p].lists, flags[p], idx)
    requires forall y: nat :: b <= y < idx ==> Raw(was[p].lists, y) == 0
    ensures RowsAdded(was, now, flags, touched, p, idx + 1)
  {
    forall r, c: nat | 0 <= r < |was|
      ensures Raw(now[r].lists, c) == Raw(was[r].lists, c) +
        (if r in touched && c < idx + 1 then Sgn(flags[r]) * Signed(was[p].lists, flags[p], c) else 0)
    {
      assert Raw(mid[r].lists, c) == Raw(was[r].lists, c) +
        (if r in touched && c < b then Sgn(flags[r]) * Signed(was[p].lists, flags[p], c) else 0);
      assert b <= c < idx ==> Signed(was[p].lists, flags[p], c) == 0;
    }
  }

  lemma RowsAddedRest(was: seq<SignedRow>, now: seq<SignedRow>, flags: seq<bool>, touched: seq<nat>,
                      p: nat, b: nat, width: nat)
    requires |was| == |now| == |flags| && p < |was|
    requires RowsAdded(was, now, flags, touched, p, b)
    requires forall x :: x in was[p].lists.pos || x in was[p].lists.neg ==> x < b && x < width
    ensures RowsAdded(was, now, flags, touched, p, width)
  {
    forall r, c: nat | 0 <= r < |was|
      ensures Raw(now[r].lists, c) == Raw(was[r].lists, c) +
        (if r in touched && c < width then Sgn(flags[r]) * Signed(was[p].lists, flags[p], c) else 0)
    {
      assert c >= b || c >= width ==> Signed(was[p].lists, flags[p], c) == 0;
      assert Raw(now[r].lists, c) >= -1;
    }
  }

  /** What CollectTouched establishes about the flags. */
  ghost predicate Collected(cols: seq<Lists>, flags0: seq<bool>, flags1: seq<bool>, touched: seq<nat>, p: nat, q: nat)
    requires |flags0| == |flags1| && q < |cols|
  {
    && (forall x: nat :: x in touched <==> x != p && Raw(cols[q], x) != 0)
    && (forall x :: 0 <= x < |flags0| ==> flags1[x] == if x in touched then Raw(cols[q], x) == 1 else flags0[x])
  }

  lemma WalkedCollected(rows: seq<SignedRow>, cols: seq<Lists>, flags0: seq<bool>, flags1: seq<bool>,
                        touched: seq<nat>, flipped: seq<nat>, p: nat, q: nat)
    requires InStep(rows, cols) && |rows| == |flags0| && q < |cols| && p < |rows|
    requires Walked(cols[q], flags0, p, |flags0|, touched, flipped, flags1)
    ensures |flags1| == |flags0| && Collected(cols, flags0, flags1, touched, p, q)
    ensures p !in touched && Increasing(touched) && Distinct(flipped)
    ensures forall x :: 0 <= x < |flags0| ==> flags0[x] == if x in flipped then !flags1[x] else flags1[x]
    ensures forall k :: 0 <= k < |flipped| ==> flipped[k] < |rows|
  {
    InBounds(cols[q], |flags0|);
    forall k | 0 <= k < |flipped| ensures flipped[k] < |rows| { assert flipped[k] in flipped; }
  }

  /** Entry by entry, adding the pivot row under the new flags is the Gauss-Jordan step. */
  lemma PivotEntry(rows: seq<SignedRow>, cols: seq<Lists>, flags0: seq<bool>, flags1: seq<bool>,
                   touched: seq<nat>, p: nat, q: nat, r: nat, c: nat)
    requires |rows| == |flags0| == |flags1| && InStep(rows, cols)
    requires p < |rows| && q < |cols| && r < |rows| && c < |cols|
    requires Collected(cols, flags0, flags1, touched, p, q)
    ensures flags1[p] == flags0[p]
    ensures Pivot(DenseOf(rows, flags0, |cols|), |cols|, p, q)[r][c] ==
      Sgn(flags0[r]) * Sgn(flags1[r]) *
        (Signed(rows[r].lists, flags1[r], c) + (if r in touched then Signed(rows[p].lists, flags1[p], c) else 0))
  {
    var m := DenseOf(rows, flags0, |cols|);
    assert Raw(rows[r].lists, q) == Raw(cols[q], r);
    assert m[r][q] == Signed(rows[r].lists, flags0[r], q);
    if r != p {
      assert Pivot(m, |cols|, p, q)[r][c] == m[r][c] - m[r][q] * m[p][c];
      if r in touched {
        assert m[r][q] == if flags0[r] == flags1[r] then -1 else 1;
      }
    }
  }

  lemma TouchedSumsUnit(rows: seq<SignedRow>, cols: seq<Lists>, flags0: seq<bool>, flags1: seq<bool>,
                        touched: seq<nat>, p: nat, q: nat)
    requires |rows| == |flags0| == |flags1| && InStep(rows, cols) && p < |rows| && q < |cols|
    requires Collected(cols, flags0, flags1, touched, p, q)
    requires PivotUnit(DenseOf(rows, flags0, |cols|), |cols|, p, q)
    ensures SumsUnit(rows, flags1, touched, p)
    ensures forall k :: 0 <= k < |touched| ==> touched[k] < |rows|
  {
    forall r, c: nat | 0 <= r < |rows| && r in touched
      ensures -1 <= Signed(rows[r].lists, flags1[r], c) + Signed(rows[p].lists, flags1[p], c) <= 1
    {
      if c < |cols| {
        PivotEntry(rows, cols, flags0, flags1, touched, p, q, r, c);
        assert -1 <= Pivot(DenseOf(rows, flags0, |cols|), |cols|, p, q)[r][c] <= 1;
      } else {
        assert Raw(rows[r].lists, c) == 0 && Raw(rows[p].lists, c) == 0;
      }
    }
    forall k | 0 <= k < |touched| ensures touched[k] < |rows| {
      assert touched[k] in touched;
    }
  }

  lemma PivotColumnCleared(was: seq<SignedRow>, now: seq<SignedRow>, cols: seq<Lists>, flags0: seq<bool>,
                           flags1: seq<bool>, touched: seq<nat>, p: nat, q: nat)
    requires |was| == |now| == |flags0| == |flags1| && InStep(was, cols) && p < |was| && q < |cols|
    requires Collected(cols, flags0, flags1, touched, p, q)
    requires DenseOf(was, flags0, |cols|)[p][q] == 1
    requires RowsAdded(was, now, flags1, touched, p, |cols|)
    ensures forall s :: 0 <= s < |was| ==> Signed(now[s].lists, flags1[s], q) == if s == p then 1 else 0
  {
    assert Signed(was[p].lists, flags1[p], q) == 1;
    forall s | 0 <= s < |was| ensures Signed(now[s].lists, flags1[s], q) == if s == p then 1 else 0 {
      assert Raw(was[s].lists, q) == Raw(cols[q], s);
      assert Raw(now[s].lists, q) == Raw(was[s].lists, q) + (if s in touched then Sgn(flags1[s]) else 0);
    }
  }

  /** The rows after the pivot denote the pivoted matrix under the original flags. */
  lemma PivotDenoted(was: seq<SignedRow>, now: seq<SignedRow>, cols: seq<Lists>, flags0: seq<bool>,
                     flags1: seq<bool>, touched: seq<nat>, p: nat, q: nat)
    requires |was| == |now| == |flags0| == |flags1| && InStep(was, cols) && p < |was| && q < |cols|
    requires Collected(cols, flags0, flags1, touched, p, q)
    requires RowsAdded(was, now, flags1, touched, p, |cols|)
    ensures DenseOf(now, flags0, |cols|) == Pivot(DenseOf(was, flags0, |cols|), |cols|, p, q)
  {
    var a, b := DenseOf(now, flags0, |cols|), Pivot(DenseOf(was, flags0, |cols|), |cols|, p, q);
    forall r, c | 0 <= r < |was| && 0 <= c < |cols| ensures a[r][c] == b[r][c] {
      PivotEntry(was, cols, flags0, flags1, touched, p, q, r, c);
      assert Raw(now[r].lists, c) == Raw(was[r].lists, c) +
        (if r in touched then Sgn(flags1[r]) * Signed(was[p].lists, flags1[p], c) else 0);
    }
    SameMatrix(a, b, |cols|);
  }

  /** The values after the pivot, under the original flags. */
  lemma PivotValued(was: seq<SignedRow>, now: seq<SignedRow>, cols: seq<Lists>, flags0: seq<bool>,
                    flags1: seq<bool>, touched: seq<nat>, p: nat, q: nat)
    requires |was| == |now| == |flags0| == |flags1| && InStep(was, cols) && p < |was| && q < |cols|
    requires Collected(cols, flags0, flags1, touched, p, q)
    requires DenseOf(was, flags0, |cols|)[p][q] == 1
    requires forall r :: 0 <= r < |was| ==>
      ValuesOf(now, flags1)[r] == ValuesOf(was, flags1)[r] + (if r in touched then ValuesOf(was, flags1)[p] else 0)
    ensures ValuesOf(now, flags0) == PivotValues(DenseOf(was, flags0, |cols|), |cols|, ValuesOf(was, flags0), p, q)
  {
    var m := DenseOf(was, flags0, |cols|);
    forall r | 0 <= r < |was|
      ensures ValuesOf(now, flags0)[r] == PivotValues(m, |cols|, ValuesOf(was, flags0), p, q)[r]
    {
      assert Raw(was[r].lists, q) == Raw(cols[q], r);
      assert m[r][q] == Signed(was[r].lists, flags0[r], q);
      assert ValuesOf(now, flags1)[r] == ValuesOf(was, flags1)[r]
        + (if r in touched then ValuesOf(was, flags1)[p] else 0);
      if r != p && r in touched {
        assert m[r][q] == if flags0[r] == flags1[r] then -1 else 1;
      }
    }
  }
}
