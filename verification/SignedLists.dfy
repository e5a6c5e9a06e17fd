/** Sorted lists edited through an iterator that only moves forward, and the signed pairs of
    such lists that make up a row or a column. The lists live in an allocator; what they
    hold is followed as sequences. */
module SignedLists {
  import opened ForwardLists

  // ---- sorted lists under a monotone iterator ----

  predicate Increasing(s: seq<nat>) {
    forall i, j :: 0 <= i < j < |s| ==> s[i] < s[j]
  }

  /** Everything the iterator has passed is below x. */
  predicate Before(s: seq<nat>, at: nat, x: nat) {
    at <= |s| && forall i :: 0 <= i < at ==> s[i] < x
  }

  lemma WithoutElement(s: seq<nat>, at: nat)
    requires Increasing(s) && at < |s|
    ensures var s' := s[..at] + s[at + 1..];
      Increasing(s') && forall y :: y in s' <==> y in s && y != s[at]
  {
    var s' := s[..at] + s[at + 1..];
    forall y ensures y in s' <==> y in s && y != s[at] {
      if y in s && y != s[at] {
        var i :| 0 <= i < |s| && s[i] == y;
        assert y == if i < at then s'[i] else s'[i - 1];
      }
    }
  }

  lemma WithElement(s: seq<nat>, at: nat, x: nat)
    requires Increasing(s) && Before(s, at, x) && (at < |s| ==> x < s[at])
    ensures var s' := s[..at] + [x] + s[at..];
      Increasing(s') && Before(s', at, x) && forall y :: y in s' <==> y in s || y == x
  {
    var s' := s[..at] + [x] + s[at..];
    forall y ensures y in s' <==> y in s || y == x {
      if y in s {
        var i :| 0 <= i < |s| && s[i] == y;
        assert y == if i < at then s'[i] else s'[i + 1];
      }
      assert s'[at] == x;
    }
  }

  /** Only one list of the store may have changed. */
  ghost predicate OnlyList(was: map<Pointer, seq<nat>>, wasNodes: map<Pointer, seq<Pointer>>, store: ListStore,
                           l: Pointer)
    reads store
  {
    && l in store.contents && l in store.nodes
    && store.contents == was[l := store.contents[l]] && store.nodes == wasNodes[l := store.nodes[l]]
  }

  /** Advance to x and erase it if it is there. */
  method TryErase(store: ListStore, l: Pointer, it: Iter, x: nat, ghost at: nat)
    returns (erased: bool, it': Iter, ghost at': nat)
    requires store.Valid() && l in store.contents && store.At(l, it, at)
    requires Increasing(store.contents[l]) && Before(store.contents[l], at, x)
    modifies store, store.alloc
    ensures store.Valid() && OnlyList(old(store.contents), old(store.nodes), store, l) && store.At(l, it', at')
    ensures erased <==> x in old(store.contents)[l]
    ensures Increasing(store.contents[l]) && Before(store.contents[l], at', x)
    ensures forall y :: y in store.contents[l] <==> y in old(store.contents)[l] && y != x
  {
    hide Listed;
    it', at' := it, at;
    ghost var s := store.contents[l];
    while true
      invariant store.Valid() && store.contents == old(store.contents) && store.nodes == old(store.nodes)
      invariant store.At(l, it', at') && at' <= |s| && Before(s, at', x)
      decreases |s| - at'
    {
      var end := store.AtEnd(it', l, at');
      if end { return false, it', at'; }
      var v := store.Value(it', l, at');
      if v == x {
        WithoutElement(s, at');
        it' := store.Erase(it', l, at');
        return true, it', at';
      }
      if v > x { return false, it', at'; }
      it' := store.Next(it', l, at');
      at' := at' + 1;
    }
  }

  /** Advance past everything below x and insert it there. */
  method InsertAt(store: ListStore, l: Pointer, it: Iter, x: nat, ghost at: nat) returns (it': Iter, ghost at': nat)
    requires store.Valid() && l in store.contents && store.At(l, it, at)
    requires Increasing(store.contents[l]) && Before(store.contents[l], at, x) && x !in store.contents[l]
    modifies store, store.alloc
    ensures store.Valid() && OnlyList(old(store.contents), old(store.nodes), store, l) && store.At(l, it', at')
    ensures Increasing(store.contents[l]) && Before(store.contents[l], at', x)
    ensures forall y :: y in store.contents[l] <==> y in old(store.contents)[l] || y == x
  {
    hide Listed;
    it', at' := it, at;
    ghost var s := store.contents[l];
    while true
      invariant store.Valid() && store.contents == old(store.contents) && store.nodes == old(store.nodes)
      invariant store.At(l, it', at') && at' <= |s| && Before(s, at', x)
      decreases |s| - at'
    {
      var end := store.AtEnd(it', l, at');
      if end { break; }
      var v := store.Value(it', l, at');
      if x < v { break; }
      assert v != x;
      it' := store.Next(it', l, at');
      at' := at' + 1;
    }
    WithElement(s, at', x);
    it' := store.Insert(it', x, l, at');
  }

  // ---- signed pairs of lists ----

  /** What the two lists of a row or of a column hold. */
  datatype Lists = Lists(pos: seq<nat>, neg: seq<nat>)

  /** The two lists themselves, the iterators of both, and the positions these have reached. */
  datatype Pair = Pair(pos: Pointer, neg: Pointer)

  datatype PairIter = PairIter(pos: Iter, neg: Iter)

  datatype Cursor = Cursor(posAt: nat, negAt: nat)

  /** The stored sign at x, before the row's negation flag is applied. */
  function Raw(l: Lists, x: nat): (sign: int)
    ensures -1 <= sign <= 1
  {
    if x in l.pos then 1 else if x in l.neg then -1 else 0
  }

  function Sgn(negated: bool): int {
    if negated then -1 else 1
  }

  function Signed(l: Lists, negated: bool, x: nat): int {
    Sgn(negated) * Raw(l, x)
  }

  ghost predicate ListsOk(l: Lists, bound: nat) {
    && Increasing(l.pos) && Increasing(l.neg)
    && (forall x :: x in l.pos ==> x < bound && x !in l.neg)
    && (forall x :: x in l.neg ==> x < bound)
  }

  ghost predicate CursorOk(l: Lists, cur: Cursor, x: nat) {
    Before(l.pos, cur.posAt, x) && Before(l.neg, cur.negAt, x)
  }

  /** l' is l with d added to the stored sign at x. */
  ghost predicate AddedAt(l: Lists, l': Lists, x: nat, d: int) {
    forall y: nat :: Raw(l', y) == if y == x then Raw(l, x) + d else Raw(l, y)
  }

  /** A pair of different lists holds this. */
  ghost predicate Holds(contents: map<Pointer, seq<nat>>, p: Pair, l: Lists) {
    && p.pos != p.neg && p.pos in contents && p.neg in contents
    && contents[p.pos] == l.pos && contents[p.neg] == l.neg
  }

  ghost predicate PairAt(nodes: map<Pointer, seq<Pointer>>, p: Pair, it: PairIter, cur: Cursor) {
    IterAt(nodes, p.pos, it.pos, cur.posAt) && IterAt(nodes, p.neg, it.neg, cur.negAt)
  }

  /** The contents once a pair holds something else. */
  function Held(contents: map<Pointer, seq<nat>>, p: Pair, l: Lists): map<Pointer, seq<nat>> {
    contents[p.pos := l.pos][p.neg := l.neg]
  }

  /** Nodes changed in a pair of lists only. */
  ghost predicate PairNodes(was: map<Pointer, seq<Pointer>>, now: map<Pointer, seq<Pointer>>, p: Pair) {
    was.Keys == now.Keys && forall k :: k in was && k != p.pos && k != p.neg ==> now[k] == was[k]
  }

  method PairBegin(store: ListStore, p: Pair, ghost l: Lists) returns (it: PairIter)
    requires store.Valid() && Holds(store.contents, p, l)
    ensures PairAt(store.nodes, p, it, Cursor(0, 0))
  {
    var a := store.Begin(p.pos);
    var b := store.Begin(p.neg);
    it := PairIter(a, b);
  }

  method TryErasePos(store: ListStore, p: Pair, it: PairIter, negated: bool, x: nat,
                     ghost l: Lists, ghost cur: Cursor, ghost bound: nat)
    returns (erased: bool, it': PairIter, ghost l': Lists, ghost cur': Cursor)
    requires store.Valid() && Holds(store.contents, p, l) && PairAt(store.nodes, p, it, cur)
    requires ListsOk(l, bound) && CursorOk(l, cur, x)
    modifies store, store.alloc
    ensures store.Valid() && store.contents == Held(old(store.contents), p, l') && PairAt(store.nodes, p, it', cur')
    ensures PairNodes(old(store.nodes), store.nodes, p)
    ensures ListsOk(l', bound) && CursorOk(l', cur', x)
    ensures erased <==> Signed(l, negated, x) == 1
    ensures if erased then AddedAt(l, l', x, -Sgn(negated)) else AddedAt(l, l', x, 0)
  {
    hide Listed, Increasing;
    it', cur' := it, cur;
    ghost var at;
    var i;
    if negated {
      erased, i, at := TryErase(store, p.neg, it.neg, x, cur.negAt);
      it', cur' := it.(neg := i), cur.(negAt := at);
      l' := l.(neg := store.contents[p.neg]);
    } else {
      erased, i, at := TryErase(store, p.pos, it.pos, x, cur.posAt);
      it', cur' := it.(pos := i), cur.(posAt := at);
      l' := l.(pos := store.contents[p.pos]);
    }
  }

  method TryEraseNeg(store: ListStore, p: Pair, it: PairIter, negated: bool, x: nat,
                     ghost l: Lists, ghost cur: Cursor, ghost bound: nat)
    returns (erased: bool, it': PairIter, ghost l': Lists, ghost cur': Cursor)
    requires store.Valid() && Holds(store.contents, p, l) && PairAt(store.nodes, p, it, cur)
    requires ListsOk(l, bound) && CursorOk(l, cur, x)
    modifies store, store.alloc
    ensures store.Valid() && store.contents == Held(old(store.contents), p, l') && PairAt(store.nodes, p, it', cur')
    ensures PairNodes(old(store.nodes), store.nodes, p)
    ensures ListsOk(l', bound) && CursorOk(l', cur', x)
    ensures erased <==> Signed(l, negated, x) == -1
    ensures if erased then AddedAt(l, l', x, Sgn(negated)) else AddedAt(l, l', x, 0)
  {
    hide Listed, ListsOk, CursorOk, AddedAt, Holds, PairAt, Held, PairNodes, Raw;
    erased, it', l', cur' := TryErasePos(store, p, it, !negated, x, l, cur, bound);
  }

  method InsertPos(store: ListStore, p: Pair, it: PairIter, negated: bool, x: nat,
                   ghost l: Lists, ghost cur: Cursor, ghost bound: nat)
    returns (it': PairIter, ghost l': Lists, ghost cur': Cursor)
    requires store.Valid() && Holds(store.contents, p, l) && PairAt(store.nodes, p, it, cur)
    requires ListsOk(l, bound) && CursorOk(l, cur, x) && x < bound && Raw(l, x) == 0
    modifies store, store.alloc
    ensures store.Valid() && store.contents == Held(old(store.contents), p, l') && PairAt(store.nodes, p, it', cur')
    ensures PairNodes(old(store.nodes), store.nodes, p)
    ensures ListsOk(l', bound) && CursorOk(l', cur', x) && AddedAt(l, l', x, Sgn(negated))
  {
    hide Listed, Increasing;
    it', cur' := it, cur;
    ghost var at;
    var i;
    if negated {
      i, at := InsertAt(store, p.neg, it.neg, x, cur.negAt);
      it', cur' := it.(neg := i), cur.(negAt := at);
      l' := l.(neg := store.contents[p.neg]);
    } else {
      i, at := InsertAt(store, p.pos, it.pos, x, cur.posAt);
      it', cur' := it.(pos := i), cur.(posAt := at);
      l' := l.(pos := store.contents[p.pos]);
    }
  }

  method InsertNeg(store: ListStore, p: Pair, it: PairIter, negated: bool, x: nat,
                   ghost l: Lists, ghost cur: Cursor, ghost bound: nat)
    returns (it': PairIter, ghost l': Lists, ghost cur': Cursor)
    requires store.Valid() && Holds(store.contents, p, l) && PairAt(store.nodes, p, it, cur)
    requires ListsOk(l, bound) && CursorOk(l, cur, x) && x < bound && Raw(l, x) == 0
    modifies store, store.alloc
    ensures store.Valid() && store.contents == Held(old(store.contents), p, l') && PairAt(store.nodes, p, it', cur')
    ensures PairNodes(old(store.nodes), store.nodes, p)
    ensures ListsOk(l', bound) && CursorOk(l', cur', x) && AddedAt(l, l', x, -Sgn(negated))
  {
    hide Listed, ListsOk, CursorOk, AddedAt, Holds, PairAt, Held, PairNodes;
    it', l', cur' := InsertPos(store, p, it, !negated, x, l, cur, bound);
  }

  /** Two pairs of lists that have none in common. */
  predicate Apart(p: Pair, q: Pair) {
    p.pos != q.pos && p.pos != q.neg && p.neg != q.pos && p.neg != q.neg
  }

  lemma HeldSelf(contents: map<Pointer, seq<nat>>, p: Pair, l: Lists, l': Lists)
    requires Holds(contents, p, l)
    ensures Holds(Held(contents, p, l'), p, l') && Held(contents, p, l) == contents
  {
  }

  lemma HeldTwice(contents: map<Pointer, seq<nat>>, p: Pair, l: Lists, l': Lists)
    requires p.pos != p.neg
    ensures Held(Held(contents, p, l), p, l') == Held(contents, p, l')
  {
  }

  /** An iterator over one pair stays where it is when another pair changes. */
  lemma AtApart(was: map<Pointer, seq<Pointer>>, now: map<Pointer, seq<Pointer>>, p: Pair, q: Pair, it: PairIter,
                cur: Cursor)
    requires Apart(p, q) && PairNodes(was, now, p) && PairAt(was, q, it, cur)
    ensures PairAt(now, q, it, cur)
  {
  }

  method RemovePos(store: ListStore, p: Pair, it: PairIter, negated: bool, x: nat,
                   ghost l: Lists, ghost cur: Cursor, ghost bound: nat)
    returns (it': PairIter, ghost l': Lists, ghost cur': Cursor)
    requires store.Valid() && Holds(store.contents, p, l) && PairAt(store.nodes, p, it, cur)
    requires ListsOk(l, bound) && CursorOk(l, cur, x) && Signed(l, negated, x) == 1
    modifies store, store.alloc
    ensures store.Valid() && store.contents == Held(old(store.contents), p, l') && PairAt(store.nodes, p, it', cur')
    ensures PairNodes(old(store.nodes), store.nodes, p)
    ensures ListsOk(l', bound) && CursorOk(l', cur', x) && AddedAt(l, l', x, -Sgn(negated))
  {
    hide Listed, ListsOk, CursorOk, AddedAt, Holds, PairAt, Held, PairNodes, Raw;
    var erased;
    erased, it', l', cur' := TryErasePos(store, p, it, negated, x, l, cur, bound);
    assert erased;
  }

  /** Remove a column entry; the "desync" error is the case the precondition excludes. */
  method RemoveNeg(store: ListStore, p: Pair, it: PairIter, negated: bool, x: nat,
                   ghost l: Lists, ghost cur: Cursor, ghost bound: nat)
    returns (it': PairIter, ghost l': Lists, ghost cur': Cursor)
    requires store.Valid() && Holds(store.contents, p, l) && PairAt(store.nodes, p, it, cur)
    requires ListsOk(l, bound) && CursorOk(l, cur, x) && Signed(l, negated, x) == -1
    modifies store, store.alloc
    ensures store.Valid() && store.contents == Held(old(store.contents), p, l') && PairAt(store.nodes, p, it', cur')
    ensures PairNodes(old(store.nodes), store.nodes, p)
    ensures ListsOk(l', bound) && CursorOk(l', cur', x) && AddedAt(l, l', x, Sgn(negated))
  {
    hide Listed, ListsOk, CursorOk, AddedAt, Holds, PairAt, Held, PairNodes, Raw;
    var erased;
    erased, it', l', cur' := TryEraseNeg(store, p, it, negated, x, l, cur, bound);
    assert erased;
  }

  /** Nodes changed in two pairs of lists only. */
  ghost predicate BothNodes(was: map<Pointer, seq<Pointer>>, now: map<Pointer, seq<Pointer>>, p: Pair, q: Pair) {
    && was.Keys == now.Keys
    && forall k :: k in was && k != p.pos && k != p.neg && k != q.pos && k != q.neg ==> now[k] == was[k]
  }

  lemma PairNodesTwice(a: map<Pointer, seq<Pointer>>, b: map<Pointer, seq<Pointer>>, c: map<Pointer, seq<Pointer>>,
                       p: Pair)
    requires PairNodes(a, b, p) && PairNodes(b, c, p)
    ensures PairNodes(a, c, p)
  {
  }

  lemma BothPairs(a: map<Pointer, seq<Pointer>>, b: map<Pointer, seq<Pointer>>, c: map<Pointer, seq<Pointer>>,
                  p: Pair, q: Pair)
    requires PairNodes(a, b, p) && PairNodes(b, c, q)
    ensures BothNodes(a, c, p, q)
  {
  }

  lemma ApartFlips(p: Pair, q: Pair)
    requires Apart(p, q)
    ensures Apart(q, p)
  {
  }

  /** After a pair changes it holds the new lists, and another pair what it held. */
  lemma HeldFacts(contents: map<Pointer, seq<nat>>, p: Pair, l: Lists, l': Lists, q: Pair, k: Lists)
    requires Apart(p, q) && Holds(contents, p, l) && Holds(contents, q, k)
    ensures p.pos != p.neg && Holds(Held(contents, p, l'), p, l') && Holds(Held(contents, p, l'), q, k)
  {
  }

  /** Add a signed plus one to a row at a column, and keep that column in step. */
  method GuardedInsertPos(store: ListStore, rowP: Pair, rowIt: PairIter, colP: Pair, colIt: PairIter,
                          negated: bool, idx: nat, rowIdx: nat,
                          ghost row: Lists, ghost rowCur: Cursor, ghost col: Lists, ghost colCur: Cursor,
                          ghost width: nat, ghost height: nat)
    returns (rowIt': PairIter, colIt': PairIter,
             ghost row': Lists, ghost rowCur': Cursor, ghost col': Lists, ghost colCur': Cursor)
    requires store.Valid() && Apart(rowP, colP)
    requires Holds(store.contents, rowP, row) && PairAt(store.nodes, rowP, rowIt, rowCur)
    requires Holds(store.contents, colP, col) && PairAt(store.nodes, colP, colIt, colCur)
    requires ListsOk(row, width) && CursorOk(row, rowCur, idx) && idx < width
    requires ListsOk(col, height) && CursorOk(col, colCur, rowIdx) && rowIdx < height
    requires Raw(row, idx) == Raw(col, rowIdx) && Signed(row, negated, idx) <= 0
    modifies store, store.alloc
    ensures store.Valid() && store.contents == Held(Held(old(store.contents), rowP, row'), colP, col')
    ensures BothNodes(old(store.nodes), store.nodes, rowP, colP)
    ensures PairAt(store.nodes, rowP, rowIt', rowCur') && PairAt(store.nodes, colP, colIt', colCur')
    ensures ListsOk(row', width) && CursorOk(row', rowCur', idx) && AddedAt(row, row', idx, Sgn(negated))
    ensures ListsOk(col', height) && CursorOk(col', colCur', rowIdx) && AddedAt(col, col', rowIdx, Sgn(negated))
  {
    hide Listed, ListsOk, CursorOk, Holds, PairAt, Held, PairNodes, Raw, Apart, BothNodes;
    ghost var contents, nodes0 := store.contents, store.nodes;
    var erased;
    erased, rowIt', row', rowCur' := TryEraseNeg(store, rowP, rowIt, negated, idx, row, rowCur, width);
    ghost var nodes1 := store.nodes;
    HeldFacts(contents, rowP, row, row', colP, col);
    AtApart(nodes0, nodes1, rowP, colP, colIt, colCur);
    if !erased {
      ghost var row1 := row';
      rowIt', row', rowCur' := InsertPos(store, rowP, rowIt', negated, idx, row1, rowCur', width);
      HeldTwice(contents, rowP, row1, row');
      HeldFacts(contents, rowP, row, row', colP, col);
      PairNodesTwice(nodes0, nodes1, store.nodes, rowP);
      nodes1 := store.nodes;
      AtApart(nodes0, nodes1, rowP, colP, colIt, colCur);
      colIt', col', colCur' := InsertPos(store, colP, colIt, negated, rowIdx, col, colCur, height);
    } else {
      colIt', col', colCur' := RemoveNeg(store, colP, colIt, negated, rowIdx, col, colCur, height);
    }
    BothPairs(nodes0, nodes1, store.nodes, rowP, colP);
    ApartFlips(rowP, colP);
    AtApart(nodes1, store.nodes, colP, rowP, rowIt', rowCur');
  }

  /** Add a signed minus one to a row at a column, and keep that column in step. */
  method GuardedInsertNeg(store: ListStore, rowP: Pair, rowIt: PairIter, colP: Pair, colIt: PairIter,
                          negated: bool, idx: nat, rowIdx: nat,
                          ghost row: Lists, ghost rowCur: Cursor, ghost col: Lists, ghost colCur: Cursor,
                          ghost width: nat, ghost height: nat)
    returns (rowIt': PairIter, colIt': PairIter,
             ghost row': Lists, ghost rowCur': Cursor, ghost col': Lists, ghost colCur': Cursor)
    requires store.Valid() && Apart(rowP, colP)
    requires Holds(store.contents, rowP, row) && PairAt(store.nodes, rowP, rowIt, rowCur)
    requires Holds(store.contents, colP, col) && PairAt(store.nodes, colP, colIt, colCur)
    requires ListsOk(row, width) && CursorOk(row, rowCur, idx) && idx < width
    requires ListsOk(col, height) && CursorOk(col, colCur, rowIdx) && rowIdx < height
    requires Raw(row, idx) == Raw(col, rowIdx) && Signed(row, negated, idx) >= 0
    modifies store, store.alloc
    ensures store.Valid() && store.contents == Held(Held(old(store.contents), rowP, row'), colP, col')
    ensures BothNodes(old(store.nodes), store.nodes, rowP, colP)
    ensures PairAt(store.nodes, rowP, rowIt', rowCur') && PairAt(store.nodes, colP, colIt', colCur')
    ensures ListsOk(row', width) && CursorOk(row', rowCur', idx) && AddedAt(row, row', idx, -Sgn(negated))
    ensures ListsOk(col', height) && CursorOk(col', colCur', rowIdx) && AddedAt(col, col', rowIdx, -Sgn(negated))
  {
    hide Listed, ListsOk, CursorOk, Holds, PairAt, Held, PairNodes, Raw, Apart, BothNodes;
    ghost var contents, nodes0 := store.contents, store.nodes;
    var erased;
    erased, rowIt', row', rowCur' := TryErasePos(store, rowP, rowIt, negated, idx, row, rowCur, width);
    ghost var nodes1 := store.nodes;
    HeldFacts(contents, rowP, row, row', colP, col);
    AtApart(nodes0, nodes1, rowP, colP, colIt, colCur);
    if !erased {
      ghost var row1 := row';
      rowIt', row', rowCur' := InsertNeg(store, rowP, rowIt', negated, idx, row1, rowCur', width);
      HeldTwice(contents, rowP, row1, row');
      HeldFacts(contents, rowP, row, row', colP, col);
      PairNodesTwice(nodes0, nodes1, store.nodes, rowP);
      nodes1 := store.nodes;
      AtApart(nodes0, nodes1, rowP, colP, colIt, colCur);
      colIt', col', colCur' := InsertNeg(store, colP, colIt, negated, rowIdx, col, colCur, height);
    } else {
      colIt', col', colCur' := RemovePos(store, colP, colIt, negated, rowIdx, col, colCur, height);
    }
    BothPairs(nodes0, nodes1, store.nodes, rowP, colP);
    ApartFlips(rowP, colP);
    AtApart(nodes1, store.nodes, colP, rowP, rowIt', rowCur');
  }

  lemma InBounds(l: Lists, bound: nat)
    requires ListsOk(l, bound)
    ensures forall k :: 0 <= k < |l.pos| ==> l.pos[k] < bound
    ensures forall k :: 0 <= k < |l.neg| ==> l.neg[k] < bound
  {
    forall k | 0 <= k < |l.pos| ensures l.pos[k] < bound { assert l.pos[k] in l.pos; }
    forall k | 0 <= k < |l.neg| ensures l.neg[k] < bound { assert l.neg[k] in l.neg; }
  }

  lemma NoneBetween(s: seq<nat>, at: nat, b: nat, x: nat)
    requires Increasing(s) && Before(s, at, b) && (at < |s| ==> x <= s[at])
    ensures forall y :: b <= y < x ==> y !in s
  {
  }
}
