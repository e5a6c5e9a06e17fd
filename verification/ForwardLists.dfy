/** The bump allocator with per-row reference counts, and the forward lists that live in it. */
module ForwardLists {

  const ROW_SIZE: nat := 0x1_0000
  const MAX_INDEX: nat := 0xFFFF
  const VALUES: nat := 0x1_0000

  // ---- words ----

  /** An address: a row number, counted from one, and an index in the row; zero is null. */
  type Pointer = nat

  function RowOf(p: Pointer): nat { p / ROW_SIZE }

  function IndexOf(p: Pointer): nat { p % ROW_SIZE }

  function PointerTo(row: nat, index: nat): Pointer { row * ROW_SIZE + index }

  /** A word: the address of the next node, and a value. */
  datatype Word = Word(next: Pointer, value: nat)

  type Memory = map<Pointer, Word>

  /** The word in 64 bits: the address in the upper 48, the value in the rest. */
  function Pack(w: Word): nat { w.next * VALUES + w.value }

  /** The packed forms of writing a value, and of taking the address of another word. */
  function SetValue(raw: nat, v: nat): nat { raw - raw % VALUES + v }

  function CopyNext(raw: nat, from: nat): nat { raw % VALUES + (from - from % VALUES) }

  /** Packing loses nothing, and the packed operations are those on words: writing a value
      keeps the address, and taking an address keeps the value. */
  lemma WordParts(w: Word, from: Word, v: nat)
    requires w.value < VALUES && from.value < VALUES && v < VALUES
    ensures Word(Pack(w) / VALUES, Pack(w) % VALUES) == w
    ensures SetValue(Pack(w), v) == Pack(w.(value := v))
    ensures CopyNext(Pack(w), Pack(from)) == Pack(w.(next := from.next))
  {
  }

  lemma PointerParts(row: nat, index: nat)
    requires index < ROW_SIZE
    ensures RowOf(PointerTo(row, index)) == row && IndexOf(PointerTo(row, index)) == index
  {
  }

  lemma SamePointer(p: Pointer, q: Pointer)
    requires RowOf(p) == RowOf(q) && IndexOf(p) == IndexOf(q)
    ensures p == q
  {
    assert p == RowOf(p) * ROW_SIZE + IndexOf(p) && q == RowOf(q) * ROW_SIZE + IndexOf(q);
  }

  // ---- the allocator ----

  /** One row: its words, the next slot to hand out, and how many are in use. */
  datatype AllocatorRow = AllocatorRow(data: seq<Word>, nextFreeSlot: nat, usageCount: nat)

  predicate Full(r: AllocatorRow) { r.nextFreeSlot == MAX_INDEX }

  class Allocator {
    var buffers: seq<AllocatorRow>
    var nonfull: seq<nat>
    /** The addresses in use. */
    ghost var live: set<Pointer>

    ghost function LiveIn(row: nat): set<Pointer>
      reads this`live
    {
      set p | p in live && RowOf(p) == row
    }

    ghost predicate RowOk(b: nat)
      requires b < |buffers|
      reads this`buffers, this`live
    {
      && |buffers[b].data| == ROW_SIZE && buffers[b].nextFreeSlot <= MAX_INDEX
      && buffers[b].usageCount == |LiveIn(b + 1)|
    }

    ghost predicate Valid()
      reads this
    {
      && |nonfull| > 0 && |buffers| > 0
      && RowsOk()
      && (forall i :: 0 <= i < |nonfull| ==> nonfull[i] < |buffers| && !Full(buffers[nonfull[i]]))
      && (forall i, j :: 0 <= i < j < |nonfull| ==> nonfull[i] != nonfull[j])
    }

    /** An address handed out by its row. */
    ghost predicate Backed(p: Pointer)
      reads this`buffers
    {
      0 < RowOf(p) <= |buffers| && IndexOf(p) < buffers[RowOf(p) - 1].nextFreeSlot
    }

    /** The word at an address in use. */
    function Get(p: Pointer): Word
      requires 0 < RowOf(p) <= |buffers| && IndexOf(p) < |buffers[RowOf(p) - 1].data|
      reads this
    {
      buffers[RowOf(p) - 1].data[IndexOf(p)]
    }

    ghost function WordAt(p: Pointer): Word
      requires Valid() && p in live
      reads this
    {
      assert Backed(p);
      assert RowOk(RowOf(p) - 1);
      Get(p)
    }

    /** The words in use. */
    ghost function Words(): (w: Memory)
      requires Valid()
      reads this
      ensures w.Keys == live
    {
      map p | p in live :: WordAt(p)
    }

    constructor ()
      ensures Valid() && live == {}
    {
      buffers := [AllocatorRow(seq(ROW_SIZE, _ => Word(0, 0)), 0, 0)];
      nonfull := [0];
      live := {};
      new;
      assert LiveIn(1) == {};
    }

    /** Every row is in order, and every address in use was handed out. */
    ghost predicate RowsOk()
      reads this`buffers, this`live
    {
      (forall b: nat :: b < |buffers| ==> RowOk(b)) && (forall p :: p in live ==> Backed(p))
    }

    /** Hand out the next slot of a row that is not full. */
    method Bump(b: nat) returns (p: Pointer)
      requires RowsOk() && b < |buffers| && !Full(buffers[b])
      modifies this`buffers, this`live
      ensures RowsOk() && |buffers| == old(|buffers|) && p !in old(live) && live == old(live) + {p}
      ensures forall c: nat :: c < |buffers| ==> buffers[c].data == old(buffers[c].data)
      ensures forall c: nat :: c < |buffers| && c != b ==> buffers[c] == old(buffers[c])
    {
      hide RowOf, IndexOf, PointerTo;
      var r := buffers[b];
      assert RowOk(b);
      PointerParts(b + 1, r.nextFreeSlot);
      p := PointerTo(b + 1, r.nextFreeSlot);
      assert p in live ==> Backed(p);
      buffers := buffers[b := r.(nextFreeSlot := r.nextFreeSlot + 1, usageCount := r.usageCount + 1)];
      live := live + {p};
      forall c: nat | c < |buffers| ensures RowOk(c) {
        assert old(RowOk(c));
        if c == b {
          assert LiveIn(b + 1) == old(LiveIn(b + 1)) + {p};
        } else {
          assert LiveIn(c + 1) == old(LiveIn(c + 1));
        }
      }
      forall q | q in live ensures Backed(q) { assert q != p ==> old(Backed(q)); }
    }

    /** Take a row that has become full off the list of those that are not. */
    method Retire(b: nat)
      requires RowsOk() && |nonfull| > 0 && nonfull[|nonfull| - 1] == b && |buffers| > 0
      requires forall i :: 0 <= i < |nonfull| ==>
        nonfull[i] < |buffers| && (nonfull[i] != b ==> !Full(buffers[nonfull[i]]))
      requires forall i, j :: 0 <= i < j < |nonfull| ==> nonfull[i] != nonfull[j]
      modifies this`buffers, this`nonfull
      ensures Valid() && old(buffers) <= buffers
    {
      if Full(buffers[b]) {
        nonfull := nonfull[..|nonfull| - 1];
        if |nonfull| == 0 { GrowBuffers(); }
      }
    }

    /** Rows hold the data that other rows held. */
    static ghost predicate DataKept(before: seq<AllocatorRow>, now: seq<AllocatorRow>) {
      |before| <= |now| && forall c :: 0 <= c < |before| ==> now[c].data == before[c].data
    }

    /** A word, from the rows alone. */
    static ghost function WordIn(rows: seq<AllocatorRow>, q: Pointer): Word
      requires 0 < RowOf(q) <= |rows| && IndexOf(q) < |rows[RowOf(q) - 1].data|
    {
      rows[RowOf(q) - 1].data[IndexOf(q)]
    }

    lemma WordRows(q: Pointer)
      requires Valid() && q in live
      ensures 0 < RowOf(q) <= |buffers| && IndexOf(q) < |buffers[RowOf(q) - 1].data|
      ensures WordAt(q) == WordIn(buffers, q)
    {
      assert Backed(q) && RowOk(RowOf(q) - 1);
    }

    lemma RowsWord(before: seq<AllocatorRow>, q: Pointer, w: Word)
      requires Valid() && q in live && DataKept(before, buffers)
      requires 0 < RowOf(q) <= |before| && IndexOf(q) < |before[RowOf(q) - 1].data| && WordIn(before, q) == w
      ensures WordAt(q) == w
    {
      assert Backed(q) && RowOk(RowOf(q) - 1);
    }

    /** Words in use before and after are the same when the rows hold the same data. */
    lemma WordsSame(before: seq<AllocatorRow>, words: Memory)
      requires Valid() && DataKept(before, buffers)
      requires forall q :: q in words ==>
        && 0 < RowOf(q) <= |before| && IndexOf(q) < |before[RowOf(q) - 1].data| && words[q] == WordIn(before, q)
      ensures forall q :: q in words && q in live ==> WordAt(q) == words[q]
    {
      forall q | q in words && q in live ensures WordAt(q) == words[q] { RowsWord(before, q, words[q]); }
    }

    lemma AllWordRows()
      requires Valid()
      ensures forall q :: q in Words() ==>
        && 0 < RowOf(q) <= |buffers| && IndexOf(q) < |buffers[RowOf(q) - 1].data| && Words()[q] == WordIn(buffers, q)
    {
      forall q | q in Words()
        ensures 0 < RowOf(q) <= |buffers| && IndexOf(q) < |buffers[RowOf(q) - 1].data|
        ensures Words()[q] == WordIn(buffers, q)
      {
        WordRows(q);
      }
    }

    /** Hand out an address that is not in use. */
    method Allocate() returns (p: Pointer)
      requires Valid()
      modifies this
      ensures Valid() && p !in old(live) && live == old(live) + {p}
      ensures Words() - {p} == old(Words())
    {
      hide RowOk, Backed, LiveIn, RowOf, IndexOf, WordIn;
      ghost var before, words := buffers, Words();
      AllWordRows();
      var b := nonfull[|nonfull| - 1];
      p := Bump(b);
      Retire(b);
      assert DataKept(before, buffers);
      WordsSame(before, words);
      assert Words() - {p} == words;
    }

    /** Add an empty row. */
    method GrowBuffers()
      requires nonfull == [] && RowsOk()
      modifies this`buffers, this`nonfull
      ensures Valid() && old(buffers) <= buffers
    {
      hide RowOf, IndexOf, PointerTo;
      var next := |buffers|;
      assert LiveIn(next + 1) == {} by {
        forall p | p in live ensures RowOf(p) != next + 1 { assert Backed(p); }
      }
      buffers := buffers + [AllocatorRow(seq(ROW_SIZE, _ => Word(0, 0)), 0, 0)];
      nonfull := [next];
      forall c: nat | c < |buffers| ensures RowOk(c) {
        if c < next { assert old(RowOk(c)); }
        assert LiveIn(c + 1) == old(LiveIn(c + 1));
      }
      forall q | q in live ensures Backed(q) { assert old(Backed(q)); }
    }

    /** Count an address of a row out; a full row that is no longer used is cleared. */
    method Unuse(p: Pointer) returns (refresh: bool)
      requires RowsOk() && p in live && Backed(p)
      modifies this`buffers, this`live
      ensures RowsOk() && |buffers| == old(|buffers|) && live == old(live) - {p}
      ensures forall c: nat :: c < |buffers| ==> buffers[c].data == old(buffers[c].data)
      ensures forall c: nat :: c < |buffers| && c != RowOf(p) - 1 ==> buffers[c] == old(buffers[c])
      ensures var b := RowOf(p) - 1; refresh <==> Full(old(buffers[b])) && !Full(buffers[b])
      ensures !refresh ==> buffers[RowOf(p) - 1].nextFreeSlot == old(buffers[RowOf(p) - 1].nextFreeSlot)
    {
      hide RowOf, IndexOf, PointerTo;
      var b := RowOf(p) - 1;
      var r := buffers[b];
      assert RowOk(b);
      live := live - {p};
      assert old(LiveIn(b + 1)) == LiveIn(b + 1) + {p};
      assert r.usageCount == |LiveIn(b + 1)| + 1;
      r := r.(usageCount := r.usageCount - 1);
      refresh := r.usageCount == 0 && Full(r);
      if refresh { r := r.(usageCount := 0, nextFreeSlot := 0); }
      buffers := buffers[b := r];
      forall c: nat | c < |buffers| ensures RowOk(c) {
        assert old(RowOk(c));
        if c != b { assert LiveIn(c + 1) == old(LiveIn(c + 1)); }
      }
      forall q | q in live ensures Backed(q) {
        assert old(Backed(q));
        if RowOf(q) == b + 1 { assert q in LiveIn(b + 1); }
      }
    }

    /** Give an address back. A row that is full and no longer used is handed out again; no
        word changes. */
    method Free(p: Pointer)
      requires Valid() && p in live
      modifies this
      ensures Valid() && live == old(live) - {p}
      ensures DataKept(old(buffers), buffers) && Words() == old(Words()) - {p}
    {
      hide RowOf, IndexOf, PointerTo, WordIn, RowOk;
      ghost var before, words := buffers, Words();
      AllWordRows();
      assert Backed(p);
      var b := RowOf(p) - 1;
      var refresh := Unuse(p);
      if refresh { nonfull := nonfull + [b]; }
      assert DataKept(before, buffers);
      WordsSame(before, words);
      assert Words() == words - {p};
    }

    /** Give an address back, and read the word that is still there. */
    method FreeThenRead(p: Pointer) returns (w: Word)
      requires Valid() && p in live
      modifies this
      ensures Valid() && live == old(live) - {p} && Words() == old(Words()) - {p}
      ensures w == old(Words())[p]
    {
      hide RowOf, IndexOf, PointerTo, RowOk;
      WordRows(p);
      Free(p);
      w := Get(p);
    }

    method Read(p: Pointer) returns (w: Word)
      requires Valid() && p in live
      ensures w == Words()[p]
    {
      assert Backed(p) && RowOk(RowOf(p) - 1);
      w := Get(p);
    }

    /** Write a word at an address in use. */
    method Put(p: Pointer, w: Word)
      requires Valid() && p in live
      modifies this`buffers
      ensures Valid() && Words() == old(Words())[p := w]
    {
      hide RowOf, IndexOf, PointerTo;
      assert Backed(p);
      var b, i := RowOf(p) - 1, IndexOf(p);
      assert RowOk(b);
      buffers := buffers[b := buffers[b].(data := buffers[b].data[i := w])];
      forall c: nat | c < |buffers| ensures RowOk(c) {
        assert old(RowOk(c));
        assert LiveIn(c + 1) == old(LiveIn(c + 1));
      }
      forall q | q in live ensures Backed(q) && (q != p ==> WordAt(q) == old(WordAt(q))) {
        assert old(Backed(q)) && old(RowOk(RowOf(q) - 1));
        if q != p && RowOf(q) == RowOf(p) && IndexOf(q) == IndexOf(p) { SamePointer(p, q); }
      }
      assert Words() == old(Words())[p := w];
    }
  }

  // ---- a list, as words ----

  function NodeAt(nodes: seq<Pointer>, k: nat): Pointer {
    if k < |nodes| then nodes[k] else 0
  }

  /** The node that precedes a position. */
  function Preceding(first: Pointer, nodes: seq<Pointer>, k: nat): Pointer
    requires k <= |nodes|
  {
    if k == 0 then first else nodes[k - 1]
  }

  function Owned(first: Pointer, nodes: seq<Pointer>): set<Pointer> {
    (set p | p in nodes) + {first}
  }

  /** The nodes follow each other in memory, after the one before the first. */
  ghost predicate Linked(m: Memory, first: Pointer, nodes: seq<Pointer>) {
    && Owned(first, nodes) <= m.Keys && first !in nodes && m[first].value == 0
    && (forall i, j :: 0 <= i < j < |nodes| ==> nodes[i] != nodes[j])
    && (forall k: nat :: k <= |nodes| ==> Follows(m, first, nodes, k))
  }

  ghost predicate Follows(m: Memory, first: Pointer, nodes: seq<Pointer>, k: nat)
    requires k <= |nodes|
  {
    Preceding(first, nodes, k) in m && m[Preceding(first, nodes, k)].next == NodeAt(nodes, k)
  }

  function ValuesIn(m: Memory, nodes: seq<Pointer>): (v: seq<nat>)
    requires forall i :: 0 <= i < |nodes| ==> nodes[i] in m
    ensures |v| == |nodes|
  {
    seq(|nodes|, i requires 0 <= i < |nodes| => m[nodes[i]].value)
  }

  lemma LinkedNodes(m: Memory, first: Pointer, nodes: seq<Pointer>)
    requires Linked(m, first, nodes)
    ensures forall i :: 0 <= i < |nodes| ==> nodes[i] in m
  {
  }

  lemma LinkedAt(m: Memory, first: Pointer, nodes: seq<Pointer>, k: nat)
    requires Linked(m, first, nodes) && k <= |nodes|
    ensures Preceding(first, nodes, k) in m && m[Preceding(first, nodes, k)].next == NodeAt(nodes, k)
    ensures k == 0 ==> m[first].value == 0
    ensures k < |nodes| ==> nodes[k] in m && nodes[k] != Preceding(first, nodes, k)
  {
    assert Follows(m, first, nodes, k);
  }

  /** Memory changed only in what one list owns, or owns now and nobody owned. */
  ghost predicate OnlyOwn(m: Memory, owned: set<Pointer>, n: Memory, ownedNow: set<Pointer>) {
    && (forall q :: q in m && q !in owned ==> q in n && n[q] == m[q])
    && forall q :: q in ownedNow ==> q in owned || q !in m
  }

  /** Then every other list is as it was. */
  lemma OthersKept(m: Memory, owned: set<Pointer>, n: Memory, ownedNow: set<Pointer>, first: Pointer,
                   nodes: seq<Pointer>)
    requires OnlyOwn(m, owned, n, ownedNow) && Linked(m, first, nodes) && Owned(first, nodes) !! owned
    ensures Linked(n, first, nodes) && ValuesIn(n, nodes) == ValuesIn(m, nodes) && Owned(first, nodes) !! ownedNow
  {
    forall q | q in Owned(first, nodes) ensures q in n && n[q] == m[q] && q !in ownedNow {}
    forall k: nat | k <= |nodes| ensures Follows(n, first, nodes, k) {
      assert Follows(m, first, nodes, k);
      assert Preceding(first, nodes, k) in Owned(first, nodes);
    }
  }

  /** Linking a new node at a position inserts its value there. */
  lemma InsertLinks(m: Memory, first: Pointer, nodes: seq<Pointer>, k: nat, p: Pointer, n: Memory)
    requires Linked(m, first, nodes) && k <= |nodes| && p !in m
    requires p in n && n[p].next == NodeAt(nodes, k)
    requires var c := Preceding(first, nodes, k);
      && c in m && c in n && n[c].next == p && n[c].value == m[c].value
      && forall q :: q in m && q != c ==> q in n && n[q] == m[q]
    ensures var nodes' := nodes[..k] + [p] + nodes[k..];
      && Linked(n, first, nodes') && OnlyOwn(m, Owned(first, nodes), n, Owned(first, nodes'))
      && ValuesIn(n, nodes') == ValuesIn(m, nodes)[..k] + [n[p].value] + ValuesIn(m, nodes)[k..]
  {
    var nodes' := nodes[..k] + [p] + nodes[k..];
    var c := Preceding(first, nodes, k);
    assert forall q :: q in nodes' <==> q in nodes || q == p;
    forall j: nat | j <= |nodes'| ensures Follows(n, first, nodes', j) {
      if j < k {
        assert Follows(m, first, nodes, j);
      } else if j > k + 1 {
        assert Follows(m, first, nodes, j - 1);
      }
    }
    InsertValues(m, nodes, k, p, n);
  }

  lemma InsertValues(m: Memory, nodes: seq<Pointer>, k: nat, p: Pointer, n: Memory)
    requires k <= |nodes| && p in n && forall i :: 0 <= i < |nodes| ==> nodes[i] in m
    requires forall i :: 0 <= i < |nodes| ==> nodes[i] in n && n[nodes[i]].value == m[nodes[i]].value
    ensures var nodes' := nodes[..k] + [p] + nodes[k..];
      && (forall i :: 0 <= i < |nodes'| ==> nodes'[i] in n)
      && ValuesIn(n, nodes') == ValuesIn(m, nodes)[..k] + [n[p].value] + ValuesIn(m, nodes)[k..]
  {
    var nodes' := nodes[..k] + [p] + nodes[k..];
    assert forall i :: 0 <= i < |nodes'| ==>
      nodes'[i] == if i < k then nodes[i] else if i == k then p else nodes[i - 1];
  }

  lemma WithoutNode(nodes: seq<Pointer>, k: nat)
    requires k < |nodes| && forall i, j :: 0 <= i < j < |nodes| ==> nodes[i] != nodes[j]
    ensures var nodes' := nodes[..k] + nodes[k + 1..];
      && (forall i :: 0 <= i < |nodes'| ==> nodes'[i] == nodes[if i < k then i else i + 1])
      && (forall q :: q in nodes' ==> q in nodes && q != nodes[k])
      && (forall i, j :: 0 <= i < j < |nodes'| ==> nodes'[i] != nodes'[j])
  {
    var nodes' := nodes[..k] + nodes[k + 1..];
    forall q | q in nodes' ensures q in nodes && q != nodes[k] {
      var i :| 0 <= i < |nodes'| && nodes'[i] == q;
      assert q == nodes[if i < k then i else i + 1];
    }
  }

  /** Unlinking the node at a position removes its value. */
  lemma EraseLinks(m: Memory, first: Pointer, nodes: seq<Pointer>, k: nat, n: Memory)
    requires Linked(m, first, nodes) && k < |nodes| && nodes[k] !in n
    requires var c := Preceding(first, nodes, k);
      && c in m && c in n && n[c].next == NodeAt(nodes, k + 1) && n[c].value == m[c].value
      && forall q :: q in m && q != c && q != nodes[k] ==> q in n && n[q] == m[q]
    ensures var nodes' := nodes[..k] + nodes[k + 1..];
      && Linked(n, first, nodes') && OnlyOwn(m, Owned(first, nodes), n, Owned(first, nodes'))
      && ValuesIn(n, nodes') == ValuesIn(m, nodes)[..k] + ValuesIn(m, nodes)[k + 1..]
  {
    var nodes' := nodes[..k] + nodes[k + 1..];
    WithoutNode(nodes, k);
    forall j: nat | j <= |nodes'| ensures Follows(n, first, nodes', j) {
      if j <= k {
        assert Follows(m, first, nodes, j);
      } else {
        assert Follows(m, first, nodes, j + 1);
      }
    }
    EraseValues(m, nodes, k, n);
  }

  lemma EraseValues(m: Memory, nodes: seq<Pointer>, k: nat, n: Memory)
    requires k < |nodes| && forall i :: 0 <= i < |nodes| ==> nodes[i] in m
    requires forall i :: 0 <= i < |nodes| && i != k ==> nodes[i] in n && n[nodes[i]].value == m[nodes[i]].value
    ensures var nodes' := nodes[..k] + nodes[k + 1..];
      && (forall i :: 0 <= i < |nodes'| ==> nodes'[i] in n)
      && ValuesIn(n, nodes') == ValuesIn(m, nodes)[..k] + ValuesIn(m, nodes)[k + 1..]
  {
    var nodes' := nodes[..k] + nodes[k + 1..];
    assert forall i :: 0 <= i < |nodes'| ==> nodes'[i] == nodes[if i < k then i else i + 1];
  }

  // ---- the lists of an allocator ----

  /** A position in a list: a node, and the node before it for inserting and erasing. */
  datatype Iter = Iter(cur: Pointer, back: Pointer)

  /** Every list is linked with these elements, and no two lists share a node. */
  ghost predicate Listed(m: Memory, nodes: map<Pointer, seq<Pointer>>, contents: map<Pointer, seq<nat>>) {
    && nodes.Keys == contents.Keys
    && (forall l :: l in nodes ==> Linked(m, l, nodes[l]) && ValuesIn(m, nodes[l]) == contents[l])
    && forall l, k :: l in nodes && k in nodes && l != k ==> Owned(l, nodes[l]) !! Owned(k, nodes[k])
  }

  /** An iterator has reached a position of a list. */
  ghost predicate IterAt(nodes: map<Pointer, seq<Pointer>>, l: Pointer, it: Iter, at: nat) {
    l in nodes && at <= |nodes[l]| && it == Iter(NodeAt(nodes[l], at), Preceding(l, nodes[l], at))
  }

  /** A change to what one list owns leaves every other list as it was. */
  lemma OneChanged(m: Memory, nodes: map<Pointer, seq<Pointer>>, contents: map<Pointer, seq<nat>>, l: Pointer,
                   n: Memory, now: seq<Pointer>)
    requires Listed(m, nodes, contents)
    requires Linked(n, l, now)
    requires OnlyOwn(m, if l in nodes then Owned(l, nodes[l]) else {}, n, Owned(l, now))
    ensures Listed(n, nodes[l := now], contents[l := ValuesIn(n, now)])
  {
    hide OnlyOwn, ValuesIn, Follows;
    forall k | k in nodes && k != l
      ensures Linked(n, k, nodes[k]) && ValuesIn(n, nodes[k]) == contents[k] && Owned(k, nodes[k]) !! Owned(l, now)
    {
      OthersKept(m, if l in nodes then Owned(l, nodes[l]) else {}, n, Owned(l, now), k, nodes[k]);
    }
  }

  ghost predicate SameBut<T(!new)>(was: map<Pointer, T>, now: map<Pointer, T>, l: Pointer) {
    l in now && now == was[l := now[l]]
  }

  lemma SameAtFirst<T(!new)>(m: map<Pointer, T>, l: Pointer)
    requires l in m
    ensures SameBut(m, m, l)
  {
  }

  lemma StillSame<T(!new)>(was: map<Pointer, T>, mid: map<Pointer, T>, now: map<Pointer, T>, l: Pointer)
    requires SameBut(was, mid, l) && l in now && now == mid[l := now[l]]
    ensures SameBut(was, now, l)
  {
  }

  lemma SameMeans<T(!new)>(was: map<Pointer, T>, now: map<Pointer, T>, l: Pointer)
    requires SameBut(was, now, l)
    ensures l in now && now == was[l := now[l]]
  {
  }

  /** The forward lists that live in one allocator, each known by the node before its first
      element. */
  class ListStore {
    const alloc: Allocator
    ghost var nodes: map<Pointer, seq<Pointer>>
    /** The elements of each list. */
    ghost var contents: map<Pointer, seq<nat>>

    ghost predicate Valid()
      reads this, alloc
    {
      alloc.Valid() && Listed(alloc.Words(), nodes, contents)
    }

    ghost predicate At(l: Pointer, it: Iter, at: nat)
      reads this
    {
      IterAt(nodes, l, it, at)
    }

    constructor ()
      ensures Valid() && contents == map[] && fresh(alloc)
    {
      alloc := new Allocator();
      nodes, contents := map[], map[];
    }

    /** A node of its own for a new list. */
    method LinkNew() returns (l: Pointer)
      requires alloc.Valid()
      modifies alloc
      ensures alloc.Valid() && l !in old(alloc.Words()) && Linked(alloc.Words(), l, [])
      ensures OnlyOwn(old(alloc.Words()), {}, alloc.Words(), Owned(l, []))
    {
      l := alloc.Allocate();
      alloc.Put(l, Word(0, 0));
      assert Follows(alloc.Words(), l, [], 0);
    }

    /** A new list is empty, and no other list has its address. */
    method NewList() returns (l: Pointer)
      requires Valid()
      modifies this, alloc
      ensures Valid() && l !in old(contents) && contents == old(contents)[l := []]
      ensures nodes == old(nodes)[l := []]
    {
      hide Listed, Linked, ValuesIn, OnlyOwn, Allocator.Valid, Allocator.Words;
      ghost var m := alloc.Words();
      l := LinkNew();
      FreshList(m, nodes, contents, l);
      OneChanged(m, nodes, contents, l, alloc.Words(), []);
      nodes, contents := nodes[l := []], contents[l := []];
    }

    lemma FreshList(m: Memory, nodes: map<Pointer, seq<Pointer>>, contents: map<Pointer, seq<nat>>, l: Pointer)
      requires Listed(m, nodes, contents) && l !in m
      ensures l !in nodes && l !in contents
    {
      assert forall k :: k in nodes ==> k in m;
    }

    lemma InNodes(l: Pointer)
      requires Valid() && l in contents
      ensures l in nodes
    {
    }

    /** The list as the lemmas about memory see it. */
    lemma ListIn(l: Pointer)
      requires Valid() && l in nodes
      ensures l in contents && Linked(alloc.Words(), l, nodes[l]) && ValuesIn(alloc.Words(), nodes[l]) == contents[l]
      ensures |contents[l]| == |nodes[l]|
    {
    }

    /** Link a new node after the one that precedes a position of a list. */
    method LinkAfter(cur: Pointer, value: nat, ghost l: Pointer, ghost list: seq<Pointer>, ghost at: nat)
      returns (p: Pointer)
      requires alloc.Valid() && Linked(alloc.Words(), l, list) && at <= |list| && cur == Preceding(l, list, at)
      modifies alloc
      ensures alloc.Valid() && Linked(alloc.Words(), l, list[..at] + [p] + list[at..])
      ensures ValuesIn(alloc.Words(), list[..at] + [p] + list[at..])
        == ValuesIn(old(alloc.Words()), list)[..at] + [value] + ValuesIn(old(alloc.Words()), list)[at..]
      ensures OnlyOwn(old(alloc.Words()), Owned(l, list), alloc.Words(), Owned(l, list[..at] + [p] + list[at..]))
    {
      hide Linked, ValuesIn, OnlyOwn, Allocator.Valid, Allocator.Words;
      ghost var m := alloc.Words();
      LinkedAt(m, l, list, at);
      LinkedNodes(m, l, list);
      p := alloc.Allocate();
      ghost var m1 := alloc.Words();
      assert cur in m && m1[cur] == m[cur];
      var here := alloc.Read(cur);
      var stale := alloc.Read(p);
      alloc.Put(p, stale.(next := here.next).(value := value));
      alloc.Put(cur, here.(next := p));
      InsertLinks(m, l, list, at, p, alloc.Words());
    }

    /** Unlink the node at a position and give it back; the next one. */
    method UnlinkAfter(cur: Pointer, ghost l: Pointer, ghost list: seq<Pointer>, ghost at: nat) returns (next: Pointer)
      requires alloc.Valid() && Linked(alloc.Words(), l, list) && at < |list| && cur == Preceding(l, list, at)
      modifies alloc
      ensures alloc.Valid() && Linked(alloc.Words(), l, list[..at] + list[at + 1..])
      ensures ValuesIn(alloc.Words(), list[..at] + list[at + 1..])
        == ValuesIn(old(alloc.Words()), list)[..at] + ValuesIn(old(alloc.Words()), list)[at + 1..]
      ensures OnlyOwn(old(alloc.Words()), Owned(l, list), alloc.Words(), Owned(l, list[..at] + list[at + 1..]))
      ensures next == NodeAt(list, at + 1)
    {
      hide Linked, ValuesIn, OnlyOwn, Allocator.Valid, Allocator.Words;
      ghost var m := alloc.Words();
      LinkedAt(m, l, list, at);
      LinkedAt(m, l, list, at + 1);
      LinkedNodes(m, l, list);
      var here := alloc.Read(cur);
      var p := here.next;
      assert p == list[at] != cur;
      var nextObject := alloc.FreeThenRead(p);
      alloc.Put(cur, here.(next := nextObject.next));
      EraseLinks(m, l, list, at, alloc.Words());
      next := nextObject.next;
    }

    /** Put a node after the one that precedes a position. */
    method InsertAfter(cur: Pointer, value: nat, ghost l: Pointer, ghost at: nat) returns (p: Pointer)
      requires Valid() && l in nodes && at <= |nodes[l]| && cur == Preceding(l, nodes[l], at)
      modifies this, alloc
      ensures Valid() && l in old(contents) && at <= |old(contents)[l]|
      ensures nodes == old(nodes)[l := old(nodes)[l][..at] + [p] + old(nodes)[l][at..]]
      ensures contents == old(contents)[l := old(contents)[l][..at] + [value] + old(contents)[l][at..]]
    {
      hide Listed, Linked, ValuesIn, OnlyOwn, Allocator.Valid, Allocator.Words;
      ListIn(l);
      ghost var m, list := alloc.Words(), nodes[l];
      p := LinkAfter(cur, value, l, list, at);
      ghost var now := list[..at] + [p] + list[at..];
      LinkedNodes(alloc.Words(), l, now);
      OneChanged(m, nodes, contents, l, alloc.Words(), now);
      nodes, contents := nodes[l := now], contents[l := ValuesIn(alloc.Words(), now)];
    }

    /** Remove the node at a position, which the given node precedes; the next one. */
    method EraseAfter(cur: Pointer, ghost l: Pointer, ghost at: nat) returns (next: Pointer)
      requires Valid() && l in nodes && at < |nodes[l]| && cur == Preceding(l, nodes[l], at)
      modifies this, alloc
      ensures Valid() && l in old(contents) && at < |old(contents)[l]|
      ensures nodes == old(nodes)[l := old(nodes)[l][..at] + old(nodes)[l][at + 1..]] && next == NodeAt(nodes[l], at)
      ensures contents == old(contents)[l := old(contents)[l][..at] + old(contents)[l][at + 1..]]
    {
      hide Listed, Linked, ValuesIn, OnlyOwn, Allocator.Valid, Allocator.Words;
      ListIn(l);
      ghost var m, list := alloc.Words(), nodes[l];
      next := UnlinkAfter(cur, l, list, at);
      ghost var now := list[..at] + list[at + 1..];
      LinkedNodes(alloc.Words(), l, now);
      OneChanged(m, nodes, contents, l, alloc.Words(), now);
      nodes, contents := nodes[l := now], contents[l := ValuesIn(alloc.Words(), now)];
    }

    /** An iterator at the first element. */
    method Begin(l: Pointer) returns (it: Iter)
      requires Valid() && l in contents
      ensures At(l, it, 0)
    {
      InNodes(l);
      hide Listed, Linked, ValuesIn;
      ListIn(l);
      LinkedAt(alloc.Words(), l, nodes[l], 0);
      var first := alloc.Read(l);
      if first == Word(0, 0) { return Iter(0, l); }
      it := Iter(first.next, l);
    }

    /** Addresses in use are not null. */
    lemma NotNull(p: Pointer)
      requires alloc.Valid() && p in alloc.live
      ensures p != 0
    {
      assert alloc.Backed(p);
    }

    method AtEnd(it: Iter, ghost l: Pointer, ghost at: nat) returns (end: bool)
      requires Valid() && At(l, it, at)
      ensures at <= |contents[l]| && (end <==> at == |contents[l]|)
    {
      ListIn(l);
      if at < |nodes[l]| { NotNull(nodes[l][at]); }
      end := it.cur == 0;
    }

    method Value(it: Iter, ghost l: Pointer, ghost at: nat) returns (v: nat)
      requires Valid() && At(l, it, at) && at < |contents[l]|
      ensures v == contents[l][at]
    {
      ListIn(l);
      var w := alloc.Read(it.cur);
      v := w.value;
    }

    method Next(it: Iter, ghost l: Pointer, ghost at: nat) returns (it': Iter)
      requires Valid() && At(l, it, at) && at < |contents[l]|
      ensures At(l, it', at + 1)
    {
      ListIn(l);
      LinkedAt(alloc.Words(), l, nodes[l], at + 1);
      var w := alloc.Read(it.cur);
      it' := Iter(w.next, it.cur);
    }

    /** Insert before the current element; the new one becomes current. */
    method Insert(it: Iter, value: nat, ghost l: Pointer, ghost at: nat) returns (it': Iter)
      requires Valid() && At(l, it, at)
      modifies this, alloc
      ensures Valid() && At(l, it', at) && nodes == old(nodes)[l := nodes[l]]
      ensures at <= |old(contents)[l]|
      ensures contents == old(contents)[l := old(contents)[l][..at] + [value] + old(contents)[l][at..]]
    {
      hide Listed, Linked, ValuesIn;
      ListIn(l);
      var p := InsertAfter(it.back, value, l, at);
      it' := Iter(p, it.back);
    }

    /** Remove the current element; the one after it becomes current. */
    method Erase(it: Iter, ghost l: Pointer, ghost at: nat) returns (it': Iter)
      requires Valid() && At(l, it, at) && at < |contents[l]|
      modifies this, alloc
      ensures Valid() && At(l, it', at) && nodes == old(nodes)[l := nodes[l]]
      ensures contents == old(contents)[l := old(contents)[l][..at] + old(contents)[l][at + 1..]]
    {
      hide Listed, Linked, ValuesIn;
      ListIn(l);
      var next := EraseAfter(it.back, l, at);
      it' := Iter(next, it.back);
    }

    /** A list whose first node is null is empty. */
    lemma NoFirst(l: Pointer)
      requires Valid() && l in nodes && NodeAt(nodes[l], 0) == 0
      ensures l in contents && nodes[l] == [] && contents[l] == []
    {
      if nodes[l] != [] { NotNull(nodes[l][0]); }
    }

    method Clear(l: Pointer)
      requires Valid() && l in contents
      modifies this, alloc
      ensures Valid() && contents == old(contents)[l := []] && nodes == old(nodes)[l := []]
    {
      InNodes(l);
      hide Listed, Linked, ValuesIn, NodeAt, Preceding, SameBut;
      var it := Begin(l);
      var next := it.cur;
      SameAtFirst(nodes, l);
      SameAtFirst(contents, l);
      while next != 0
        invariant Valid() && l in nodes && l in contents && next == NodeAt(nodes[l], 0)
        invariant SameBut(old(nodes), nodes, l) && SameBut(old(contents), contents, l)
        decreases |nodes[l]|
      {
        FirstNode(l);
        ghost var midNodes, midContents := nodes, contents;
        next := EraseAfter(l, l, 0);
        StillSame(old(nodes), midNodes, nodes, l);
        StillSame(old(contents), midContents, contents, l);
      }
      NoFirst(l);
      SameMeans(old(nodes), nodes, l);
      SameMeans(old(contents), contents, l);
    }

    lemma FirstNode(l: Pointer)
      requires l in nodes && NodeAt(nodes[l], 0) != 0
      ensures |nodes[l]| > 0 && l == Preceding(l, nodes[l], 0)
    {
    }
  }
}
