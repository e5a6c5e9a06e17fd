/** Keys of offers: price, owner and offer id written one after the other with the highest byte
    first, so that comparing keys byte by byte compares the numbers they stand for. */
module OfferKeys {
  import opened Clearing
  import opened Persistence
  import opened Pricing

  const PRICE_BYTES: nat := 6
  const WORD_BYTES: nat := 8

  /** 256 to the n. */
  function Base(n: nat): (b: nat)
    ensures b > 0
  {
    if n == 0 then 1 else 256 * Base(n - 1)
  }

  predicate Bytes(s: seq<nat>) {
    forall i :: 0 <= i < |s| ==> s[i] < 256
  }

  /** The number that bytes stand for, highest byte first. */
  function Value(s: seq<nat>): nat {
    if s == [] then 0 else Value(s[..|s| - 1]) * 256 + s[|s| - 1]
  }

  /** The n low bytes of a number, highest byte first. */
  function BigEndian(x: nat, n: nat): (s: seq<nat>)
    ensures |s| == n && Bytes(s)
  {
    if n == 0 then [] else BigEndian(x / 256, n - 1) + [x % 256]
  }

  lemma {:induction false} ValueWritten(x: nat, n: nat)
    requires x < Base(n)
    ensures Value(BigEndian(x, n)) == x
  {
    if n > 0 {
      var high := BigEndian(x / 256, n - 1);
      ValueWritten(x / 256, n - 1);
      assert (high + [x % 256])[..n - 1] == high;
    }
  }

  lemma {:induction false} ValueBound(s: seq<nat>)
    requires Bytes(s)
    ensures Value(s) < Base(|s|)
  {
    if s != [] { ValueBound(s[..|s| - 1]); }
  }

  lemma {:induction false} ValueAppend(a: seq<nat>, b: seq<nat>)
    ensures Value(a + b) == Value(a) * Base(|b|) + Value(b)
    decreases |b|
  {
    if b == [] {
      assert a + b == a;
    } else {
      var init, last := b[..|b| - 1], b[|b| - 1];
      assert (a + b)[..|a + b| - 1] == a + init;
      ValueAppend(a, init);
      Distribute(Value(a) * Base(|init|), Value(init), 256);
      Swap(Value(a), Base(|init|), 256);
      Commute(256, Base(|init|));
    }
  }

  /** The order in which byte strings of one length compare. */
  ghost predicate Before(a: seq<nat>, b: seq<nat>)
    requires |a| == |b|
  {
    exists i :: 0 <= i < |a| && a[i] < b[i] && a[..i] == b[..i]
  }

  lemma BeforePrefix(a: seq<nat>, b: seq<nat>)
    requires |a| == |b| > 0
    ensures var n := |a| - 1;
      Before(a, b) <==> Before(a[..n], b[..n]) || (a[..n] == b[..n] && a[n] < b[n])
  {
    var n := |a| - 1;
    var x, y := a[..n], b[..n];
    if Before(a, b) {
      var i :| 0 <= i < |a| && a[i] < b[i] && a[..i] == b[..i];
      if i < n { assert x[..i] == a[..i] && y[..i] == b[..i]; }
    }
    if Before(x, y) {
      var i :| 0 <= i < n && x[i] < y[i] && x[..i] == y[..i];
      assert a[..i] == x[..i] && b[..i] == y[..i];
    }
  }

  /** Byte by byte is by value. */
  lemma {:induction false} BeforeByValue(a: seq<nat>, b: seq<nat>)
    requires |a| == |b| && Bytes(a) && Bytes(b)
    ensures Before(a, b) <==> Value(a) < Value(b)
  {
    if a != [] {
      hide Before;
      var n := |a| - 1;
      BeforeByValue(a[..n], b[..n]);
      BeforePrefix(a, b);
      if Value(a[..n]) == Value(b[..n]) { SameValue(a[..n], b[..n]); }
    }
  }

  lemma {:induction false} SameValue(a: seq<nat>, b: seq<nat>)
    requires |a| == |b| && Bytes(a) && Bytes(b) && Value(a) == Value(b)
    ensures a == b
  {
    if a != [] {
      var n := |a| - 1;
      SameValue(a[..n], b[..n]);
      assert a == a[..n] + [a[n]] && b == b[..n] + [b[n]];
    }
  }

  // ---- the key of an offer ----

  function KeyBytes(price: nat, owner: nat, id: nat): (s: seq<nat>)
    ensures |s| == PRICE_BYTES + 2 * WORD_BYTES && Bytes(s)
  {
    BigEndian(price, PRICE_BYTES) + BigEndian(owner, WORD_BYTES) + BigEndian(id, WORD_BYTES)
  }

  function OfferKey(price: nat, owner: nat, id: nat): Key { Value(KeyBytes(price, owner, id)) }

  lemma Bases()
    ensures Base(WORD_BYTES) == TWO_64 && Base(PRICE_BYTES) == MAX_PRICE + 1
  {
    assert Base(2) == 0x1_0000;
    assert Base(4) == 0x1_0000_0000;
    assert Base(6) == 0x1_0000_0000_0000;
  }

  lemma KeyNumber(price: nat, owner: nat, id: nat)
    requires price <= MAX_PRICE && owner < TWO_64 && id < TWO_64
    ensures OfferKey(price, owner, id) == (price * TWO_64 + owner) * TWO_64 + id
  {
    hide Value, BigEndian, Base;
    Bases();
    var p, o, i := BigEndian(price, PRICE_BYTES), BigEndian(owner, WORD_BYTES), BigEndian(id, WORD_BYTES);
    ValueWritten(price, PRICE_BYTES);
    ValueWritten(owner, WORD_BYTES);
    ValueWritten(id, WORD_BYTES);
    ValueAppend(p, o);
    ValueAppend(p + o, i);
  }

  /** The key as a number, and its three parts: the price that clearing compares, the owner that
      it pays, and the id. */
  lemma KeyParts(price: nat, owner: nat, id: nat)
    requires price <= MAX_PRICE && owner < TWO_64 && id < TWO_64
    ensures var k := OfferKey(price, owner, id);
      && k == price * PRICE_SPAN + owner * OWNER_SPAN + id
      && PriceOf(k) == price && OwnerOf(k) == owner && k % OWNER_SPAN == id && k <= MAX_KEY
  {
    hide OfferKey;
    KeyNumber(price, owner, id);
    var k := OfferKey(price, owner, id);
    assert k / OWNER_SPAN == price * TWO_64 + owner;
    assert k / PRICE_SPAN == price;
  }

  /** Two offers have the same key only when they agree in price, owner and id; and keys sort by
      price first. */
  lemma KeysApart(price: nat, owner: nat, id: nat, price': nat, owner': nat, id': nat)
    requires price <= MAX_PRICE && owner < TWO_64 && id < TWO_64
    requires price' <= MAX_PRICE && owner' < TWO_64 && id' < TWO_64
    ensures OfferKey(price, owner, id) == OfferKey(price', owner', id') <==>
      price == price' && owner == owner' && id == id'
    ensures price < price' ==> OfferKey(price, owner, id) < OfferKey(price', owner', id')
    ensures Before(KeyBytes(price, owner, id), KeyBytes(price', owner', id')) <==>
      OfferKey(price, owner, id) < OfferKey(price', owner', id')
  {
    hide KeyBytes, OwnerOf, PriceOf;
    KeyParts(price, owner, id);
    KeyParts(price', owner', id');
    BeforeByValue(KeyBytes(price, owner, id), KeyBytes(price', owner', id'));
  }

  // ---- writing a key ----

  /** Write the n low bytes of a number into a buffer. */
  method WriteBigEndian(buf: array<nat>, x: nat, n: nat, offset: nat)
    requires offset + n <= buf.Length
    modifies buf
    ensures buf[offset..offset + n] == BigEndian(x, n)
    ensures buf[..offset] == old(buf[..offset]) && buf[offset + n..] == old(buf[offset + n..])
  {
    for loc := 0 to n
      invariant buf[offset..offset + loc] == BigEndian(x, n)[..loc]
      invariant buf[..offset] == old(buf[..offset]) && buf[offset + n..] == old(buf[offset + n..])
    {
      ByteAt(x, n, loc);
      buf[offset + loc] := (x / Base(n - loc - 1)) % 256;
      assert buf[offset..offset + loc + 1] == buf[offset..offset + loc] + [buf[offset + loc]];
    }
  }

  lemma {:induction false} ByteAt(x: nat, n: nat, loc: nat)
    requires loc < n
    ensures BigEndian(x, n)[loc] == (x / Base(n - loc - 1)) % 256
  {
    if loc + 1 < n {
      ByteAt(x / 256, n - 1, loc);
      assert Div(Div(x, 256), Base(n - loc - 2)) == Div(x, 256 * Base(n - loc - 2)) by {
        DivTwice(x, 256, Base(n - loc - 2));
      }
    }
  }

  /** The key of an offer in a new buffer. */
  method GenerateOrderbookTrieKey(price: nat, owner: nat, id: nat) returns (buf: array<nat>)
    ensures fresh(buf) && buf[..] == KeyBytes(price, owner, id)
  {
    buf := new nat[PRICE_BYTES + 2 * WORD_BYTES](_ => 0);
    WriteBigEndian(buf, price, PRICE_BYTES, 0);
    WriteBigEndian(buf, owner, WORD_BYTES, PRICE_BYTES);
    WriteBigEndian(buf, id, WORD_BYTES, PRICE_BYTES + WORD_BYTES);
    ghost var s, a, b := buf[..], PRICE_BYTES, PRICE_BYTES + WORD_BYTES;
    assert s == s[..a] + s[a..b] + s[b..];
  }
}
