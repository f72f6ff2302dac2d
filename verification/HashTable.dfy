// The chained hash table of src/ez_hash.c. Each bucket is a circular list with
// the newest item first.

module HashTables {
  import opened Lists
  import opened Sequences
  import opened Words

  datatype Entry<K, V> = Anchor | Item(key: K, val: V)

  // ----- A list of items, newest first -----

  ghost predicate Items<K, V>(s: seq<Entry<K, V>>) {
    forall i :: 0 <= i < |s| ==> s[i].Item?
  }

  // The place of the newest item for a key, the length of the list if there is none.
  ghost function First<K, V>(s: seq<Entry<K, V>>, key: K, eq: (K, K) -> bool): (i: nat)
    requires Items(s)
    ensures i <= |s|
    ensures forall j :: 0 <= j < i ==> !eq(s[j].key, key)
    ensures i < |s| ==> eq(s[i].key, key)
  {
    if s == [] || eq(s[0].key, key) then 0 else 1 + First(s[1..], key, eq)
  }

  ghost function Lookup<K, V>(s: seq<Entry<K, V>>, key: K, eq: (K, K) -> bool, none: V): V
    requires Items(s)
  {
    var i := First(s, key, eq);
    if i < |s| then s[i].val else none
  }

  ghost function Without<K, V>(s: seq<Entry<K, V>>, key: K, eq: (K, K) -> bool): (s': seq<Entry<K, V>>)
    requires Items(s)
    ensures Items(s')
  {
    var i := First(s, key, eq);
    if i < |s| then s[..i] + s[i + 1..] else s
  }

  lemma {:induction false} FirstIs<K, V>(s: seq<Entry<K, V>>, key: K, eq: (K, K) -> bool, i: nat)
    requires Items(s) && i <= |s|
    requires forall j :: 0 <= j < i ==> !eq(s[j].key, key)
    requires i < |s| ==> eq(s[i].key, key)
    ensures First(s, key, eq) == i
  {
    if s != [] && i > 0 {
      FirstIs(s[1..], key, eq, i - 1);
    }
  }

  // ----- The items of one bucket -----

  ghost function Select<K, V>(s: seq<Entry<K, V>>, index: K -> nat, b: nat): (r: seq<Entry<K, V>>)
    requires Items(s)
    ensures Items(r)
  {
    if s == [] then []
    else if index(s[0].key) == b then [s[0]] + Select(s[1..], index, b)
    else Select(s[1..], index, b)
  }

  // Equal keys are in one bucket.
  ghost predicate Consistent<K(!new)>(eq: (K, K) -> bool, index: K -> nat) {
    forall a, b :: eq(a, b) ==> index(a) == index(b)
  }

  // Looking into one bucket is looking into the whole list.
  lemma {:induction false} LookupInBucket<K(!new), V>(s: seq<Entry<K, V>>, key: K, eq: (K, K) -> bool, index: K -> nat, none: V)
    requires Items(s) && Consistent(eq, index)
    ensures Lookup(Select(s, index, index(key)), key, eq, none) == Lookup(s, key, eq, none)
  {
    if s != [] {
      LookupInBucket(s[1..], key, eq, index, none);
      var r := Select(s[1..], index, index(key));
      if index(s[0].key) == index(key) {
        assert ([s[0]] + r)[1..] == r;
      }
    }
  }

  lemma PutInBucket<K, V>(s: seq<Entry<K, V>>, item: Entry<K, V>, index: K -> nat, b: nat)
    requires Items(s) && item.Item?
    ensures Items([item] + s)
    ensures Select([item] + s, index, b) == if index(item.key) == b then [item] + Select(s, index, b) else Select(s, index, b)
  {
    assert ([item] + s)[1..] == s;
  }

  // Deleting in one bucket is deleting in the whole list.
  lemma {:induction false} WithoutInBucket<K(!new), V>(s: seq<Entry<K, V>>, key: K, eq: (K, K) -> bool, index: K -> nat, b: nat)
    requires Items(s) && Consistent(eq, index)
    ensures Select(Without(s, key, eq), index, b) ==
      if b == index(key) then Without(Select(s, index, b), key, eq) else Select(s, index, b)
  {
    if s != [] {
      WithoutInBucket(s[1..], key, eq, index, b);
      WithoutStep(s, key, eq);
      if index(s[0].key) == b {
        var r := Select(s[1..], index, b);
        assert ([s[0]] + r)[1..] == r;
        WithoutStep([s[0]] + r, key, eq);
      }
    }
  }

  lemma WithoutStep<K, V>(s: seq<Entry<K, V>>, key: K, eq: (K, K) -> bool)
    requires Items(s) && s != []
    ensures Without(s, key, eq) == if eq(s[0].key, key) then s[1..] else [s[0]] + Without(s[1..], key, eq)
  {
    hide First, Items;
    FirstStep(s, key, eq);
    TailWithout(s, First(s[1..], key, eq));
  }

  lemma TailWithout<X>(s: seq<X>, i: nat)
    requires s != [] && i <= |s| - 1
    ensures var t := s[1..];
      && [s[0]] + t == s
      && (i < |t| ==> s[..i + 1] + s[i + 2..] == [s[0]] + (t[..i] + t[i + 1..]))
  {
  }

  lemma FirstStep<K, V>(s: seq<Entry<K, V>>, key: K, eq: (K, K) -> bool)
    requires Items(s) && s != []
    ensures s[0].Item? && Items(s[1..])
    ensures First(s, key, eq) == if eq(s[0].key, key) then 0 else First(s[1..], key, eq) + 1
  {
  }

  // What later lookups see of an item put in or taken out.
  lemma LookupAfterPut<K, V>(s: seq<Entry<K, V>>, k: K, v: V, key: K, eq: (K, K) -> bool, none: V)
    requires Items(s)
    ensures Items([Item(k, v)] + s)
    ensures Lookup([Item(k, v)] + s, key, eq, none) == if eq(k, key) then v else Lookup(s, key, eq, none)
  {
    assert ([Item(k, v)] + s)[1..] == s;
  }

  // Deleting undoes putting, so the older value shows again.
  lemma DeleteAfterPut<K, V>(s: seq<Entry<K, V>>, k: K, v: V, eq: (K, K) -> bool)
    requires Items(s) && eq(k, k)
    ensures Items([Item(k, v)] + s)
    ensures Without([Item(k, v)] + s, k, eq) == s
  {
    assert ([Item(k, v)] + s)[1..] == s;
  }

  lemma LookupStep<K, V>(s: seq<Entry<K, V>>, key: K, eq: (K, K) -> bool, none: V)
    requires Items(s) && s != []
    ensures Lookup(s, key, eq, none) == if eq(s[0].key, key) then s[0].val else Lookup(s[1..], key, eq, none)
  {
  }

  // Deleting a key exposes what its older items say, wherever the newest one stood.
  lemma {:induction false} LookupExposed<K, V>(s: seq<Entry<K, V>>, k: K, eq: (K, K) -> bool, none: V)
    requires Items(s)
    ensures var i := First(s, k, eq);
      var older := if i < |s| then s[i + 1..] else [];
      Items(older) && Lookup(Without(s, k, eq), k, eq, none) == Lookup(older, k, eq, none)
  {
    hide Lookup, First;
    if s == [] {
      assert Without(s, k, eq) == s;
    } else {
      FirstStep(s, k, eq);
      WithoutStep(s, k, eq);
      if !eq(s[0].key, k) {
        LookupExposed(s[1..], k, eq, none);
        var r := [s[0]] + Without(s[1..], k, eq);
        assert r[1..] == Without(s[1..], k, eq);
        LookupStep(r, k, eq, none);
        var i := First(s, k, eq);
        assert i < |s| ==> s[i + 1..] == s[1..][i..];
      }
    }
  }

  // A key that no item is equal to together with the deleted key is not affected.
  lemma {:induction false} LookupAfterDelete<K, V>(s: seq<Entry<K, V>>, k: K, key: K, eq: (K, K) -> bool, none: V)
    requires Items(s) && forall i :: 0 <= i < |s| ==> !(eq(s[i].key, k) && eq(s[i].key, key))
    ensures Lookup(Without(s, k, eq), key, eq, none) == Lookup(s, key, eq, none)
  {
    hide Lookup;
    if s == [] {
      assert Without(s, k, eq) == s;
    } else {
      LookupAfterDelete(s[1..], k, key, eq, none);
      WithoutStep(s, k, eq);
      LookupStep(s, key, eq, none);
      if !eq(s[0].key, k) {
        var r := [s[0]] + Without(s[1..], k, eq);
        assert r[1..] == Without(s[1..], k, eq);
        LookupStep(r, key, eq, none);
      }
    }
  }

  // ----- One bucket -----

  class Bucket<K, V> {
    const head: ListHead<Entry<K, V>>
    ghost var nodes: seq<ListHead<Entry<K, V>>>
    ghost var items: seq<Entry<K, V>>
    ghost var repr: set<object>

    ghost predicate Valid()
      reads this, repr
    {
      && repr == {this, head} + (set n | n in nodes)
      && Ring(head, nodes) && Items(items)
      && |nodes| == |items| && forall i :: 0 <= i < |nodes| ==> nodes[i].entry == items[i]
    }

    constructor ()
      ensures Valid() && items == [] && fresh(repr)
    {
      head := new ListHead<Entry<K, V>>.Init(Anchor);
      nodes, items := [], [];
      new;
      repr := {this, head};
    }

    method Put(key: K, val: V)
      requires Valid()
      modifies repr
      ensures Valid() && items == [Item(key, val)] + old(items) && fresh(repr - old(repr))
    {
      hide Ring;
      var nv := new ListHead<Entry<K, V>>(Item(key, val));
      RingNext(head, nodes, 0);
      assert forall i :: 0 <= i < |nodes| ==> nodes[i] in nodes;
      ListAdd(nv, head, head, nodes, 0);
      assert nodes[..0] + [nv] + nodes[0..] == [nv] + nodes;
      nodes, items, repr := [nv] + nodes, [Item(key, val)] + items, repr + {nv};
    }

    // The node of the newest item for a key, or the head.
    method Find(key: K, eq: (K, K) -> bool) returns (i: ListHead<Entry<K, V>>, ghost k: nat)
      requires Valid()
      ensures k == First(items, key, eq) && i == if k < |nodes| then nodes[k] else head
      ensures k < |nodes| ==> i != head
    {
      hide Ring, First;
      k := 0;
      RingNext(head, nodes, 0);
      i := head.next;
      while i != head
        invariant k <= |nodes| && i == (if k < |nodes| then nodes[k] else head) && (k < |nodes| ==> i != head)
        invariant forall j :: 0 <= j < k ==> !eq(items[j].key, key)
        decreases |nodes| - k
      {
        RingNext(head, nodes, k + 1);
        if eq(i.entry.key, key) {
          break;
        }
        i := i.next;
        k := k + 1;
      }
      FirstIs(items, key, eq, k);
    }

    method Get(key: K, eq: (K, K) -> bool, none: V) returns (v: V)
      requires Valid()
      ensures v == Lookup(items, key, eq, none)
    {
      hide Ring, First;
      var i;
      ghost var k;
      i, k := Find(key, eq);
      if i != head {
        return i.entry.val;
      }
      return none;
    }

    static lemma EntriesRemoved(nodes: seq<ListHead<Entry<K, V>>>, items: seq<Entry<K, V>>, k: nat)
      requires |nodes| == |items| && k < |nodes| && Items(items)
      requires forall i :: 0 <= i < |nodes| ==> nodes[i].entry == items[i]
      ensures var nodes', items' := nodes[..k] + nodes[k + 1..], items[..k] + items[k + 1..];
        && |nodes'| == |items'| && Items(items') && (forall n :: n in nodes' ==> n in nodes)
        && forall i :: 0 <= i < |nodes'| ==> nodes'[i].entry == items'[i]
    {
    }

    method Delete(key: K, eq: (K, K) -> bool, none: V) returns (v: V)
      requires Valid()
      modifies repr
      ensures Valid() && v == Lookup(old(items), key, eq, none) && items == Without(old(items), key, eq)
      ensures repr <= old(repr)
    {
      hide Ring, First;
      v := none;
      var i;
      ghost var k;
      i, k := Find(key, eq);
      if i != head {
        v := i.entry.val;
        assert forall j :: 0 <= j < |nodes| ==> nodes[j] in nodes;
        ListDel(i, head, nodes, k);
        EntriesRemoved(nodes, items, k);
        nodes, items := nodes[..k] + nodes[k + 1..], items[..k] + items[k + 1..];
        repr := {this, head} + set n | n in nodes;
      }
    }
  }

  // ----- The table -----

  const HASH_MIN_ITEM_SIZE := 16
  const HASH_MAX_ITEM_SIZE := 1024

  // An int as it compares with an unsigned one.
  function Unsigned(x: int): (u: nat)
    requires -0x8000_0000 <= x < 0x8000_0000
  {
    if x < 0 then x + SIZE32 else x
  }

  // The number of buckets for what the caller asks; a negative wish counts as a
  // huge one.
  method ClampBuckets(wish: int) returns (buckets: nat)
    requires -0x8000_0000 <= wish < 0x8000_0000
    ensures 16 <= buckets <= 1024
    ensures 16 <= wish <= 1024 ==> buckets == wish
    ensures 0 <= wish < 16 ==> buckets == 16
    ensures wish < 0 || wish > 1024 ==> buckets == 1024
  {
    var b := Unsigned(wish);
    b := if HASH_MIN_ITEM_SIZE > b then HASH_MIN_ITEM_SIZE else b;
    b := if HASH_MAX_ITEM_SIZE < b then HASH_MAX_ITEM_SIZE else b;
    buckets := b;
  }

  // The bucket for a hash value, whether `size` is a power of two or not.
  function IndexOf(h: bv32, size: nat): nat
    requires 0 < size <= HASH_MAX_ITEM_SIZE
  {
    Nat32(h & Word32(size - 1))
  }

  lemma MaskAtMost(h: bv32, m: bv32)
    requires m < 1024
    ensures Nat32(h & m) <= Nat32(m)
  {
  }

  lemma SmallWord(n: nat)
    requires n < 1024
    ensures Word32(n) < 1024
  {
  }

  lemma IndexInside(h: bv32, size: nat)
    requires 0 < size <= HASH_MAX_ITEM_SIZE
    ensures IndexOf(h, size) < size
  {
    hide Nat32, Word32;
    SmallWord(size - 1);
    MaskAtMost(h, Word32(size - 1));
    WordNat32(h, size - 1);
  }

  // Hashes fall into one bucket exactly if they agree on the bits of the number of
  // buckets less one.
  lemma IndexSame(h: bv32, h': bv32, size: nat)
    requires 0 < size <= HASH_MAX_ITEM_SIZE
    ensures IndexOf(h, size) == IndexOf(h', size) <==> Masked(Xor32(h, h'), Word32(size - 1)) == 0
  {
    hide Nat32, Word32, Masked, Xor32, IndexOf;
    var m := Word32(size - 1);
    IndexIs(h, size);
    IndexIs(h', size);
    WordNat32(Masked(h, m), 0);
    WordNat32(Masked(h', m), 0);
    MaskSame(h, h', m);
  }

  lemma MaskSame(h: bv32, h': bv32, m: bv32)
    ensures Masked(h, m) == Masked(h', m) <==> Masked(Xor32(h, h'), m) == 0
  {
    hide Masked, Xor32;
    MaskXor(h, h', m);
    XorZero(Masked(h, m), Masked(h', m));
  }

  lemma MaskXor(h: bv32, h': bv32, m: bv32)
    ensures Masked(Xor32(h, h'), m) == Xor32(Masked(h, m), Masked(h', m))
  {
  }

  lemma XorZero(a: bv32, b: bv32)
    ensures Xor32(a, b) == 0 <==> a == b
  {
    hide Xor32;
    XorUndo32(a, b);
    XorUndo32(0, a);
    XorUndo32(a, 0);
    XorUndo32(b, 0);
    XorSwap32(0, a);
    XorSwap32(0, b);
  }

  // A bucket is ever used exactly if its number has no bit that the number of buckets
  // less one has not, and then by the hash that is its number.
  lemma IndexReached(b: nat, size: nat)
    requires b < size <= HASH_MAX_ITEM_SIZE
    ensures (exists h :: IndexOf(h, size) == b) <==> Masked(Word32(b), Word32(size - 1)) == Word32(b)
    ensures Masked(Word32(b), Word32(size - 1)) == Word32(b) ==> IndexOf(Word32(b), size) == b
  {
    hide Nat32, Word32, Masked, IndexOf;
    var m := Word32(size - 1);
    WordNat32(0, b);
    if h :| IndexOf(h, size) == b {
      IndexIs(h, size);
      WordNat32(Masked(h, m), b);
      MaskTwice(h, m);
    }
    IndexIs(Word32(b), size);
  }

  function Masked(h: bv32, m: bv32): bv32 {
    h & m
  }

  lemma IndexIs(h: bv32, size: nat)
    requires 0 < size <= HASH_MAX_ITEM_SIZE
    ensures IndexOf(h, size) == Nat32(Masked(h, Word32(size - 1)))
  {
    hide Nat32, Word32;
  }

  lemma MaskTwice(h: bv32, m: bv32)
    ensures Masked(Masked(h, m), m) == Masked(h, m)
  {
  }

  // Of 17 buckets all but two stay empty.
  lemma SeventeenBuckets(h: bv32)
    ensures IndexOf(h, 17) in {0, 16}
  {
    hide Word32;
    WordOf32(16, 16);
    MaskSixteen(h);
  }

  lemma MaskSixteen(h: bv32)
    ensures h & 16 in {0, 16}
  {
  }

  ghost function IndexIn<K>(hash: K -> bv32, size: nat): K -> nat
    requires 0 < size <= HASH_MAX_ITEM_SIZE
  {
    k => IndexOf(hash(k), size)
  }

  class HashTable<K(!new), V> {
    const eq: (K, K) -> bool
    const hash: K -> bv32
    const none: V  // what NULL is among the values
    const buckets: seq<Bucket<K, V>>
    ghost var items: seq<Entry<K, V>>  // all items, newest first
    ghost var repr: set<object>

    // Every bucket holds the items that belong to it, in order.
    ghost predicate Valid()
      reads this, repr
    {
      && 0 < |buckets| <= HASH_MAX_ITEM_SIZE
      && Items(items) && Consistent(eq, IndexIn(hash, |buckets|))
      && this !in repr
      && (forall i :: 0 <= i < |buckets| ==>
        && buckets[i] in repr && buckets[i].repr <= repr && this !in buckets[i].repr
        && buckets[i].Valid() && buckets[i].items == Select(items, IndexIn(hash, |buckets|), i))
      && (forall i, j :: 0 <= i < j < |buckets| ==> buckets[i].repr !! buckets[j].repr)
    }

    // hash_create
    constructor (eq: (K, K) -> bool, hash: K -> bv32, wish: int, none: V)
      requires forall a, b :: eq(a, b) ==> hash(a) == hash(b)
      requires -0x8000_0000 <= wish < 0x8000_0000
      ensures Valid() && items == [] && fresh(repr)
      ensures this.eq == eq && this.hash == hash && this.none == none
      ensures 16 <= wish <= 1024 ==> |buckets| == wish
      ensures 0 <= wish < 16 ==> |buckets| == 16
      ensures wish < 0 || wish > 1024 ==> |buckets| == 1024
    {
      this.eq, this.hash, this.none := eq, hash, none;
      var size := ClampBuckets(wish);
      var bs: seq<Bucket<K, V>> := [];
      ghost var all: set<object> := {};
      for i := 0 to size
        invariant |bs| == i && fresh(all)
        invariant forall k :: 0 <= k < i ==> bs[k] in all && bs[k].repr <= all && bs[k].Valid() && bs[k].items == []
        invariant forall k, l :: 0 <= k < l < i ==> bs[k].repr !! bs[l].repr
      {
        var b := new Bucket<K, V>();
        assert b in b.repr;
        bs, all := bs + [b], all + b.repr;
      }
      buckets := bs;
      items, repr := [], all;
    }

    // hash_put
    method Put(key: K, val: V) returns (rc: int)
      requires Valid()
      modifies this, repr
      ensures Valid() && items == [Item(key, val)] + old(items) && rc == 0 && fresh(repr - old(repr))
    {
      hide Ring, IndexOf, Select;
      var index := IndexOf(hash(key), |buckets|);
      IndexInside(hash(key), |buckets|);
      forall b: nat {
        PutInBucket(items, Item(key, val), IndexIn(hash, |buckets|), b);
      }
      items := [Item(key, val)] + items;
      buckets[index].Put(key, val);
      repr := repr + buckets[index].repr;
      return 0;
    }

    // hash_get
    method Get(key: K) returns (v: V)
      requires Valid()
      ensures v == Lookup(items, key, eq, none)
    {
      hide Ring, IndexOf, First, Select, Lookup, Without;
      var index := IndexOf(hash(key), |buckets|);
      IndexInside(hash(key), |buckets|);
      LookupInBucket(items, key, eq, IndexIn(hash, |buckets|), none);
      v := buckets[index].Get(key, eq, none);
    }

    // hash_del
    method Delete(key: K) returns (v: V)
      requires Valid()
      modifies this, repr
      ensures Valid() && v == Lookup(old(items), key, eq, none) && items == Without(old(items), key, eq)
      ensures repr <= old(repr)
    {
      hide Ring, IndexOf, First, Select, Lookup, Without;
      var index := IndexOf(hash(key), |buckets|);
      IndexInside(hash(key), |buckets|);
      LookupInBucket(items, key, eq, IndexIn(hash, |buckets|), none);
      forall b: nat {
        WithoutInBucket(items, key, eq, IndexIn(hash, |buckets|), b);
      }
      items := Without(items, key, eq);
      v := buckets[index].Delete(key, eq, none);
    }
  }
}
