// The MurmurHash3 functions of src/ez_hash.c. A key is read in blocks, little end
// first; the bytes left over form one more block filled up with zeros, which goes
// into the lanes by exclusive or alone.

module Murmur {
  import opened MurmurSteps
  import opened Words

  // ----- Folding blocks into a state -----

  function Fold<S, K>(step: (S, K) -> S, s: S, ks: seq<K>): S {
    if ks == [] then s else step(Fold(step, s, ks[..|ks| - 1]), ks[|ks| - 1])
  }

  function Unfold<S, K>(unstep: (S, K) -> S, s: S, ks: seq<K>): S {
    if ks == [] then s else Unfold(unstep, unstep(s, ks[|ks| - 1]), ks[..|ks| - 1])
  }

  ghost predicate Undoes<S(!new), K(!new)>(unstep: (S, K) -> S, step: (S, K) -> S) {
    forall s, k :: unstep(step(s, k), k) == s
  }

  lemma {:induction false} FoldUndo<S(!new), K(!new)>(step: (S, K) -> S, unstep: (S, K) -> S, s: S, ks: seq<K>)
    requires Undoes(unstep, step)
    ensures Unfold(unstep, Fold(step, s, ks), ks) == s
  {
    if ks != [] {
      FoldUndo(step, unstep, s, ks[..|ks| - 1]);
    }
  }

  lemma {:induction false} UnfoldUndo<S(!new), K(!new)>(step: (S, K) -> S, unstep: (S, K) -> S, s: S, ks: seq<K>)
    requires Undoes(step, unstep)
    ensures Fold(step, Unfold(unstep, s, ks), ks) == s
  {
    if ks != [] {
      UnfoldUndo(step, unstep, unstep(s, ks[|ks| - 1]), ks[..|ks| - 1]);
    }
  }

  // Sequences of blocks that differ in one place lead to different states.
  lemma {:induction false} FoldDiffers<S(!new), K(!new)>(step: (S, K) -> S, unstep: (S, K) -> S, s: S,
                                                              ks: seq<K>, ks': seq<K>, b: nat)
    requires Undoes(unstep, step) && |ks| == |ks'| && b < |ks|
    requires forall i :: 0 <= i < |ks| && i != b ==> ks[i] == ks'[i]
    requires forall h :: step(h, ks[b]) != step(h, ks'[b])
    ensures Fold(step, s, ks) != Fold(step, s, ks')
  {
    var n := |ks| - 1;
    if b == n {
      assert ks[..n] == ks'[..n];
    } else {
      FoldDiffers(step, unstep, s, ks[..n], ks'[..n], b);
      assert unstep(step(Fold(step, s, ks[..n]), ks[n]), ks[n]) != unstep(step(Fold(step, s, ks'[..n]), ks[n]), ks[n]);
    }
  }

  lemma FoldNone<S, K>(step: (S, K) -> S, s: S, ks: seq<K>)
    ensures Fold(step, s, ks[..0]) == s
  {
  }

  lemma FoldOne<S, K>(step: (S, K) -> S, s: S, ks: seq<K>, n: nat)
    requires n < |ks|
    ensures Fold(step, s, ks[..n + 1]) == step(Fold(step, s, ks[..n]), ks[n])
  {
    assert ks[..n + 1][..n] == ks[..n];
  }

  // ----- Reading the key -----

  function Byte(key: seq<bv8>, i: nat): bv8 {
    if i < |key| then key[i] else 0
  }

  function Pack32(b0: bv8, b1: bv8, b2: bv8, b3: bv8): bv32 {
    (b3 as bv32 << 24) ^ (b2 as bv32 << 16) ^ (b1 as bv32 << 8) ^ b0 as bv32
  }

  lemma Pack32Injective(a0: bv8, a1: bv8, a2: bv8, a3: bv8, b0: bv8, b1: bv8, b2: bv8, b3: bv8)
    requires Pack32(a0, a1, a2, a3) == Pack32(b0, b1, b2, b3)
    ensures a0 == b0 && a1 == b1 && a2 == b2 && a3 == b3
  {
  }

  function Load32(key: seq<bv8>, w: nat): bv32 {
    Pack32(Byte(key, 4 * w), Byte(key, 4 * w + 1), Byte(key, 4 * w + 2), Byte(key, 4 * w + 3))
  }

  function Pack64(lo: bv32, hi: bv32): bv64 {
    (hi as bv64 << 32) ^ lo as bv64
  }

  lemma Pack64Injective(a: bv32, b: bv32, c: bv32, d: bv32)
    requires Pack64(a, b) == Pack64(c, d)
    ensures a == c && b == d
  {
  }

  function Load64(key: seq<bv8>, w: nat): bv64 {
    Pack64(Load32(key, 2 * w), Load32(key, 2 * w + 1))
  }

  // Different keys of one length that agree outside of one window.
  ghost predicate DifferOnlyIn(key: seq<bv8>, key': seq<bv8>, from: nat, to: nat) {
    && |key| == |key'| && key != key'
    && forall i :: 0 <= i < |key| && !(from <= i < to) ==> key[i] == key'[i]
  }

  lemma NoTail(key: seq<bv8>, w: nat)
    requires 4 * w >= |key|
    ensures Load32(key, w) == 0
  {
  }

  lemma NoTail64(key: seq<bv8>, w: nat)
    requires 8 * w >= |key|
    ensures Load64(key, w) == 0
  {
    NoTail(key, 2 * w);
    NoTail(key, 2 * w + 1);
  }

  lemma WindowInside(key: seq<bv8>, key': seq<bv8>, from: nat, to: nat)
    requires DifferOnlyIn(key, key', from, to)
    ensures from < |key|
  {
  }

  lemma LoadDiffers(key: seq<bv8>, key': seq<bv8>, w: nat)
    requires DifferOnlyIn(key, key', 4 * w, 4 * w + 4)
    ensures Load32(key, w) != Load32(key', w)
    ensures forall v: nat :: v != w ==> Load32(key, v) == Load32(key', v)
  {
    hide Load32;
    var i :| 0 <= i < |key| && key[i] != key'[i];
    LoadByte(key, key', w, i);
    forall v: nat | v != w ensures Load32(key, v) == Load32(key', v) {
      LoadSame(key, key', v);
    }
  }

  // The same for the four words of a block of 16 bytes.
  lemma BlockDiffers(key: seq<bv8>, key': seq<bv8>, b: nat) returns (j: nat)
    requires DifferOnlyIn(key, key', 16 * b, 16 * b + 16)
    ensures j < 4 && Load32(key, 4 * b + j) != Load32(key', 4 * b + j)
    ensures forall w: nat :: w / 4 != b ==> Load32(key, w) == Load32(key', w)
  {
    hide Load32;
    var i :| 0 <= i < |key| && key[i] != key'[i];
    j := (i - 16 * b) / 4;
    LoadByte(key, key', 4 * b + j, i);
    forall w: nat | w / 4 != b ensures Load32(key, w) == Load32(key', w) {
      LoadSame(key, key', w);
    }
  }

  lemma LoadByte(key: seq<bv8>, key': seq<bv8>, w: nat, i: nat)
    requires 4 * w <= i < 4 * w + 4 && Byte(key, i) != Byte(key', i)
    ensures Load32(key, w) != Load32(key', w)
  {
    hide Pack32;
    if Load32(key, w) == Load32(key', w) {
      Pack32Injective(Byte(key, 4 * w), Byte(key, 4 * w + 1), Byte(key, 4 * w + 2), Byte(key, 4 * w + 3),
                      Byte(key', 4 * w), Byte(key', 4 * w + 1), Byte(key', 4 * w + 2), Byte(key', 4 * w + 3));
    }
  }

  lemma LoadSame(key: seq<bv8>, key': seq<bv8>, w: nat)
    requires |key| == |key'| && forall i :: 4 * w <= i < 4 * w + 4 && i < |key| ==> key[i] == key'[i]
    ensures Load32(key, w) == Load32(key', w)
  {
  }

  // A key and the same key with zeros behind it.
  ghost predicate Padded(key: seq<bv8>, key': seq<bv8>) {
    key < key' && forall i :: |key| <= i < |key'| ==> key'[i] == 0
  }

  // Their words are the same, only the length tells them apart.
  lemma PaddedLoad(key: seq<bv8>, key': seq<bv8>, w: nat)
    requires Padded(key, key')
    ensures Load32(key, w) == Load32(key', w)
  {
    hide Pack32;
    assert forall i: nat :: Byte(key, i) == Byte(key', i);
  }

  // One byte of a word of 32 bits.
  function Put32(k: bv32, b: bv8, n: bv32): bv32
    requires n <= 32
  {
    k ^ (b as bv32 << n)
  }

  lemma PutZero32()
    ensures forall k, n :: n <= 32 ==> Put32(k, 0, n) == k
  {
  }

  // A word is four bytes, the last one first.
  lemma Pack32Bytes(b0: bv8, b1: bv8, b2: bv8, b3: bv8)
    ensures Pack32(b0, b1, b2, b3) == Put32(Put32(Put32(Put32(0, b3, 24), b2, 16), b1, 8), b0, 0)
  {
  }

  // The bytes of a tail from word `w` on, as the cases of the source's switch fall
  // through them.
  method TailWord32(key: seq<bv8>, w: nat) returns (k: bv32)
    ensures k == Load32(key, w)
  {
    hide Pack32, Put32;
    var at := 4 * w;
    PutZero32();
    Pack32Bytes(Byte(key, at), Byte(key, at + 1), Byte(key, at + 2), Byte(key, at + 3));
    k := 0;
    if at + 3 < |key| {
      k := Put32(k, key[at + 3], 24);
    }
    if at + 2 < |key| {
      k := Put32(k, key[at + 2], 16);
    }
    if at + 1 < |key| {
      k := Put32(k, key[at + 1], 8);
    }
    if at < |key| {
      k := Put32(k, key[at], 0);
    }
  }

  // One byte of a word of 64 bits.
  function Put64(k: bv64, b: bv8, n: bv64): bv64
    requires n <= 64
  {
    k ^ (b as bv64 << n)
  }

  lemma PutZero64()
    ensures forall k, n :: n <= 64 ==> Put64(k, 0, n) == k
  {
  }

  // Two words of 32 bits are eight bytes, the last one first.
  lemma Pack64Bytes(b0: bv8, b1: bv8, b2: bv8, b3: bv8, b4: bv8, b5: bv8, b6: bv8, b7: bv8)
    ensures
      var hi := Put64(Put64(Put64(Put64(0, b7, 56), b6, 48), b5, 40), b4, 32);
      Pack64(Pack32(b0, b1, b2, b3), Pack32(b4, b5, b6, b7)) == Put64(Put64(Put64(Put64(hi, b3, 24), b2, 16), b1, 8), b0, 0)
  {
  }

  method TailWord64(key: seq<bv8>, w: nat) returns (k: bv64)
    ensures k == Load64(key, w)
  {
    hide Pack32, Pack64, Put64;
    var at := 8 * w;
    PutZero64();
    Pack64Bytes(Byte(key, at), Byte(key, at + 1), Byte(key, at + 2), Byte(key, at + 3),
                Byte(key, at + 4), Byte(key, at + 5), Byte(key, at + 6), Byte(key, at + 7));
    k := 0;
    if at + 7 < |key| {
      k := Put64(k, key[at + 7], 56);
    }
    if at + 6 < |key| {
      k := Put64(k, key[at + 6], 48);
    }
    if at + 5 < |key| {
      k := Put64(k, key[at + 5], 40);
    }
    if at + 4 < |key| {
      k := Put64(k, key[at + 4], 32);
    }
    if at + 3 < |key| {
      k := Put64(k, key[at + 3], 24);
    }
    if at + 2 < |key| {
      k := Put64(k, key[at + 2], 16);
    }
    if at + 1 < |key| {
      k := Put64(k, key[at + 1], 8);
    }
    if at < |key| {
      k := Put64(k, key[at], 0);
    }
  }

  // The length of a key is an int.
  const LENGTH_LIMIT := 0x8000_0000
}
