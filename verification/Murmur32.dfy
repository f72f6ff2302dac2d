// MurmurHash3_x86_32 of src/ez_hash.c.

module Murmur32 {
  import opened Murmur
  import opened MurmurSteps
  import opened Words

  const C1 := 0xcc9e2d51
  const C2 := 0x1b873593

  function Mix(k: bv32): bv32 {
    Mix32(k, C1, 15, C2)
  }

  function Step(h: bv32, k: bv32): bv32 {
    Lane32(h, Mix(k), 13, 0, 0xe6546b64)
  }

  function Unstep(h: bv32, k: bv32): bv32 {
    Unlane32(h, Mix(k), 13, 0, 0xe6546b64)
  }

  function Blocks(key: seq<bv8>): seq<bv32> {
    seq(|key| / 4, i requires 0 <= i => Load32(key, i))
  }

  // The tail, the length and the final mix.
  function Finish(h: bv32, tail: bv32, length: bv32): bv32 {
    Fmix32(Xor32(Xor32(h, Mix(tail)), length))
  }

  function Unfinish(h: bv32, tail: bv32, length: bv32): bv32 {
    Xor32(Xor32(Unfmix32(h), length), Mix(tail))
  }

  function Hash(key: seq<bv8>, seed: bv32): bv32
    requires |key| < LENGTH_LIMIT
  {
    Finish(Fold(Step, seed, Blocks(key)), Load32(key, |key| / 4), Word32(|key|))
  }

  // The seed that leads to a given hash of a key.
  function SeedFor(key: seq<bv8>, hash: bv32): bv32
    requires |key| < LENGTH_LIMIT
  {
    Unfold(Unstep, Unfinish(hash, Load32(key, |key| / 4), Word32(|key|)), Blocks(key))
  }

  lemma StepUndo()
    ensures Undoes(Unstep, Step) && Undoes(Step, Unstep)
  {
    hide Lane32, Unlane32;
    forall h, k ensures Unstep(Step(h, k), k) == h && Step(Unstep(h, k), k) == h {
      LaneUndo32(h, Mix(k), 13, 0, 0xe6546b64);
    }
  }

  lemma FinishUndo(h: bv32, tail: bv32, length: bv32)
    ensures Unfinish(Finish(h, tail, length), tail, length) == h
    ensures Finish(Unfinish(h, tail, length), tail, length) == h
  {
    hide Fmix32, Unfmix32, Xor32, Mix;
    var m := Mix(tail);
    FmixUndo32(Xor32(Xor32(h, m), length));
    XorUndo32(Xor32(h, m), length);
    XorUndo32(h, m);
    FmixUndo32(h);
    XorUndo32(Unfmix32(h), length);
    XorUndo32(Xor32(Unfmix32(h), length), m);
  }

  // For a key of any length the hash is a bijection of the seed.
  lemma SeedBijection(key: seq<bv8>, seed: bv32, hash: bv32)
    requires |key| < LENGTH_LIMIT
    ensures SeedFor(key, Hash(key, seed)) == seed
    ensures Hash(key, SeedFor(key, hash)) == hash
  {
    hide Finish, Unfinish, Step, Unstep, Fold, Unfold, Load32, Word32;
    var ks, tail, length := Blocks(key), Load32(key, |key| / 4), Word32(|key|);
    StepUndo();
    FinishUndo(Fold(Step, seed, ks), tail, length);
    FoldUndo(Step, Unstep, seed, ks);
    FinishUndo(hash, tail, length);
    UnfoldUndo(Step, Unstep, Unfinish(hash, tail, length), ks);
  }

  lemma MixInjective(k: bv32, k': bv32)
    requires Mix(k) == Mix(k')
    ensures k == k'
  {
    hide Mix32, Unmix32;
    MixUndo32(k, C1, 15, C2);
    MixUndo32(k', C1, 15, C2);
  }

  lemma StepInjective(h: bv32, k: bv32, k': bv32)
    requires Step(h, k) == Step(h, k')
    ensures k == k'
  {
    hide Mix, Lane32;
    LaneInjective32(h, Mix(k), Mix(k'), 13, 0, 0xe6546b64);
    MixInjective(k, k');
  }

  lemma FinishInjective(h: bv32, h': bv32, tail: bv32, tail': bv32, length: bv32)
    requires Finish(h, tail, length) == Finish(h', tail', length)
    ensures h == h' ==> tail == tail'
    ensures tail == tail' ==> h == h'
  {
    hide Fmix32, Unfmix32, Mix, Xor32;
    FinishUndo(h, tail, length);
    FinishUndo(h', tail', length);
    if h == h' {
      FmixUndo32(Xor32(Xor32(h, Mix(tail)), length));
      FmixUndo32(Xor32(Xor32(h, Mix(tail')), length));
      XorUndo32(Xor32(h, Mix(tail)), length);
      XorUndo32(Xor32(h, Mix(tail')), length);
      XorInjective32(h, Mix(tail), Mix(tail'));
      MixInjective(tail, tail');
    }
  }

  // Keys of one length that differ in one block only, or in the tail only, never
  // collide.
  lemma NoCollision(key: seq<bv8>, key': seq<bv8>, seed: bv32, b: nat)
    requires DifferOnlyIn(key, key', 4 * b, 4 * b + 4) && |key| < LENGTH_LIMIT
    ensures Hash(key, seed) != Hash(key', seed)
  {
    hide Finish, Step, Unstep, Fold, Load32, Word32;
    LoadDiffers(key, key', b);
    var ks, ks', n := Blocks(key), Blocks(key'), |key| / 4;
    if b < n {
      StepUndo();
      forall h ensures Step(h, ks[b]) != Step(h, ks'[b]) {
        if Step(h, ks[b]) == Step(h, ks'[b]) {
          StepInjective(h, ks[b], ks'[b]);
        }
      }
      FoldDiffers(Step, Unstep, seed, ks, ks', b);
    } else {
      WindowInside(key, key', 4 * b, 4 * b + 4);
      assert ks == ks';
    }
    if Hash(key, seed) == Hash(key', seed) {
      FinishInjective(Fold(Step, seed, ks), Fold(Step, seed, ks'), Load32(key, n), Load32(key', n), Word32(|key|));
    }
  }

  // Zeros behind a key change the hash, although no block and no tail changes.
  lemma LengthTells(key: seq<bv8>, key': seq<bv8>, seed: bv32)
    requires Padded(key, key') && |key| / 4 == |key'| / 4 && |key'| < LENGTH_LIMIT
    ensures Hash(key, seed) != Hash(key', seed)
  {
    hide Finish, Step, Fold, Load32, Word32;
    var n := |key| / 4;
    forall w: nat ensures Load32(key, w) == Load32(key', w) {
      PaddedLoad(key, key', w);
    }
    assert Blocks(key) == Blocks(key');
    var h, tail := Fold(Step, seed, Blocks(key)), Load32(key, n);
    if Hash(key, seed) == Hash(key', seed) {
      FinishLength(h, tail, Word32(|key|), Word32(|key'|));
      WordNat32(0, |key|);
      WordNat32(0, |key'|);
    }
  }

  lemma FinishLength(h: bv32, tail: bv32, length: bv32, length': bv32)
    requires Finish(h, tail, length) == Finish(h, tail, length')
    ensures length == length'
  {
    hide Fmix32, Unfmix32, Mix, Xor32;
    var m := Xor32(h, Mix(tail));
    FmixUndo32(Xor32(m, length));
    FmixUndo32(Xor32(m, length'));
    XorInjective32(m, length, length');
  }

  method MurmurHash3(key: seq<bv8>, seed: bv32) returns (h1: bv32)
    requires |key| < LENGTH_LIMIT
    ensures h1 == Hash(key, seed)
  {
    hide Fold, Load32, Mul32, Rotl32, Xor32, Add32, Word32, Fmix32;
    var nblocks := |key| / 4;
    h1 := seed;
    ghost var ks := Blocks(key);
    FoldNone(Step, seed, ks);
    var i := -nblocks;
    while i != 0
      invariant -nblocks <= i <= 0
      invariant h1 == Fold(Step, seed, ks[..nblocks + i])
      decreases -i
    {
      FoldOne(Step, seed, ks, nblocks + i);
      var k1 := Load32(key, nblocks + i);
      k1 := Mul32(k1, C1);
      k1 := Rotl32(k1, 15);
      k1 := Mul32(k1, C2);
      h1 := Xor32(h1, k1);
      h1 := Rotl32(h1, 13);
      AddZero32(h1);
      h1 := Add32(Mul32(h1, 5), 0xe6546b64);
      i := i + 1;
    }
    assert ks[..nblocks] == ks;
    var k1 := TailWord32(key, nblocks);
    if |key| % 4 != 0 {
      k1 := Mul32(k1, C1);
      k1 := Rotl32(k1, 15);
      k1 := Mul32(k1, C2);
      h1 := Xor32(h1, k1);
    } else {
      NoTail(key, nblocks);
      MixZero32(C1, 15, C2);
      XorUndo32(h1, 0);
    }
    h1 := Xor32(h1, Word32(|key|));
    h1 := Fmix32(h1);
  }
}
