// MurmurHash3_x64_128 of src/ez_hash.c.

module Murmur128x64 {
  import opened Murmur
  import opened MurmurSteps
  import opened Words

  const C1 := 0x87c37b91114253d5
  const C2 := 0x4cf5ad432745937f

  // Two lanes, or the two words of a block.
  datatype Pair = Pair(h1: bv64, h2: bv64)

  function Mix(k: Pair): Pair {
    Pair(Mix64(k.h1, C1, 31, C2), Mix64(k.h2, C2, 33, C1))
  }

  lemma MixInjective(k: Pair, k': Pair)
    requires Mix(k) == Mix(k')
    ensures k == k'
  {
    hide Mix64, Unmix64;
    MixUndo64(k.h1, C1, 31, C2);
    MixUndo64(k'.h1, C1, 31, C2);
    MixUndo64(k.h2, C2, 33, C1);
    MixUndo64(k'.h2, C2, 33, C1);
  }

  // One block: the first lane takes up its word and the second lane, the second
  // one its word and the new first lane.
  function Absorb(h: Pair, m: Pair): Pair {
    var h1 := Lane64(h.h1, m.h1, 27, h.h2, 0x52dce729);
    Pair(h1, Lane64(h.h2, m.h2, 31, h1, 0x38495ab5))
  }

  function Unabsorb(h: Pair, m: Pair): Pair {
    var h2 := Unlane64(h.h2, m.h2, 31, h.h1, 0x38495ab5);
    Pair(Unlane64(h.h1, m.h1, 27, h2, 0x52dce729), h2)
  }

  function Step(h: Pair, k: Pair): Pair {
    Absorb(h, Mix(k))
  }

  function Unstep(h: Pair, k: Pair): Pair {
    Unabsorb(h, Mix(k))
  }

  lemma AbsorbUndo(h: Pair, m: Pair)
    ensures Unabsorb(Absorb(h, m), m) == h && Absorb(Unabsorb(h, m), m) == h
  {
    hide Lane64, Unlane64;
    LaneUndo64(h.h2, m.h2, 31, Absorb(h, m).h1, 0x38495ab5);
    LaneUndo64(h.h1, m.h1, 27, h.h2, 0x52dce729);
    LaneUndo64(h.h2, m.h2, 31, h.h1, 0x38495ab5);
    LaneUndo64(h.h1, m.h1, 27, Unabsorb(h, m).h2, 0x52dce729);
  }

  // For a fixed block the step is a bijection of the lanes.
  lemma StepUndo()
    ensures Undoes(Unstep, Step) && Undoes(Step, Unstep)
  {
    hide Absorb, Unabsorb, Mix;
    forall h, k ensures Unstep(Step(h, k), k) == h && Step(Unstep(h, k), k) == h {
      AbsorbUndo(h, Mix(k));
    }
  }

  // For fixed lanes the step is injective in the block.
  lemma StepInjective(h: Pair, k: Pair, k': Pair)
    requires Step(h, k) == Step(h, k')
    ensures k == k'
  {
    hide Mix, Lane64;
    var m, m', n := Mix(k), Mix(k'), Step(h, k);
    LaneInjective64(h.h1, m.h1, m'.h1, 27, h.h2, 0x52dce729);
    LaneInjective64(h.h2, m.h2, m'.h2, 31, n.h1, 0x38495ab5);
    MixInjective(k, k');
  }

  // ----- The end -----

  function Join(h: Pair, m: Pair): Pair {
    Pair(Xor64(h.h1, m.h1), Xor64(h.h2, m.h2))
  }

  lemma JoinUndo(h: Pair, m: Pair)
    ensures Join(Join(h, m), m) == h
  {
    hide Xor64;
    XorUndo64(h.h1, m.h1);
    XorUndo64(h.h2, m.h2);
  }

  lemma JoinInjective(h: Pair, m: Pair, m': Pair)
    requires Join(h, m) == Join(h, m')
    ensures m == m'
  {
    hide Xor64;
    XorInjective64(h.h1, m.h1, m'.h1);
    XorInjective64(h.h2, m.h2, m'.h2);
  }

  function Spread(h: Pair): Pair {
    var h1 := Add64(h.h1, h.h2);
    Pair(h1, Add64(h.h2, h1))
  }

  function Gather(h: Pair): Pair {
    var h2 := Sub64(h.h2, h.h1);
    Pair(Sub64(h.h1, h2), h2)
  }

  lemma SpreadUndo(h: Pair)
    ensures Gather(Spread(h)) == h && Spread(Gather(h)) == h
  {
    hide Add64, Sub64;
    AddUndo64(h.h1, h.h2);
    AddUndo64(h.h2, Spread(h).h1);
    AddUndo64(h.h2, h.h1);
    AddUndo64(h.h1, Gather(h).h2);
  }

  function Fmix(h: Pair): Pair {
    Pair(Fmix64(h.h1), Fmix64(h.h2))
  }

  function Unfmix(h: Pair): Pair {
    Pair(Unfmix64(h.h1), Unfmix64(h.h2))
  }

  lemma FmixUndo(h: Pair)
    ensures Unfmix(Fmix(h)) == h && Fmix(Unfmix(h)) == h
  {
    hide Fmix64, Unfmix64;
    FmixUndo64(h.h1);
    FmixUndo64(h.h2);
  }

  function Finish(h: Pair, length: bv64): Pair {
    Spread(Fmix(Spread(Join(h, Pair(length, length)))))
  }

  function Unfinish(h: Pair, length: bv64): Pair {
    Join(Gather(Unfmix(Gather(h))), Pair(length, length))
  }

  // Finalisation is a bijection.
  lemma FinishUndo(h: Pair, length: bv64)
    ensures Unfinish(Finish(h, length), length) == h
    ensures Finish(Unfinish(h, length), length) == h
  {
    hide Join, Spread, Gather, Fmix, Unfmix;
    var l := Pair(length, length);
    JoinUndo(h, l);
    SpreadUndo(Join(h, l));
    FmixUndo(Spread(Join(h, l)));
    SpreadUndo(Fmix(Spread(Join(h, l))));
    SpreadUndo(h);
    FmixUndo(Gather(h));
    SpreadUndo(Unfmix(Gather(h)));
    JoinUndo(Gather(Unfmix(Gather(h))), l);
  }

  // ----- The hash -----

  function Load(key: seq<bv8>, n: nat): Pair {
    Pair(Load64(key, 2 * n), Load64(key, 2 * n + 1))
  }

  function Blocks(key: seq<bv8>): seq<Pair> {
    seq(|key| / 16, i requires 0 <= i => Load(key, i))
  }

  // From any two lanes; the hash starts with the seed in each.
  function HashFrom(key: seq<bv8>, start: Pair): Pair
    requires |key| < LENGTH_LIMIT
  {
    Finish(Join(Fold(Step, start, Blocks(key)), Mix(Load(key, |key| / 16))), Word64(|key|))
  }

  function Hash(key: seq<bv8>, seed: bv32): Pair
    requires |key| < LENGTH_LIMIT
  {
    HashFrom(key, Pair(seed as bv64, seed as bv64))
  }

  // The lanes that lead to a given hash of a key.
  function StartFor(key: seq<bv8>, hash: Pair): Pair
    requires |key| < LENGTH_LIMIT
  {
    Unfold(Unstep, Join(Unfinish(hash, Word64(|key|)), Mix(Load(key, |key| / 16))), Blocks(key))
  }

  // For a key of any length the hash is a bijection of the lanes it starts with.
  lemma StartBijection(key: seq<bv8>, start: Pair, hash: Pair)
    requires |key| < LENGTH_LIMIT
    ensures StartFor(key, HashFrom(key, start)) == start
    ensures HashFrom(key, StartFor(key, hash)) == hash
  {
    hide Finish, Unfinish, Step, Unstep, Join, Mix, Fold, Unfold, Load, Word64;
    var ks, m, length := Blocks(key), Mix(Load(key, |key| / 16)), Word64(|key|);
    StepUndo();
    FinishUndo(Join(Fold(Step, start, ks), m), length);
    JoinUndo(Fold(Step, start, ks), m);
    FoldUndo(Step, Unstep, start, ks);
    FinishUndo(hash, length);
    JoinUndo(Unfinish(hash, length), m);
    UnfoldUndo(Step, Unstep, Join(Unfinish(hash, length), m), ks);
  }

  lemma SeedsDiffer(key: seq<bv8>, seed: bv32, seed': bv32)
    requires |key| < LENGTH_LIMIT && seed != seed'
    ensures Hash(key, seed) != Hash(key, seed')
  {
    hide HashFrom, StartFor;
    StartBijection(key, Pair(seed as bv64, seed as bv64), Pair(0, 0));
    StartBijection(key, Pair(seed' as bv64, seed' as bv64), Pair(0, 0));
  }

  lemma LoadDiffersInBlock(key: seq<bv8>, key': seq<bv8>, b: nat)
    requires DifferOnlyIn(key, key', 16 * b, 16 * b + 16)
    ensures Load(key, b) != Load(key', b)
    ensures forall v: nat :: v != b ==> Load(key, v) == Load(key', v)
  {
    hide Load32, Pack64;
    var j := BlockDiffers(key, key', b);
    if Load(key, b) == Load(key', b) {
      LoadsSame(key, key', 2 * b);
      LoadsSame(key, key', 2 * b + 1);
    }
  }

  lemma LoadsSame(key: seq<bv8>, key': seq<bv8>, w: nat)
    requires Load64(key, w) == Load64(key', w)
    ensures Load32(key, 2 * w) == Load32(key', 2 * w) && Load32(key, 2 * w + 1) == Load32(key', 2 * w + 1)
  {
    hide Load32, Pack64;
    Pack64Injective(Load32(key, 2 * w), Load32(key, 2 * w + 1), Load32(key', 2 * w), Load32(key', 2 * w + 1));
  }

  // Keys of one length that differ in one block only, or in the tail only, never
  // collide.
  lemma NoCollision(key: seq<bv8>, key': seq<bv8>, seed: bv32, b: nat)
    requires DifferOnlyIn(key, key', 16 * b, 16 * b + 16) && |key| < LENGTH_LIMIT
    ensures Hash(key, seed) != Hash(key', seed)
  {
    hide Finish, Unfinish, Step, Unstep, Join, Mix, Fold, Load, Word64;
    LoadDiffersInBlock(key, key', b);
    var ks, ks', n, start := Blocks(key), Blocks(key'), |key| / 16, Pair(seed as bv64, seed as bv64);
    var h, h' := Fold(Step, start, ks), Fold(Step, start, ks');
    if b < n {
      StepUndo();
      forall g ensures Step(g, ks[b]) != Step(g, ks'[b]) {
        if Step(g, ks[b]) == Step(g, ks'[b]) {
          StepInjective(g, ks[b], ks'[b]);
        }
      }
      FoldDiffers(Step, Unstep, start, ks, ks', b);
    } else {
      WindowInside(key, key', 16 * b, 16 * b + 16);
      assert ks == ks';
    }
    if Hash(key, seed) == Hash(key', seed) {
      var m, m' := Mix(Load(key, n)), Mix(Load(key', n));
      FinishUndo(Join(h, m), Word64(|key|));
      FinishUndo(Join(h', m'), Word64(|key|));
      JoinUndo(h, m);
      JoinUndo(h', m');
      if b == n {
        JoinInjective(h, m, m');
        MixInjective(Load(key, n), Load(key', n));
      }
    }
  }

  // Zeros behind a key change the hash, although no block and no tail changes.
  lemma LengthTells(key: seq<bv8>, key': seq<bv8>, seed: bv32)
    requires Padded(key, key') && |key| / 16 == |key'| / 16 && |key'| < LENGTH_LIMIT
    ensures Hash(key, seed) != Hash(key', seed)
  {
    hide Finish, Step, Join, Mix, Fold, Load, Word64;
    var n, start := |key| / 16, Pair(seed as bv64, seed as bv64);
    forall b: nat ensures Load(key, b) == Load(key', b) {
      PaddedBlock(key, key', b);
    }
    assert Blocks(key) == Blocks(key');
    var h := Join(Fold(Step, start, Blocks(key)), Mix(Load(key, n)));
    if Hash(key, seed) == Hash(key', seed) {
      FinishLength(h, Word64(|key|), Word64(|key'|));
      WordNat64(0, |key|);
      WordNat64(0, |key'|);
    }
  }

  lemma PaddedBlock(key: seq<bv8>, key': seq<bv8>, b: nat)
    requires Padded(key, key')
    ensures Load(key, b) == Load(key', b)
  {
    hide Load32, Padded;
    PaddedLoad(key, key', 4 * b);
    PaddedLoad(key, key', 4 * b + 1);
    PaddedLoad(key, key', 4 * b + 2);
    PaddedLoad(key, key', 4 * b + 3);
  }

  lemma FinishLength(h: Pair, length: bv64, length': bv64)
    requires Finish(h, length) == Finish(h, length')
    ensures length == length'
  {
    hide Join, Spread, Gather, Fmix, Unfmix;
    var l, l' := Pair(length, length), Pair(length', length');
    SpreadUndo(Fmix(Spread(Join(h, l))));
    SpreadUndo(Fmix(Spread(Join(h, l'))));
    FmixUndo(Spread(Join(h, l)));
    FmixUndo(Spread(Join(h, l')));
    SpreadUndo(Join(h, l));
    SpreadUndo(Join(h, l'));
    JoinInjective(h, l, l');
  }

  // A lane that no byte of the tail reaches stays as it is.
  lemma TailJoined(key: seq<bv8>, n: nat, h: Pair, h': Pair)
    requires n == |key| / 16
    requires var r, m := |key| % 16, Mix(Load(key, n));
      && h'.h1 == (if r > 0 then Xor64(h.h1, m.h1) else h.h1) && h'.h2 == (if r > 8 then Xor64(h.h2, m.h2) else h.h2)
    ensures h' == Join(h, Mix(Load(key, n)))
  {
    hide Load64, Mix64, Xor64;
    var r := |key| % 16;
    if r <= 0 {
      NoTail64(key, 2 * n);
      MixZero64(C1, 31, C2);
      XorUndo64(h.h1, 0);
    }
    if r <= 8 {
      NoTail64(key, 2 * n + 1);
      MixZero64(C2, 33, C1);
      XorUndo64(h.h2, 0);
    }
  }

  // The body of the hash: all whole blocks.
  method Body(key: seq<bv8>, seed: bv32) returns (h1: bv64, h2: bv64)
    ensures Pair(h1, h2) == Fold(Step, Pair(seed as bv64, seed as bv64), Blocks(key))
  {
    hide Fold, Load64, Mul64, Rotl64, Xor64, Add64;
    var nblocks := |key| / 16;
    h1, h2 := seed as bv64, seed as bv64;
    ghost var start, ks := Pair(seed as bv64, seed as bv64), Blocks(key);
    FoldNone(Step, start, ks);
    for i := 0 to nblocks
      invariant Pair(h1, h2) == Fold(Step, start, ks[..i])
    {
      FoldOne(Step, start, ks, i);
      var k1, k2 := Load64(key, 2 * i), Load64(key, 2 * i + 1);

      k1 := Mul64(k1, C1);
      k1 := Rotl64(k1, 31);
      k1 := Mul64(k1, C2);
      h1 := Xor64(h1, k1);
      h1 := Rotl64(h1, 27);
      h1 := Add64(h1, h2);
      h1 := Add64(Mul64(h1, 5), 0x52dce729);

      k2 := Mul64(k2, C2);
      k2 := Rotl64(k2, 33);
      k2 := Mul64(k2, C1);
      h2 := Xor64(h2, k2);
      h2 := Rotl64(h2, 31);
      h2 := Add64(h2, h1);
      h2 := Add64(Mul64(h2, 5), 0x38495ab5);
    }
    assert ks[..nblocks] == ks;
  }

  // The tail: what is left of the key.
  method AddTail(key: seq<bv8>, a1: bv64, a2: bv64) returns (h1: bv64, h2: bv64)
    ensures Pair(h1, h2) == Join(Pair(a1, a2), Mix(Load(key, |key| / 16)))
  {
    hide Load64, Mul64, Rotl64, Xor64;
    var nblocks := |key| / 16;
    h1, h2 := a1, a2;
    if |key| % 16 > 8 {
      var k2 := TailWord64(key, 2 * nblocks + 1);
      k2 := Mul64(k2, C2);
      k2 := Rotl64(k2, 33);
      k2 := Mul64(k2, C1);
      h2 := Xor64(h2, k2);
    }
    if |key| % 16 > 0 {
      var k1 := TailWord64(key, 2 * nblocks + 0);
      k1 := Mul64(k1, C1);
      k1 := Rotl64(k1, 31);
      k1 := Mul64(k1, C2);
      h1 := Xor64(h1, k1);
    }
    TailJoined(key, nblocks, Pair(a1, a2), Pair(h1, h2));
  }

  // The finalisation.
  method Finalize(length: bv64, a1: bv64, a2: bv64) returns (h1: bv64, h2: bv64)
    ensures Pair(h1, h2) == Finish(Pair(a1, a2), length)
  {
    hide Xor64, Add64, Fmix64;
    h1, h2 := a1, a2;
    h1 := Xor64(h1, length);
    h2 := Xor64(h2, length);
    h1 := Add64(h1, h2);
    h2 := Add64(h2, h1);
    h1 := Fmix64(h1);
    h2 := Fmix64(h2);
    h1 := Add64(h1, h2);
    h2 := Add64(h2, h1);
  }

  method MurmurHash3(key: seq<bv8>, seed: bv32) returns (out: seq<bv64>)
    requires |key| < LENGTH_LIMIT
    ensures var h := Hash(key, seed); out == [h.h1, h.h2]
  {
    hide Fold, Finish, Join, Mix;
    var h1, h2 := Body(key, seed);
    h1, h2 := AddTail(key, h1, h2);
    h1, h2 := Finalize(Word64(|key|), h1, h2);
    out := [h1, h2];
  }
}
