// MurmurHash3_x86_128 of src/ez_hash.c.

module Murmur128x86 {
  import opened Murmur
  import opened MurmurSteps
  import opened Words

  const C1 := 0x239b961b
  const C2 := 0xab0e9789
  const C3 := 0x38b34ae5
  const C4 := 0xa1e38b93

  // Four lanes, or the four words of a block.
  datatype Quad = Quad(h1: bv32, h2: bv32, h3: bv32, h4: bv32)

  function Mix(k: Quad): Quad {
    Quad(Mix32(k.h1, C1, 15, C2), Mix32(k.h2, C2, 16, C3), Mix32(k.h3, C3, 17, C4), Mix32(k.h4, C4, 18, C1))
  }

  lemma MixInjective(k: Quad, k': Quad)
    requires Mix(k) == Mix(k')
    ensures k == k'
  {
    hide Mix32, Unmix32;
    MixUndo32(k.h1, C1, 15, C2);
    MixUndo32(k'.h1, C1, 15, C2);
    MixUndo32(k.h2, C2, 16, C3);
    MixUndo32(k'.h2, C2, 16, C3);
    MixUndo32(k.h3, C3, 17, C4);
    MixUndo32(k'.h3, C3, 17, C4);
    MixUndo32(k.h4, C4, 18, C1);
    MixUndo32(k'.h4, C4, 18, C1);
  }

  // One block: each lane takes up its word and the lane behind it, the last one
  // the new first one.
  function Absorb(h: Quad, m: Quad): Quad {
    var h1 := Lane32(h.h1, m.h1, 19, h.h2, 0x561ccd1b);
    var h2 := Lane32(h.h2, m.h2, 17, h.h3, 0x0bcaa747);
    var h3 := Lane32(h.h3, m.h3, 15, h.h4, 0x96cd1c35);
    Quad(h1, h2, h3, Lane32(h.h4, m.h4, 13, h1, 0x32ac3b17))
  }

  function Unabsorb(h: Quad, m: Quad): Quad {
    var h4 := Unlane32(h.h4, m.h4, 13, h.h1, 0x32ac3b17);
    var h3 := Unlane32(h.h3, m.h3, 15, h4, 0x96cd1c35);
    var h2 := Unlane32(h.h2, m.h2, 17, h3, 0x0bcaa747);
    Quad(Unlane32(h.h1, m.h1, 19, h2, 0x561ccd1b), h2, h3, h4)
  }

  function Step(h: Quad, k: Quad): Quad {
    Absorb(h, Mix(k))
  }

  function Unstep(h: Quad, k: Quad): Quad {
    Unabsorb(h, Mix(k))
  }

  lemma AbsorbUndo(h: Quad, m: Quad)
    ensures Unabsorb(Absorb(h, m), m) == h
  {
    hide Lane32, Unlane32;
    LaneUndo32(h.h4, m.h4, 13, Absorb(h, m).h1, 0x32ac3b17);
    LaneUndo32(h.h3, m.h3, 15, h.h4, 0x96cd1c35);
    LaneUndo32(h.h2, m.h2, 17, h.h3, 0x0bcaa747);
    LaneUndo32(h.h1, m.h1, 19, h.h2, 0x561ccd1b);
  }

  lemma UnabsorbUndo(h: Quad, m: Quad)
    ensures Absorb(Unabsorb(h, m), m) == h
  {
    hide Lane32, Unlane32;
    var u := Unabsorb(h, m);
    LaneUndo32(h.h4, m.h4, 13, h.h1, 0x32ac3b17);
    LaneUndo32(h.h3, m.h3, 15, u.h4, 0x96cd1c35);
    LaneUndo32(h.h2, m.h2, 17, u.h3, 0x0bcaa747);
    LaneUndo32(h.h1, m.h1, 19, u.h2, 0x561ccd1b);
  }

  // For a fixed block the step is a bijection of the lanes.
  lemma StepUndo()
    ensures Undoes(Unstep, Step) && Undoes(Step, Unstep)
  {
    hide Absorb, Unabsorb, Mix;
    forall h, k ensures Unstep(Step(h, k), k) == h && Step(Unstep(h, k), k) == h {
      AbsorbUndo(h, Mix(k));
      UnabsorbUndo(h, Mix(k));
    }
  }

  // For fixed lanes the step is injective in the block.
  lemma StepInjective(h: Quad, k: Quad, k': Quad)
    requires Step(h, k) == Step(h, k')
    ensures k == k'
  {
    hide Mix, Lane32;
    var m, m', n := Mix(k), Mix(k'), Step(h, k);
    LaneInjective32(h.h1, m.h1, m'.h1, 19, h.h2, 0x561ccd1b);
    LaneInjective32(h.h2, m.h2, m'.h2, 17, h.h3, 0x0bcaa747);
    LaneInjective32(h.h3, m.h3, m'.h3, 15, h.h4, 0x96cd1c35);
    LaneInjective32(h.h4, m.h4, m'.h4, 13, n.h1, 0x32ac3b17);
    MixInjective(k, k');
  }

  // ----- The end -----

  function Join(h: Quad, m: Quad): Quad {
    Quad(Xor32(h.h1, m.h1), Xor32(h.h2, m.h2), Xor32(h.h3, m.h3), Xor32(h.h4, m.h4))
  }

  lemma JoinUndo(h: Quad, m: Quad)
    ensures Join(Join(h, m), m) == h
  {
    hide Xor32;
    XorUndo32(h.h1, m.h1);
    XorUndo32(h.h2, m.h2);
    XorUndo32(h.h3, m.h3);
    XorUndo32(h.h4, m.h4);
  }

  lemma JoinInjective(h: Quad, m: Quad, m': Quad)
    requires Join(h, m) == Join(h, m')
    ensures m == m'
  {
    hide Xor32;
    XorInjective32(h.h1, m.h1, m'.h1);
    XorInjective32(h.h2, m.h2, m'.h2);
    XorInjective32(h.h3, m.h3, m'.h3);
    XorInjective32(h.h4, m.h4, m'.h4);
  }

  // Each lane is added to the first, and then the first to each other one.
  function Spread(h: Quad): Quad {
    var h1 := Add32(Add32(Add32(h.h1, h.h2), h.h3), h.h4);
    Quad(h1, Add32(h.h2, h1), Add32(h.h3, h1), Add32(h.h4, h1))
  }

  function Gather(h: Quad): Quad {
    var h2, h3, h4 := Sub32(h.h2, h.h1), Sub32(h.h3, h.h1), Sub32(h.h4, h.h1);
    Quad(Sub32(Sub32(Sub32(h.h1, h4), h3), h2), h2, h3, h4)
  }

  lemma SpreadUndo(h: Quad)
    ensures Gather(Spread(h)) == h && Spread(Gather(h)) == h
  {
    hide Add32, Sub32;
    var s := Spread(h);
    AddUndo32(h.h1, h.h2);
    AddUndo32(Add32(h.h1, h.h2), h.h3);
    AddUndo32(Add32(Add32(h.h1, h.h2), h.h3), h.h4);
    AddUndo32(h.h2, s.h1);
    AddUndo32(h.h3, s.h1);
    AddUndo32(h.h4, s.h1);
    var g := Gather(h);
    AddUndo32(h.h2, h.h1);
    AddUndo32(h.h3, h.h1);
    AddUndo32(h.h4, h.h1);
    AddUndo32(h.h1, g.h4);
    AddUndo32(Sub32(h.h1, g.h4), g.h3);
    AddUndo32(Sub32(Sub32(h.h1, g.h4), g.h3), g.h2);
  }

  function Fmix(h: Quad): Quad {
    Quad(Fmix32(h.h1), Fmix32(h.h2), Fmix32(h.h3), Fmix32(h.h4))
  }

  function Unfmix(h: Quad): Quad {
    Quad(Unfmix32(h.h1), Unfmix32(h.h2), Unfmix32(h.h3), Unfmix32(h.h4))
  }

  lemma FmixUndo(h: Quad)
    ensures Unfmix(Fmix(h)) == h && Fmix(Unfmix(h)) == h
  {
    hide Fmix32, Unfmix32;
    FmixUndo32(h.h1);
    FmixUndo32(h.h2);
    FmixUndo32(h.h3);
    FmixUndo32(h.h4);
  }

  function Finish(h: Quad, length: bv32): Quad {
    Spread(Fmix(Spread(Join(h, Quad(length, length, length, length)))))
  }

  function Unfinish(h: Quad, length: bv32): Quad {
    Join(Gather(Unfmix(Gather(h))), Quad(length, length, length, length))
  }

  // Finalisation is a bijection.
  lemma FinishUndo(h: Quad, length: bv32)
    ensures Unfinish(Finish(h, length), length) == h
    ensures Finish(Unfinish(h, length), length) == h
  {
    hide Join, Spread, Gather, Fmix, Unfmix;
    var l := Quad(length, length, length, length);
    JoinUndo(h, l);
    SpreadUndo(Join(h, l));
    FmixUndo(Spread(Join(h, l)));
    SpreadUndo(Fmix(Spread(Join(h, l))));
    SpreadUndo(h);
    FmixUndo(Gather(h));
    SpreadUndo(Unfmix(Gather(h)));
    JoinUndo(Gather(Unfmix(Gather(h))), l);
  }

  // ----- The hash -----

  function Load(key: seq<bv8>, n: nat): Quad {
    Quad(Load32(key, 4 * n), Load32(key, 4 * n + 1), Load32(key, 4 * n + 2), Load32(key, 4 * n + 3))
  }

  function Blocks(key: seq<bv8>): seq<Quad> {
    seq(|key| / 16, i requires 0 <= i => Load(key, i))
  }

  // From any four lanes; the hash starts with the seed in each.
  function HashFrom(key: seq<bv8>, start: Quad): Quad
    requires |key| < LENGTH_LIMIT
  {
    Finish(Join(Fold(Step, start, Blocks(key)), Mix(Load(key, |key| / 16))), Word32(|key|))
  }

  function Hash(key: seq<bv8>, seed: bv32): Quad
    requires |key| < LENGTH_LIMIT
  {
    HashFrom(key, Quad(seed, seed, seed, seed))
  }

  // The lanes that lead to a given hash of a key.
  function StartFor(key: seq<bv8>, hash: Quad): Quad
    requires |key| < LENGTH_LIMIT
  {
    Unfold(Unstep, Join(Unfinish(hash, Word32(|key|)), Mix(Load(key, |key| / 16))), Blocks(key))
  }

  // For a key of any length the hash is a bijection of the lanes it starts with.
  lemma StartBijection(key: seq<bv8>, start: Quad, hash: Quad)
    requires |key| < LENGTH_LIMIT
    ensures StartFor(key, HashFrom(key, start)) == start
    ensures HashFrom(key, StartFor(key, hash)) == hash
  {
    hide Finish, Unfinish, Step, Unstep, Join, Mix, Fold, Unfold, Load, Word32;
    var ks, m, length := Blocks(key), Mix(Load(key, |key| / 16)), Word32(|key|);
    StepUndo();
    FinishUndo(Join(Fold(Step, start, ks), m), length);
    JoinUndo(Fold(Step, start, ks), m);
    FoldUndo(Step, Unstep, start, ks);
    FinishUndo(hash, length);
    JoinUndo(Unfinish(hash, length), m);
    UnfoldUndo(Step, Unstep, Join(Unfinish(hash, length), m), ks);
  }

  lemma SeedsDiffer(key: seq<bv8>, seed: bv32, seed': bv32)
    requires |key| < LENGTH_LIMIT && seed != seed'
    ensures Hash(key, seed) != Hash(key, seed')
  {
    hide HashFrom, StartFor;
    StartBijection(key, Quad(seed, seed, seed, seed), Quad(0, 0, 0, 0));
    StartBijection(key, Quad(seed', seed', seed', seed'), Quad(0, 0, 0, 0));
  }

  lemma LoadDiffersInBlock(key: seq<bv8>, key': seq<bv8>, b: nat)
    requires DifferOnlyIn(key, key', 16 * b, 16 * b + 16)
    ensures Load(key, b) != Load(key', b)
    ensures forall v: nat :: v != b ==> Load(key, v) == Load(key', v)
  {
    hide Load32;
    var j := BlockDiffers(key, key', b);
  }

  // Keys of one length that differ in one block only, or in the tail only, never
  // collide.
  lemma NoCollision(key: seq<bv8>, key': seq<bv8>, seed: bv32, b: nat)
    requires DifferOnlyIn(key, key', 16 * b, 16 * b + 16) && |key| < LENGTH_LIMIT
    ensures Hash(key, seed) != Hash(key', seed)
  {
    hide Finish, Unfinish, Step, Unstep, Join, Mix, Fold, Load, Word32;
    LoadDiffersInBlock(key, key', b);
    var ks, ks', n, start := Blocks(key), Blocks(key'), |key| / 16, Quad(seed, seed, seed, seed);
    var h, h' := Fold(Step, start, ks), Fold(Step, start, ks');
    if b < n {
      StepUndo();
      forall g ensures Step(g, ks[b]) != Step(g, ks'[b]) {
        if Step(g, ks[b]) == Step(g, ks'[b]) {
          StepInjective(g, ks[b], ks'[b]);
        }
      }
      FoldDiffers(Step, Unstep, start, ks, ks', b);
    } else {
      WindowInside(key, key', 16 * b, 16 * b + 16);
      assert ks == ks';
    }
    if Hash(key, seed) == Hash(key', seed) {
      var m, m' := Mix(Load(key, n)), Mix(Load(key', n));
      FinishUndo(Join(h, m), Word32(|key|));
      FinishUndo(Join(h', m'), Word32(|key|));
      JoinUndo(h, m);
      JoinUndo(h', m');
      if b == n {
        JoinInjective(h, m, m');
        MixInjective(Load(key, n), Load(key', n));
      }
    }
  }

  // Zeros behind a key change the hash, although no block and no tail changes.
  lemma LengthTells(key: seq<bv8>, key': seq<bv8>, seed: bv32)
    requires Padded(key, key') && |key| / 16 == |key'| / 16 && |key'| < LENGTH_LIMIT
    ensures Hash(key, seed) != Hash(key', seed)
  {
    hide Finish, Step, Join, Mix, Fold, Load, Word32;
    var n, start := |key| / 16, Quad(seed, seed, seed, seed);
    forall b: nat ensures Load(key, b) == Load(key', b) {
      PaddedBlock(key, key', b);
    }
    assert Blocks(key) == Blocks(key');
    var h := Join(Fold(Step, start, Blocks(key)), Mix(Load(key, n)));
    if Hash(key, seed) == Hash(key', seed) {
      FinishLength(h, Word32(|key|), Word32(|key'|));
      WordNat32(0, |key|);
      WordNat32(0, |key'|);
    }
  }

  lemma PaddedBlock(key: seq<bv8>, key': seq<bv8>, b: nat)
    requires Padded(key, key')
    ensures Load(key, b) == Load(key', b)
  {
    hide Load32, Padded;
    PaddedLoad(key, key', 4 * b);
    PaddedLoad(key, key', 4 * b + 1);
    PaddedLoad(key, key', 4 * b + 2);
    PaddedLoad(key, key', 4 * b + 3);
  }

  lemma FinishLength(h: Quad, length: bv32, length': bv32)
    requires Finish(h, length) == Finish(h, length')
    ensures length == length'
  {
    hide Join, Spread, Gather, Fmix, Unfmix;
    var l, l' := Quad(length, length, length, length), Quad(length', length', length', length');
    SpreadUndo(Fmix(Spread(Join(h, l))));
    SpreadUndo(Fmix(Spread(Join(h, l'))));
    FmixUndo(Spread(Join(h, l)));
    FmixUndo(Spread(Join(h, l')));
    SpreadUndo(Join(h, l));
    SpreadUndo(Join(h, l'));
    JoinInjective(h, l, l');
  }

  // A lane that no byte of the tail reaches stays as it is.
  lemma TailJoined(key: seq<bv8>, n: nat, h: Quad, h': Quad)
    requires n == |key| / 16
    requires var r, m := |key| % 16, Mix(Load(key, n));
      && h'.h1 == (if r > 0 then Xor32(h.h1, m.h1) else h.h1) && h'.h2 == (if r > 4 then Xor32(h.h2, m.h2) else h.h2)
      && h'.h3 == (if r > 8 then Xor32(h.h3, m.h3) else h.h3) && h'.h4 == (if r > 12 then Xor32(h.h4, m.h4) else h.h4)
    ensures h' == Join(h, Mix(Load(key, n)))
  {
    hide Load32, Mix32, Xor32;
    var r := |key| % 16;
    if r <= 0 {
      NoTail(key, 4 * n);
      MixZero32(C1, 15, C2);
      XorUndo32(h.h1, 0);
    }
    if r <= 4 {
      NoTail(key, 4 * n + 1);
      MixZero32(C2, 16, C3);
      XorUndo32(h.h2, 0);
    }
    if r <= 8 {
      NoTail(key, 4 * n + 2);
      MixZero32(C3, 17, C4);
      XorUndo32(h.h3, 0);
    }
    if r <= 12 {
      NoTail(key, 4 * n + 3);
      MixZero32(C4, 18, C1);
      XorUndo32(h.h4, 0);
    }
  }

  // The body of the hash: all whole blocks.
  method Body(key: seq<bv8>, seed: bv32) returns (h1: bv32, h2: bv32, h3: bv32, h4: bv32)
    ensures Quad(h1, h2, h3, h4) == Fold(Step, Quad(seed, seed, seed, seed), Blocks(key))
  {
    hide Fold, Load32, Mul32, Rotl32, Xor32, Add32;
    var nblocks := |key| / 16;
    h1, h2, h3, h4 := seed, seed, seed, seed;
    ghost var start, ks := Quad(seed, seed, seed, seed), Blocks(key);
    FoldNone(Step, start, ks);
    var i := -nblocks;
    while i != 0
      invariant -nblocks <= i <= 0
      invariant Quad(h1, h2, h3, h4) == Fold(Step, start, ks[..nblocks + i])
      decreases -i
    {
      FoldOne(Step, start, ks, nblocks + i);
      var at := 4 * (nblocks + i);
      var k1, k2, k3, k4 := Load32(key, at), Load32(key, at + 1), Load32(key, at + 2), Load32(key, at + 3);

      k1 := Mul32(k1, C1);
      k1 := Rotl32(k1, 15);
      k1 := Mul32(k1, C2);
      h1 := Xor32(h1, k1);
      h1 := Rotl32(h1, 19);
      h1 := Add32(h1, h2);
      h1 := Add32(Mul32(h1, 5), 0x561ccd1b);

      k2 := Mul32(k2, C2);
      k2 := Rotl32(k2, 16);
      k2 := Mul32(k2, C3);
      h2 := Xor32(h2, k2);
      h2 := Rotl32(h2, 17);
      h2 := Add32(h2, h3);
      h2 := Add32(Mul32(h2, 5), 0x0bcaa747);

      k3 := Mul32(k3, C3);
      k3 := Rotl32(k3, 17);
      k3 := Mul32(k3, C4);
      h3 := Xor32(h3, k3);
      h3 := Rotl32(h3, 15);
      h3 := Add32(h3, h4);
      h3 := Add32(Mul32(h3, 5), 0x96cd1c35);

      k4 := Mul32(k4, C4);
      k4 := Rotl32(k4, 18);
      k4 := Mul32(k4, C1);
      h4 := Xor32(h4, k4);
      h4 := Rotl32(h4, 13);
      h4 := Add32(h4, h1);
      h4 := Add32(Mul32(h4, 5), 0x32ac3b17);
      i := i + 1;
    }
    assert ks[..nblocks] == ks;
  }

  // The tail: what is left of the key.
  method AddTail(key: seq<bv8>, a1: bv32, a2: bv32, a3: bv32, a4: bv32)
    returns (h1: bv32, h2: bv32, h3: bv32, h4: bv32)
    ensures Quad(h1, h2, h3, h4) == Join(Quad(a1, a2, a3, a4), Mix(Load(key, |key| / 16)))
  {
    hide Load32, Mul32, Rotl32, Xor32;
    var nblocks := |key| / 16;
    h1, h2, h3, h4 := a1, a2, a3, a4;
    if |key| % 16 > 12 {
      var k4 := TailWord32(key, 4 * nblocks + 3);
      k4 := Mul32(k4, C4);
      k4 := Rotl32(k4, 18);
      k4 := Mul32(k4, C1);
      h4 := Xor32(h4, k4);
    }
    if |key| % 16 > 8 {
      var k3 := TailWord32(key, 4 * nblocks + 2);
      k3 := Mul32(k3, C3);
      k3 := Rotl32(k3, 17);
      k3 := Mul32(k3, C4);
      h3 := Xor32(h3, k3);
    }
    if |key| % 16 > 4 {
      var k2 := TailWord32(key, 4 * nblocks + 1);
      k2 := Mul32(k2, C2);
      k2 := Rotl32(k2, 16);
      k2 := Mul32(k2, C3);
      h2 := Xor32(h2, k2);
    }
    if |key| % 16 > 0 {
      var k1 := TailWord32(key, 4 * nblocks + 0);
      k1 := Mul32(k1, C1);
      k1 := Rotl32(k1, 15);
      k1 := Mul32(k1, C2);
      h1 := Xor32(h1, k1);
    }
    TailJoined(key, nblocks, Quad(a1, a2, a3, a4), Quad(h1, h2, h3, h4));
  }

  // The finalisation.
  method Finalize(length: bv32, a1: bv32, a2: bv32, a3: bv32, a4: bv32)
    returns (h1: bv32, h2: bv32, h3: bv32, h4: bv32)
    ensures Quad(h1, h2, h3, h4) == Finish(Quad(a1, a2, a3, a4), length)
  {
    hide Xor32, Add32, Fmix32;
    h1, h2, h3, h4 := a1, a2, a3, a4;
    h1 := Xor32(h1, length);
    h2 := Xor32(h2, length);
    h3 := Xor32(h3, length);
    h4 := Xor32(h4, length);
    h1 := Add32(h1, h2);
    h1 := Add32(h1, h3);
    h1 := Add32(h1, h4);
    h2 := Add32(h2, h1);
    h3 := Add32(h3, h1);
    h4 := Add32(h4, h1);
    h1 := Fmix32(h1);
    h2 := Fmix32(h2);
    h3 := Fmix32(h3);
    h4 := Fmix32(h4);
    h1 := Add32(h1, h2);
    h1 := Add32(h1, h3);
    h1 := Add32(h1, h4);
    h2 := Add32(h2, h1);
    h3 := Add32(h3, h1);
    h4 := Add32(h4, h1);
  }

  method MurmurHash3(key: seq<bv8>, seed: bv32) returns (out: seq<bv32>)
    requires |key| < LENGTH_LIMIT
    ensures var h := Hash(key, seed); out == [h.h1, h.h2, h.h3, h.h4]
  {
    hide Fold, Finish, Join, Mix;
    var h1, h2, h3, h4 := Body(key, seed);
    h1, h2, h3, h4 := AddTail(key, h1, h2, h3, h4);
    h1, h2, h3, h4 := Finalize(Word32(|key|), h1, h2, h3, h4);
    out := [h1, h2, h3, h4];
  }
}
