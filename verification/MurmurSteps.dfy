// The steps that the MurmurHash3 functions of src/ez_hash.c are chains of, and
// what undoes each of them.

module MurmurSteps {
  import opened Words

  // ----- Steps of the 32-bit lanes -----

  // What is done to a word of the key before it goes into a lane.
  function Mix32(k: bv32, c: nat, r: bv32, d: nat): bv32
    requires r <= 32
  {
    Mul32(Rotl32(Mul32(k, c), r), d)
  }

  function Unmix32(m: bv32, c: nat, r: bv32, d: nat): bv32
    requires c in FACTORS32 && d in FACTORS32 && r in ROTATIONS32
  {
    Mul32(Rotl32(Mul32(m, Inverse32(d)), 32 - r), Inverse32(c))
  }

  lemma MixUndo32(k: bv32, c: nat, r: bv32, d: nat)
    requires c in FACTORS32 && d in FACTORS32 && r in ROTATIONS32
    ensures Unmix32(Mix32(k, c, r, d), c, r, d) == k
    ensures Mix32(Unmix32(k, c, r, d), c, r, d) == k
  {
    hide Mul32, Rotl32, Inverse32;
    MulUndo32(k, c, Inverse32(c));
    RotlUndo32(Mul32(k, c), r);
    MulUndo32(Rotl32(Mul32(k, c), r), d, Inverse32(d));
    var m := Mul32(k, Inverse32(d));
    MulUndo32(k, Inverse32(d), d);
    RotlUndo32(m, 32 - r);
    assert 32 - (32 - r) == r;
    MulUndo32(Rotl32(m, 32 - r), Inverse32(c), c);
  }

  // Without a tail there is nothing to mix.
  lemma MixZero32(c: nat, r: bv32, d: nat)
    requires r <= 32
    ensures Mix32(0, c, r, d) == 0
  {
    hide Nat32, Word32;
    ZeroNat32();
  }

  // A mixed word goes into a lane; `next` is the lane added to it.
  function Lane32(h: bv32, m: bv32, r: bv32, next: bv32, add: bv32): bv32
    requires r <= 32
  {
    Add32(Mul32(Add32(Rotl32(Xor32(h, m), r), next), 5), add)
  }

  function Unlane32(h: bv32, m: bv32, r: bv32, next: bv32, add: bv32): bv32
    requires r in ROTATIONS32
  {
    Xor32(Rotl32(Sub32(Mul32(Sub32(h, add), Inverse32(5)), next), 32 - r), m)
  }

  lemma LaneUndo32(h: bv32, m: bv32, r: bv32, next: bv32, add: bv32)
    requires r in ROTATIONS32
    ensures Unlane32(Lane32(h, m, r, next, add), m, r, next, add) == h
    ensures Lane32(Unlane32(h, m, r, next, add), m, r, next, add) == h
  {
    hide Mul32, Rotl32, Inverse32, Add32, Sub32, Xor32;
    var x := Rotl32(Xor32(h, m), r);
    XorUndo32(h, m);
    RotlUndo32(Xor32(h, m), r);
    AddUndo32(x, next);
    MulUndo32(Add32(x, next), 5, Inverse32(5));
    AddUndo32(Mul32(Add32(x, next), 5), add);
    var y := Mul32(Sub32(h, add), Inverse32(5));
    AddUndo32(h, add);
    MulUndo32(Sub32(h, add), Inverse32(5), 5);
    AddUndo32(y, next);
    RotlUndo32(Sub32(y, next), 32 - r);
    assert 32 - (32 - r) == r;
    XorUndo32(Rotl32(Sub32(y, next), 32 - r), m);
  }

  // The same lane from two words: then they are one.
  lemma LaneInjective32(h: bv32, m: bv32, m': bv32, r: bv32, next: bv32, add: bv32)
    requires r in ROTATIONS32 && Lane32(h, m, r, next, add) == Lane32(h, m', r, next, add)
    ensures m == m'
  {
    hide Mul32, Rotl32, Inverse32, Add32, Sub32;
    var x, x' := Add32(Rotl32(Xor32(h, m), r), next), Add32(Rotl32(Xor32(h, m'), r), next);
    AddUndo32(Mul32(x, 5), add);
    AddUndo32(Mul32(x', 5), add);
    MulUndo32(x, 5, Inverse32(5));
    MulUndo32(x', 5, Inverse32(5));
    AddUndo32(Rotl32(Xor32(h, m), r), next);
    AddUndo32(Rotl32(Xor32(h, m'), r), next);
    RotlUndo32(Xor32(h, m), r);
    RotlUndo32(Xor32(h, m'), r);
    XorInjective32(h, m, m');
  }

  lemma XorInjective32(h: bv32, m: bv32, m': bv32)
    requires Xor32(h, m) == Xor32(h, m')
    ensures m == m'
  {
  }

  // ----- Steps of the 64-bit lanes -----

  // What is done to a word of the key before it goes into a lane.
  function Mix64(k: bv64, c: nat, r: bv64, d: nat): bv64
    requires r <= 64
  {
    Mul64(Rotl64(Mul64(k, c), r), d)
  }

  function Unmix64(m: bv64, c: nat, r: bv64, d: nat): bv64
    requires c in FACTORS64 && d in FACTORS64 && r in ROTATIONS64
  {
    Mul64(Rotl64(Mul64(m, Inverse64(d)), 64 - r), Inverse64(c))
  }

  lemma MixUndo64(k: bv64, c: nat, r: bv64, d: nat)
    requires c in FACTORS64 && d in FACTORS64 && r in ROTATIONS64
    ensures Unmix64(Mix64(k, c, r, d), c, r, d) == k
    ensures Mix64(Unmix64(k, c, r, d), c, r, d) == k
  {
    hide Mul64, Rotl64, Inverse64;
    MulUndo64(k, c, Inverse64(c));
    RotlUndo64(Mul64(k, c), r);
    MulUndo64(Rotl64(Mul64(k, c), r), d, Inverse64(d));
    var m := Mul64(k, Inverse64(d));
    MulUndo64(k, Inverse64(d), d);
    RotlUndo64(m, 64 - r);
    assert 64 - (64 - r) == r;
    MulUndo64(Rotl64(m, 64 - r), Inverse64(c), c);
  }

  // Without a tail there is nothing to mix.
  lemma MixZero64(c: nat, r: bv64, d: nat)
    requires r <= 64
    ensures Mix64(0, c, r, d) == 0
  {
    hide Nat64, Word64;
    ZeroNat64();
  }

  // A mixed word goes into a lane; `next` is the lane added to it.
  function Lane64(h: bv64, m: bv64, r: bv64, next: bv64, add: bv64): bv64
    requires r <= 64
  {
    Add64(Mul64(Add64(Rotl64(Xor64(h, m), r), next), 5), add)
  }

  function Unlane64(h: bv64, m: bv64, r: bv64, next: bv64, add: bv64): bv64
    requires r in ROTATIONS64
  {
    Xor64(Rotl64(Sub64(Mul64(Sub64(h, add), Inverse64(5)), next), 64 - r), m)
  }

  lemma LaneUndo64(h: bv64, m: bv64, r: bv64, next: bv64, add: bv64)
    requires r in ROTATIONS64
    ensures Unlane64(Lane64(h, m, r, next, add), m, r, next, add) == h
    ensures Lane64(Unlane64(h, m, r, next, add), m, r, next, add) == h
  {
    hide Mul64, Rotl64, Inverse64, Add64, Sub64, Xor64;
    var x := Rotl64(Xor64(h, m), r);
    XorUndo64(h, m);
    RotlUndo64(Xor64(h, m), r);
    AddUndo64(x, next);
    MulUndo64(Add64(x, next), 5, Inverse64(5));
    AddUndo64(Mul64(Add64(x, next), 5), add);
    var y := Mul64(Sub64(h, add), Inverse64(5));
    AddUndo64(h, add);
    MulUndo64(Sub64(h, add), Inverse64(5), 5);
    AddUndo64(y, next);
    RotlUndo64(Sub64(y, next), 64 - r);
    assert 64 - (64 - r) == r;
    XorUndo64(Rotl64(Sub64(y, next), 64 - r), m);
  }

  // The same lane from two words: then they are one.
  lemma LaneInjective64(h: bv64, m: bv64, m': bv64, r: bv64, next: bv64, add: bv64)
    requires r in ROTATIONS64 && Lane64(h, m, r, next, add) == Lane64(h, m', r, next, add)
    ensures m == m'
  {
    hide Mul64, Rotl64, Inverse64, Add64, Sub64;
    var x, x' := Add64(Rotl64(Xor64(h, m), r), next), Add64(Rotl64(Xor64(h, m'), r), next);
    AddUndo64(Mul64(x, 5), add);
    AddUndo64(Mul64(x', 5), add);
    MulUndo64(x, 5, Inverse64(5));
    MulUndo64(x', 5, Inverse64(5));
    AddUndo64(Rotl64(Xor64(h, m), r), next);
    AddUndo64(Rotl64(Xor64(h, m'), r), next);
    RotlUndo64(Xor64(h, m), r);
    RotlUndo64(Xor64(h, m'), r);
    XorInjective64(h, m, m');
  }

  lemma XorInjective64(h: bv64, m: bv64, m': bv64)
    requires Xor64(h, m) == Xor64(h, m')
    ensures m == m'
  {
  }

  // ----- The final mix -----

  function Fmix32(h: bv32): bv32 {
    ShiftXor32(Mul32(ShiftXor32(Mul32(ShiftXor32(h, 16), 0x85ebca6b), 13), 0xc2b2ae35), 16)
  }

  function Unfmix32(h: bv32): bv32 {
    ShiftXor32(Mul32(ShiftXor13Back(Mul32(ShiftXor32(h, 16), Inverse32(0xc2b2ae35))), Inverse32(0x85ebca6b)), 16)
  }

  lemma FmixUndo32(h: bv32)
    ensures Unfmix32(Fmix32(h)) == h && Fmix32(Unfmix32(h)) == h
  {
    hide Mul32, ShiftXor32, ShiftXor13Back, Inverse32;
    var a := ShiftXor32(h, 16);
    ShiftXor16Undo(h);
    MulUndo32(a, 0x85ebca6b, Inverse32(0x85ebca6b));
    var b := Mul32(a, 0x85ebca6b);
    ShiftXor13Undo(b);
    MulUndo32(ShiftXor32(b, 13), 0xc2b2ae35, Inverse32(0xc2b2ae35));
    ShiftXor16Undo(Mul32(ShiftXor32(b, 13), 0xc2b2ae35));
    MulUndo32(a, Inverse32(0xc2b2ae35), 0xc2b2ae35);
    var c := Mul32(a, Inverse32(0xc2b2ae35));
    ShiftXor13Undo(c);
    MulUndo32(ShiftXor13Back(c), Inverse32(0x85ebca6b), 0x85ebca6b);
    ShiftXor16Undo(Mul32(ShiftXor13Back(c), Inverse32(0x85ebca6b)));
  }

  function Fmix64(h: bv64): bv64 {
    ShiftXor64(Mul64(ShiftXor64(Mul64(ShiftXor64(h, 33), 0xff51afd7ed558ccd), 33), 0xc4ceb9fe1a85ec53), 33)
  }

  function Unfmix64(h: bv64): bv64 {
    ShiftXor64(Mul64(ShiftXor64(Mul64(ShiftXor64(h, 33), Inverse64(0xc4ceb9fe1a85ec53)), 33), Inverse64(0xff51afd7ed558ccd)), 33)
  }

  lemma FmixUndo64(h: bv64)
    ensures Unfmix64(Fmix64(h)) == h && Fmix64(Unfmix64(h)) == h
  {
    hide Mul64, ShiftXor64, Inverse64;
    var a := ShiftXor64(h, 33);
    ShiftXor33Undo(h);
    MulUndo64(a, 0xff51afd7ed558ccd, Inverse64(0xff51afd7ed558ccd));
    var b := Mul64(a, 0xff51afd7ed558ccd);
    ShiftXor33Undo(b);
    MulUndo64(ShiftXor64(b, 33), 0xc4ceb9fe1a85ec53, Inverse64(0xc4ceb9fe1a85ec53));
    ShiftXor33Undo(Mul64(ShiftXor64(b, 33), 0xc4ceb9fe1a85ec53));
    MulUndo64(a, Inverse64(0xc4ceb9fe1a85ec53), 0xc4ceb9fe1a85ec53);
    var c := Mul64(a, Inverse64(0xc4ceb9fe1a85ec53));
    ShiftXor33Undo(c);
    MulUndo64(ShiftXor64(c, 33), Inverse64(0xff51afd7ed558ccd), 0xff51afd7ed558ccd);
    ShiftXor33Undo(Mul64(ShiftXor64(c, 33), Inverse64(0xff51afd7ed558ccd)));
  }
}
