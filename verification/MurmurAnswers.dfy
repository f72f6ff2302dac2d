// Known answers of the three hash functions: bytes in, numbers out. Each step of the
// calculation is an equation between numbers.

module MurmurAnswers {
  import opened Murmur
  import opened MurmurSteps
  import opened Words
  import Murmur32
  import Murmur128x86
  import Murmur128x64

  // ----- The steps on numbers -----

  lemma MulIs32(x: bv32, c: nat, y: bv32)
    requires Nat32(x) * c % SIZE32 == Nat32(y)
    ensures Mul32(x, c) == y
  {
    hide Nat32, Word32;
    WordNat32(y, 0);
  }

  lemma AddIs32(x: bv32, y: bv32, z: bv32)
    requires (Nat32(x) + Nat32(y)) % SIZE32 == Nat32(z)
    ensures Add32(x, y) == z
  {
    hide Nat32, Word32;
    WordNat32(z, 0);
  }

  lemma MixIs32(k: bv32, c: nat, r: bv32, d: nat, a: bv32, b: bv32, m: bv32)
    requires r <= 32
    requires Nat32(k) * c % SIZE32 == Nat32(a) && Rotl32(a, r) == b && Nat32(b) * d % SIZE32 == Nat32(m)
    ensures Mix32(k, c, r, d) == m
  {
    hide Nat32, Word32, Rotl32, Mul32;
    MulIs32(k, c, a);
    MulIs32(b, d, m);
  }

  lemma LaneIs32(h: bv32, m: bv32, r: bv32, next: bv32, add: bv32, a: bv32, b: bv32, c: bv32, y: bv32)
    requires r <= 32 && Rotl32(Xor32(h, m), r) == a && (Nat32(a) + Nat32(next)) % SIZE32 == Nat32(b)
    requires Nat32(b) * 5 % SIZE32 == Nat32(c) && (Nat32(c) + Nat32(add)) % SIZE32 == Nat32(y)
    ensures Lane32(h, m, r, next, add) == y
  {
    hide Nat32, Word32, Rotl32, Xor32, Mul32, Add32;
    AddIs32(a, next, b);
    MulIs32(b, 5, c);
    AddIs32(c, add, y);
  }

  lemma FmixIs32(h: bv32, a: bv32, b: bv32, c: bv32, d: bv32, y: bv32)
    requires ShiftXor32(h, 16) == a && Nat32(a) * 0x85ebca6b % SIZE32 == Nat32(b)
    requires ShiftXor32(b, 13) == c && Nat32(c) * 0xc2b2ae35 % SIZE32 == Nat32(d) && ShiftXor32(d, 16) == y
    ensures Fmix32(h) == y
  {
    hide Nat32, Word32, ShiftXor32, Mul32;
    MulIs32(a, 0x85ebca6b, b);
    MulIs32(c, 0xc2b2ae35, d);
  }

  lemma MulIs64(x: bv64, c: nat, y: bv64)
    requires Nat64(x) * c % SIZE64 == Nat64(y)
    ensures Mul64(x, c) == y
  {
    hide Nat64, Word64;
    WordNat64(y, 0);
  }

  lemma AddIs64(x: bv64, y: bv64, z: bv64)
    requires (Nat64(x) + Nat64(y)) % SIZE64 == Nat64(z)
    ensures Add64(x, y) == z
  {
    hide Nat64, Word64;
    WordNat64(z, 0);
  }

  lemma MixIs64(k: bv64, c: nat, r: bv64, d: nat, a: bv64, b: bv64, m: bv64)
    requires r <= 64
    requires Nat64(k) * c % SIZE64 == Nat64(a) && Rotl64(a, r) == b && Nat64(b) * d % SIZE64 == Nat64(m)
    ensures Mix64(k, c, r, d) == m
  {
    hide Nat64, Word64, Rotl64, Mul64;
    MulIs64(k, c, a);
    MulIs64(b, d, m);
  }

  lemma LaneIs64(h: bv64, m: bv64, r: bv64, next: bv64, add: bv64, a: bv64, b: bv64, c: bv64, y: bv64)
    requires r <= 64 && Rotl64(Xor64(h, m), r) == a && (Nat64(a) + Nat64(next)) % SIZE64 == Nat64(b)
    requires Nat64(b) * 5 % SIZE64 == Nat64(c) && (Nat64(c) + Nat64(add)) % SIZE64 == Nat64(y)
    ensures Lane64(h, m, r, next, add) == y
  {
    hide Nat64, Word64, Rotl64, Xor64, Mul64, Add64;
    AddIs64(a, next, b);
    MulIs64(b, 5, c);
    AddIs64(c, add, y);
  }

  lemma FmixIs64(h: bv64, a: bv64, b: bv64, c: bv64, d: bv64, y: bv64)
    requires ShiftXor64(h, 33) == a && Nat64(a) * 0xff51afd7ed558ccd % SIZE64 == Nat64(b)
    requires ShiftXor64(b, 33) == c && Nat64(c) * 0xc4ceb9fe1a85ec53 % SIZE64 == Nat64(d) && ShiftXor64(d, 33) == y
    ensures Fmix64(h) == y
  {
    hide Nat64, Word64, ShiftXor64, Mul64;
    MulIs64(a, 0xff51afd7ed558ccd, b);
    MulIs64(c, 0xc4ceb9fe1a85ec53, d);
  }

  // Four bytes of a key.
  lemma WordIs(key: seq<bv8>, w: nat, b0: bv8, b1: bv8, b2: bv8, b3: bv8, x: bv32)
    requires Byte(key, 4 * w) == b0 && Byte(key, 4 * w + 1) == b1
    requires Byte(key, 4 * w + 2) == b2 && Byte(key, 4 * w + 3) == b3
    requires Pack32(b0, b1, b2, b3) == x
    ensures Load32(key, w) == x
  {
    hide Byte, Pack32;
  }

  // ----- The keys -----

  // "hello", and two beginnings of "The quick brown fox jumps over the lazy dog": two
  // blocks of 4 and a tail of 3 bytes, and a block of 16 and a tail of 15 bytes.
  const HELLO: seq<bv8> := [0x68, 0x65, 0x6c, 0x6c, 0x6f]
  const QUICK: seq<bv8> := [0x54, 0x68, 0x65, 0x20, 0x71, 0x75, 0x69, 0x63, 0x6b, 0x20, 0x62]
  const BLOCK: seq<bv8> := [
    0x54, 0x68, 0x65, 0x20, 0x71, 0x75, 0x69, 0x63,
    0x6b, 0x20, 0x62, 0x72, 0x6f, 0x77, 0x6e, 0x20
  ]
  const TAIL: seq<bv8> := [
    0x66, 0x6f, 0x78, 0x20, 0x6a, 0x75, 0x6d, 0x70,
    0x73, 0x20, 0x6f, 0x76, 0x65, 0x72, 0x20
  ]
  const FOX := BLOCK + TAIL

  lemma HelloWords()
    ensures Load32(HELLO, 0) == 0x6c6c6568
    ensures Load32(HELLO, 1) == 0x0000006f
    ensures Load32(HELLO, 2) == 0x00000000
    ensures Load32(HELLO, 3) == 0x00000000
  {
    hide Load32;
    WordIs(HELLO, 0, 0x68, 0x65, 0x6c, 0x6c, 0x6c6c6568);
    WordIs(HELLO, 1, 0x6f, 0x00, 0x00, 0x00, 0x0000006f);
    WordIs(HELLO, 2, 0x00, 0x00, 0x00, 0x00, 0x00000000);
    WordIs(HELLO, 3, 0x00, 0x00, 0x00, 0x00, 0x00000000);
  }

  lemma FoxWords0()
    ensures Load32(FOX, 0) == 0x20656854
    ensures Load32(FOX, 1) == 0x63697571
  {
    hide Load32;
    WordIs(FOX, 0, 0x54, 0x68, 0x65, 0x20, 0x20656854);
    WordIs(FOX, 1, 0x71, 0x75, 0x69, 0x63, 0x63697571);
  }

  lemma FoxWords2()
    ensures Load32(FOX, 2) == 0x7262206b
    ensures Load32(FOX, 3) == 0x206e776f
  {
    hide Load32;
    WordIs(FOX, 2, 0x6b, 0x20, 0x62, 0x72, 0x7262206b);
    WordIs(FOX, 3, 0x6f, 0x77, 0x6e, 0x20, 0x206e776f);
  }

  lemma FoxWords4()
    ensures Load32(FOX, 4) == 0x20786f66
    ensures Load32(FOX, 5) == 0x706d756a
  {
    hide Load32;
    WordIs(FOX, 4, 0x66, 0x6f, 0x78, 0x20, 0x20786f66);
    WordIs(FOX, 5, 0x6a, 0x75, 0x6d, 0x70, 0x706d756a);
  }

  lemma FoxWords6()
    ensures Load32(FOX, 6) == 0x766f2073
    ensures Load32(FOX, 7) == 0x00207265
  {
    hide Load32;
    WordIs(FOX, 6, 0x73, 0x20, 0x6f, 0x76, 0x766f2073);
    WordIs(FOX, 7, 0x65, 0x72, 0x20, 0x00, 0x00207265);
  }

  lemma Length0()
    ensures Word32(0) == 0
  {
    WordOf32(0, 0);
  }

  lemma Length5()
    ensures Word32(5) == 5 && Word64(5) == 5
  {
    WordOf32(5, 5);
    WordOf64(5, 5);
  }

  lemma Length11()
    ensures Word32(11) == 11
  {
    WordOf32(11, 11);
  }

  lemma Length31()
    ensures Word32(31) == 31 && Word64(31) == 31
  {
    WordOf32(31, 31);
    WordOf64(31, 31);
  }

  // ----- MurmurHash3_x86_32 -----

  lemma Empty32Finish()
    ensures Murmur32.Finish(0x00000001, 0x00000000, 0) == 0x514e28b7
  {
    hide Word32, Mix32, Fmix32;
    MixZero32(0xcc9e2d51, 15, 0x1b873593);
    FmixIs32(0x00000001, 0x00000001, 0x85ebca6b, 0x85efe535, 0x514e79f9, 0x514e28b7);
  }

  lemma Empty32()
    ensures Murmur32.Hash([], 0x00000001) == 0x514e28b7
  {
    hide Nat32, Word32, Load32, Fold, Murmur32.Step, Murmur32.Finish;
    NoTail([], 0);
    FoldNone(Murmur32.Step, 0x00000001, []);
    assert Murmur32.Blocks([]) == [];
    Length0();
    Empty32Finish();
  }

  lemma Hello32Blocks()
    ensures Fold(Murmur32.Step, 0x00000000, [0x6c6c6568]) == 0xef13efcd
  {
    hide Word32, Mix32, Lane32, Fold;
    var ks := [0x6c6c6568];
    FoldNone(Murmur32.Step, 0x00000000, ks);
    MixIs32(0x6c6c6568, 0xcc9e2d51, 15, 0x1b873593, 0xd24f5de8, 0xaef46927, 0xa0ae7465);
    LaneIs32(0x00000000, 0xa0ae7465, 13, 0, 0xe6546b64,
             0xce8cb415, 0xce8cb415, 0x08bf8469, 0xef13efcd);
    FoldOne(Murmur32.Step, 0x00000000, ks, 0);
    assert ks[..1] == ks;
  }

  lemma Hello32Finish()
    ensures Murmur32.Finish(0xef13efcd, 0x0000006f, 5) == 0x248bfa47
  {
    hide Word32, Mix32, Fmix32;
    MixIs32(0x0000006f, 0xcc9e2d51, 15, 0x1b873593, 0xb895a61f, 0xd30fdc4a, 0x73bcd07e);
    FmixIs32(0x9caf3fb6, 0x9cafa319, 0xc90de573, 0xc90bad1c, 0x248bdecc, 0x248bfa47);
  }

  lemma Hello32()
    ensures Murmur32.Hash(HELLO, 0x00000000) == 0x248bfa47
  {
    hide Nat32, Word32, Load32, Fold, Murmur32.Step, Murmur32.Finish;
    HelloWords();
    Hello32Blocks();
    assert Murmur32.Blocks(HELLO) == [0x6c6c6568];
    Length5();
    Hello32Finish();
  }

  lemma Quick32Words()
    ensures Load32(QUICK, 0) == 0x20656854
    ensures Load32(QUICK, 1) == 0x63697571
    ensures Load32(QUICK, 2) == 0x0062206b
  {
    hide Load32;
    WordIs(QUICK, 0, 0x54, 0x68, 0x65, 0x20, 0x20656854);
    WordIs(QUICK, 1, 0x71, 0x75, 0x69, 0x63, 0x63697571);
    WordIs(QUICK, 2, 0x6b, 0x20, 0x62, 0x00, 0x0062206b);
  }

  lemma Quick32Blocks()
    ensures Fold(Murmur32.Step, 0x9747b28c, [0x20656854, 0x63697571]) == 0x7833f620
  {
    hide Word32, Mix32, Lane32, Fold;
    var ks := [0x20656854, 0x63697571];
    FoldNone(Murmur32.Step, 0x9747b28c, ks);
    MixIs32(0x20656854, 0xcc9e2d51, 15, 0x1b873593, 0x6744c694, 0x634a33a2, 0xb0ba3006);
    LaneIs32(0x9747b28c, 0xb0ba3006, 13, 0, 0xe6546b64,
             0xb05144ff, 0xb05144ff, 0x719658fb, 0x57eac45f);
    FoldOne(Murmur32.Step, 0x9747b28c, ks, 0);
    MixIs32(0x63697571, 0xcc9e2d51, 15, 0x1b873593, 0x85c105c1, 0x82e0c2e0, 0x138846a0);
    LaneIs32(0x57eac45f, 0x138846a0, 13, 0, 0xe6546b64,
             0x505fe88c, 0x505fe88c, 0x91df8abc, 0x7833f620);
    FoldOne(Murmur32.Step, 0x9747b28c, ks, 1);
    assert ks[..2] == ks;
  }

  lemma Quick32Finish()
    ensures Murmur32.Finish(0x7833f620, 0x0062206b, 11) == 0x47a3ce27
  {
    hide Word32, Mix32, Fmix32;
    MixIs32(0x0062206b, 0xcc9e2d51, 15, 0x1b873593, 0xa4c910db, 0x886dd264, 0x925a836c);
    FmixIs32(0xea697547, 0xea699f2e, 0x56f9d43a, 0x56fb63f4, 0x47a38984, 0x47a3ce27);
  }

  lemma Quick32()
    ensures Murmur32.Hash(QUICK, 0x9747b28c) == 0x47a3ce27
  {
    hide Nat32, Word32, Load32, Fold, Murmur32.Step, Murmur32.Finish;
    Quick32Words();
    Quick32Blocks();
    assert Murmur32.Blocks(QUICK) == [0x20656854, 0x63697571];
    Length11();
    Quick32Finish();
  }

  // ----- MurmurHash3_x86_128 -----

  lemma Hello86Words0()
    ensures Murmur128x86.Load(HELLO, 0) ==
      Murmur128x86.Quad(0x6c6c6568, 0x0000006f, 0x00000000, 0x00000000)
  {
    hide Load32;
    HelloWords();
  }

  lemma Hello86Mix0()
    ensures Murmur128x86.Mix(Murmur128x86.Quad(0x6c6c6568, 0x0000006f, 0x00000000, 0x00000000)) ==
      Murmur128x86.Quad(0x136817a8, 0xa5d8bf3f, 0x00000000, 0x00000000)
  {
    hide Word32, Mix32;
    MixIs32(0x6c6c6568, 0x239b961b, 15, 0xab0e9789, 0x90d1a1f8, 0xd0fc4868, 0x136817a8);
    MixIs32(0x0000006f, 0xab0e9789, 16, 0x38b34ae5, 0x2b53b467, 0xb4672b53, 0xa5d8bf3f);
    MixIs32(0x00000000, 0x38b34ae5, 17, 0xa1e38b93, 0x00000000, 0x00000000, 0x00000000);
    MixIs32(0x00000000, 0xa1e38b93, 18, 0x239b961b, 0x00000000, 0x00000000, 0x00000000);
  }

  lemma Hello86Finish()
    ensures Murmur128x86.Finish(
      Murmur128x86.Quad(0x136817a8, 0xa5d8bf3f, 0x00000000, 0x00000000), 5) ==
      Murmur128x86.Quad(0x2b2444a0, 0xdb91def7, 0x9adb31b6, 0x9adb31b6)
  {
    hide Word32, Add32, Fmix32;
    AddIs32(0x136817ad, 0xa5d8bf3a, 0xb940d6e7);
    AddIs32(0xb940d6e7, 0x00000005, 0xb940d6ec);
    AddIs32(0xb940d6ec, 0x00000005, 0xb940d6f1);
    AddIs32(0xa5d8bf3a, 0xb940d6f1, 0x5f19962b);
    AddIs32(0x00000005, 0xb940d6f1, 0xb940d6f6);
    AddIs32(0x00000005, 0xb940d6f1, 0xb940d6f6);
    FmixIs32(0xb940d6f1, 0xb9406fb1, 0xc28b58fb, 0xc28d4ca1, 0x9b484b55, 0x9b48d01d);
    FmixIs32(0x5f19962b, 0x5f19c932, 0xc36e8be6, 0xc3689092, 0xb06d2a3a, 0xb06d9a57);
    FmixIs32(0xb940d6f6, 0xb9406fb6, 0x60264d12, 0x60254c20, 0x6fb682a0, 0x6fb6ed16);
    FmixIs32(0xb940d6f6, 0xb9406fb6, 0x60264d12, 0x60254c20, 0x6fb682a0, 0x6fb6ed16);
    AddIs32(0x9b48d01d, 0xb06d9a57, 0x4bb66a74);
    AddIs32(0x4bb66a74, 0x6fb6ed16, 0xbb6d578a);
    AddIs32(0xbb6d578a, 0x6fb6ed16, 0x2b2444a0);
    AddIs32(0xb06d9a57, 0x2b2444a0, 0xdb91def7);
    AddIs32(0x6fb6ed16, 0x2b2444a0, 0x9adb31b6);
    AddIs32(0x6fb6ed16, 0x2b2444a0, 0x9adb31b6);
  }

  lemma Hello86()
    ensures Murmur128x86.Hash(HELLO, 0x00000000) ==
      Murmur128x86.Quad(0x2b2444a0, 0xdb91def7, 0x9adb31b6, 0x9adb31b6)
  {
    hide Nat32, Word32, Fold, Murmur128x86.Step, Murmur128x86.Finish, Murmur128x86.Mix, Murmur128x86.Load;
    Length5();
    assert Murmur128x86.Blocks(HELLO) == [];
    FoldNone(Murmur128x86.Step, Murmur128x86.Quad(0x00000000, 0x00000000, 0x00000000, 0x00000000), []);
    Hello86Words0();
    Hello86Mix0();
    Hello86Finish();
  }

  lemma Fox86Words0()
    ensures Murmur128x86.Load(FOX, 0) ==
      Murmur128x86.Quad(0x20656854, 0x63697571, 0x7262206b, 0x206e776f)
  {
    hide Load32;
    FoxWords0();
    FoxWords2();
  }

  lemma Fox86Mix0()
    ensures Murmur128x86.Mix(Murmur128x86.Quad(0x20656854, 0x63697571, 0x7262206b, 0x206e776f)) ==
      Murmur128x86.Quad(0x4386ad8f, 0xce0a2f0f, 0x95d17017, 0xdfc6ae41)
  {
    hide Word32, Mix32;
    MixIs32(0x20656854, 0x239b961b, 15, 0xab0e9789, 0x7caf38dc, 0x9c6e3e57, 0x4386ad8f);
    MixIs32(0x63697571, 0xab0e9789, 16, 0x38b34ae5, 0x4ee38079, 0x80794ee3, 0xce0a2f0f);
    MixIs32(0x7262206b, 0x38b34ae5, 17, 0xa1e38b93, 0xc1f6edb7, 0xdb6f83ed, 0x95d17017);
    MixIs32(0x206e776f, 0xa1e38b93, 18, 0x239b961b, 0x50b4d9bd, 0x66f542d3, 0xdfc6ae41);
  }

  lemma Fox86Words1()
    ensures Murmur128x86.Load(FOX, 1) ==
      Murmur128x86.Quad(0x20786f66, 0x706d756a, 0x766f2073, 0x00207265)
  {
    hide Load32;
    FoxWords4();
    FoxWords6();
  }

  lemma Fox86Mix1()
    ensures Murmur128x86.Mix(Murmur128x86.Quad(0x20786f66, 0x706d756a, 0x766f2073, 0x00207265)) ==
      Murmur128x86.Quad(0x67b745c5, 0x5d865e05, 0xb30e1b6c, 0xd8f960b2)
  {
    hide Word32, Mix32;
    MixIs32(0x20786f66, 0x239b961b, 15, 0xab0e9789, 0x62bb83c2, 0xc1e1315d, 0x67b745c5);
    MixIs32(0x706d756a, 0xab0e9789, 16, 0x38b34ae5, 0xf4a15bba, 0x5bbaf4a1, 0x5d865e05);
    MixIs32(0x766f2073, 0x38b34ae5, 17, 0xa1e38b93, 0xe93244df, 0x89bfd264, 0xb30e1b6c);
    MixIs32(0x00207265, 0xa1e38b93, 18, 0x239b961b, 0xa54d86ff, 0x1bfe9536, 0xd8f960b2);
  }

  lemma Fox86Block0()
    ensures Murmur128x86.Absorb(
      Murmur128x86.Quad(0x9747b28c, 0x9747b28c, 0x9747b28c, 0x9747b28c),
      Murmur128x86.Quad(0x4386ad8f, 0xce0a2f0f, 0x95d17017, 0xdfc6ae41)) ==
      Murmur128x86.Quad(0x231c87ff, 0x2752a10a, 0x71b71f68, 0x943b3062)
  {
    hide Word32, Lane32;
    LaneIs32(0x9747b28c, 0x4386ad8f, 19, 0x9747b28c, 0x561ccd1b,
             0xf81ea608, 0x8f665894, 0xccffbae4, 0x231c87ff);
    LaneIs32(0x9747b28c, 0xce0a2f0f, 17, 0x9747b28c, 0x0bcaa747,
             0x3b06b29b, 0xd24e6527, 0x1b87f9c3, 0x2752a10a);
    LaneIs32(0x9747b28c, 0x95d17017, 15, 0x9747b28c, 0x96cd1c35,
             0x614d814b, 0xf89533d7, 0xdaea0333, 0x71b71f68);
    LaneIs32(0x9747b28c, 0xdfc6ae41, 13, 0x231c87ff, 0x32ac3b17,
             0x2399a910, 0x46b6310f, 0x618ef54b, 0x943b3062);
  }

  lemma Fox86Finish()
    ensures Murmur128x86.Finish(
      Murmur128x86.Quad(0x44abc23a, 0x7ad4ff0f, 0xc2b90404, 0x4cc250d0), 31) ==
      Murmur128x86.Quad(0x12929f8b, 0x2fd85538, 0x9ca1fa5e, 0xbb3b7d5f)
  {
    hide Word32, Add32, Fmix32;
    AddIs32(0x44abc225, 0x7ad4ff10, 0xbf80c135);
    AddIs32(0xbf80c135, 0xc2b9041b, 0x8239c550);
    AddIs32(0x8239c550, 0x4cc250cf, 0xcefc161f);
    AddIs32(0x7ad4ff10, 0xcefc161f, 0x49d1152f);
    AddIs32(0xc2b9041b, 0xcefc161f, 0x91b51a3a);
    AddIs32(0x4cc250cf, 0xcefc161f, 0x1bbe66ee);
    FmixIs32(0xcefc161f, 0xcefcd8e3, 0x0e32c4e1, 0x0e32b577, 0xc29473a3, 0xc294b137);
    FmixIs32(0x49d1152f, 0x49d15cfe, 0x610c4a2a, 0x610f4248, 0x1d45a8e8, 0x1d45b5ad);
    FmixIs32(0x91b51a3a, 0x91b58b8f, 0x8e452ac5, 0x8e4158ec, 0x8a0fd0dc, 0x8a0f5ad3);
    FmixIs32(0x1bbe66ee, 0x1bbe7d50, 0x7fef8070, 0x7fec7f0c, 0xa8a8757c, 0xa8a8ddd4);
    AddIs32(0xc294b137, 0x1d45b5ad, 0xdfda66e4);
    AddIs32(0xdfda66e4, 0x8a0f5ad3, 0x69e9c1b7);
    AddIs32(0x69e9c1b7, 0xa8a8ddd4, 0x12929f8b);
    AddIs32(0x1d45b5ad, 0x12929f8b, 0x2fd85538);
    AddIs32(0x8a0f5ad3, 0x12929f8b, 0x9ca1fa5e);
    AddIs32(0xa8a8ddd4, 0x12929f8b, 0xbb3b7d5f);
  }

  lemma Fox86Blocks()
    ensures Fold(Murmur128x86.Step,
      Murmur128x86.Quad(0x9747b28c, 0x9747b28c, 0x9747b28c, 0x9747b28c),
      [Murmur128x86.Quad(0x20656854, 0x63697571, 0x7262206b, 0x206e776f)]) ==
      Murmur128x86.Quad(0x231c87ff, 0x2752a10a, 0x71b71f68, 0x943b3062)
  {
    hide Word32, Fold, Murmur128x86.Mix, Murmur128x86.Absorb;
    var start, ks := Murmur128x86.Quad(0x9747b28c, 0x9747b28c, 0x9747b28c, 0x9747b28c), [Murmur128x86.Quad(0x20656854, 0x63697571, 0x7262206b, 0x206e776f)];
    FoldNone(Murmur128x86.Step, start, ks);
    Fox86Mix0();
    Fox86Block0();
    FoldOne(Murmur128x86.Step, start, ks, 0);
    assert ks[..1] == ks;
  }

  lemma Fox86()
    ensures Murmur128x86.Hash(FOX, 0x9747b28c) ==
      Murmur128x86.Quad(0x12929f8b, 0x2fd85538, 0x9ca1fa5e, 0xbb3b7d5f)
  {
    hide Nat32, Word32, Fold, Murmur128x86.Step, Murmur128x86.Finish, Murmur128x86.Mix, Murmur128x86.Load;
    Length31();
    Fox86Words0();
    assert Murmur128x86.Blocks(FOX) == [Murmur128x86.Quad(0x20656854, 0x63697571, 0x7262206b, 0x206e776f)];
    Fox86Blocks();
    Fox86Words1();
    Fox86Mix1();
    Fox86Finish();
  }

  // ----- MurmurHash3_x64_128 -----

  lemma Hello64Words0()
    ensures Murmur128x64.Load(HELLO, 0) ==
      Murmur128x64.Pair(0x0000006f6c6c6568, 0x0000000000000000)
  {
    hide Load32;
    HelloWords();
  }

  lemma Hello64Mix0()
    ensures Murmur128x64.Mix(Murmur128x64.Pair(0x0000006f6c6c6568, 0x0000000000000000)) ==
      Murmur128x64.Pair(0x8c3f01c9e77511c7, 0x0000000000000000)
  {
    hide Word64, Mix64;
    MixIs64(0x0000006f6c6c6568, 0x87c37b91114253d5, 31, 0x4cf5ad432745937f,
            0x17680b7267e11788, 0x33f08bc40bb405b9, 0x8c3f01c9e77511c7);
    MixIs64(0x0000000000000000, 0x4cf5ad432745937f, 33, 0x87c37b91114253d5,
            0x0000000000000000, 0x0000000000000000, 0x0000000000000000);
  }

  lemma Hello64Finish()
    ensures Murmur128x64.Finish(
      Murmur128x64.Pair(0x8c3f01c9e77511c7, 0x0000000000000000), 5) ==
      Murmur128x64.Pair(0xcbd8a7b341bd9b02, 0x5b1e906a48ae1d19)
  {
    hide Word64, Add64, Fmix64;
    AddIs64(0x8c3f01c9e77511c2, 0x0000000000000005, 0x8c3f01c9e77511c7);
    AddIs64(0x0000000000000005, 0x8c3f01c9e77511c7, 0x8c3f01c9e77511cc);
    FmixIs64(0x8c3f01c9e77511c7, 0x8c3f01c9a16a9123, 0x389ac4e121545d07,
             0x389ac4e13d193f77, 0x3c92befc24844795, 0x3c92befc3acd18eb);
    FmixIs64(0x8c3f01c9e77511cc, 0x8c3f01c9a16a9128, 0x35333418c4001d08,
             0x35333418de998704, 0x8f45e8b74152764c, 0x8f45e8b706f08217);
    AddIs64(0x3c92befc3acd18eb, 0x8f45e8b706f08217, 0xcbd8a7b341bd9b02);
    AddIs64(0x8f45e8b706f08217, 0xcbd8a7b341bd9b02, 0x5b1e906a48ae1d19);
  }

  lemma Hello64()
    ensures Murmur128x64.Hash(HELLO, 0x00000000) ==
      Murmur128x64.Pair(0xcbd8a7b341bd9b02, 0x5b1e906a48ae1d19)
  {
    hide Nat64, Word64, Fold, Murmur128x64.Step, Murmur128x64.Finish, Murmur128x64.Mix, Murmur128x64.Load;
    Length5();
    assert Murmur128x64.Blocks(HELLO) == [];
    FoldNone(Murmur128x64.Step, Murmur128x64.Pair(0x0000000000000000, 0x0000000000000000), []);
    Hello64Words0();
    Hello64Mix0();
    Hello64Finish();
  }

  lemma Fox64Words0()
    ensures Murmur128x64.Load(FOX, 0) ==
      Murmur128x64.Pair(0x6369757120656854, 0x206e776f7262206b)
  {
    hide Load32;
    FoxWords0();
    FoxWords2();
  }

  lemma Fox64Mix0()
    ensures Murmur128x64.Mix(Murmur128x64.Pair(0x6369757120656854, 0x206e776f7262206b)) ==
      Murmur128x64.Pair(0xede938f35bfbb35d, 0x9b19a81a60aa0b18)
  {
    hide Word64, Mix64;
    MixIs64(0x6369757120656854, 0x87c37b91114253d5, 31, 0x4cf5ad432745937f,
            0x88afee474edb09e4, 0xa76d84f24457f723, 0xede938f35bfbb35d);
    MixIs64(0x206e776f7262206b, 0x4cf5ad432745937f, 33, 0x87c37b91114253d5,
            0xbad6d15c21228615, 0x42450c2b75ada2b8, 0x9b19a81a60aa0b18);
  }

  lemma Fox64Words1()
    ensures Murmur128x64.Load(FOX, 1) ==
      Murmur128x64.Pair(0x706d756a20786f66, 0x00207265766f2073)
  {
    hide Load32;
    FoxWords4();
    FoxWords6();
  }

  lemma Fox64Mix1()
    ensures Murmur128x64.Mix(Murmur128x64.Pair(0x706d756a20786f66, 0x00207265766f2073)) ==
      Murmur128x64.Pair(0x82e320fa65aeeb7a, 0x899fcc7399edf347)
  {
    hide Word64, Mix64;
    MixIs64(0x706d756a20786f66, 0x87c37b91114253d5, 31, 0x4cf5ad432745937f,
            0x4017930c8e9ec1de, 0x474f60ef200bc986, 0x82e320fa65aeeb7a);
    MixIs64(0x00207265766f2073, 0x4cf5ad432745937f, 33, 0x87c37b91114253d5,
            0x463f1255d4c2220d, 0xa984441a8c7e24ab, 0x899fcc7399edf347);
  }

  lemma Fox64Block0()
    ensures Murmur128x64.Absorb(
      Murmur128x64.Pair(0x000000009747b28c, 0x000000009747b28c),
      Murmur128x64.Pair(0xede938f35bfbb35d, 0x9b19a81a60aa0b18)) ==
      Murmur128x64.Pair(0x17fd604c146fd4c8, 0xe3c531702238a6de)
  {
    hide Word64, Lane64;
    LaneIs64(0x000000009747b28c, 0xede938f35bfbb35d, 27, 0x000000009747b28c, 0x52dce729,
             0x9e65e00e8f6f49c7, 0x9e65e00f26b6fc53,
             0x17fd604bc192ed9f, 0x17fd604c146fd4c8);
    LaneIs64(0x000000009747b28c, 0x9b19a81a60aa0b18, 31, 0x17fd604c146fd4c8, 0x38495ab5,
             0x7bf6dcca4d8cd40d, 0x93f43d1661fca8d5,
             0xe3c5316fe9ef4c29, 0xe3c531702238a6de);
  }

  lemma Fox64Finish()
    ensures Murmur128x64.Finish(
      Murmur128x64.Pair(0x951e40b671c13fb2, 0x6a5afd03bbd55599), 31) ==
      Murmur128x64.Pair(0x3af6848c36505cd6, 0x31f1d3094a2d9de4)
  {
    hide Word64, Add64, Fmix64;
    AddIs64(0x951e40b671c13fad, 0x6a5afd03bbd55586, 0xff793dba2d969533);
    AddIs64(0x6a5afd03bbd55586, 0xff793dba2d969533, 0x69d43abde96beab9);
    FmixIs64(0xff793dba2d969533, 0xff793dba522a0bee, 0x768c3f061637b596,
             0x768c3f062d71aa15, 0x43fb360f038e80cf, 0x43fb360f22731bc8);
    FmixIs64(0x69d43abde96beab9, 0x69d43abddd81f7e7, 0x7fe3d9d69f58d7fb,
             0x7fe3d9d6a0a93b10, 0xf6fb4e7d68a0e630, 0xf6fb4e7d13dd410e);
    AddIs64(0x43fb360f22731bc8, 0xf6fb4e7d13dd410e, 0x3af6848c36505cd6);
    AddIs64(0xf6fb4e7d13dd410e, 0x3af6848c36505cd6, 0x31f1d3094a2d9de4);
  }

  lemma Fox64Blocks()
    ensures Fold(Murmur128x64.Step,
      Murmur128x64.Pair(0x000000009747b28c, 0x000000009747b28c),
      [Murmur128x64.Pair(0x6369757120656854, 0x206e776f7262206b)]) ==
      Murmur128x64.Pair(0x17fd604c146fd4c8, 0xe3c531702238a6de)
  {
    hide Word64, Fold, Murmur128x64.Mix, Murmur128x64.Absorb;
    var start, ks := Murmur128x64.Pair(0x000000009747b28c, 0x000000009747b28c), [Murmur128x64.Pair(0x6369757120656854, 0x206e776f7262206b)];
    FoldNone(Murmur128x64.Step, start, ks);
    Fox64Mix0();
    Fox64Block0();
    FoldOne(Murmur128x64.Step, start, ks, 0);
    assert ks[..1] == ks;
  }

  lemma Fox64()
    ensures Murmur128x64.Hash(FOX, 0x9747b28c) ==
      Murmur128x64.Pair(0x3af6848c36505cd6, 0x31f1d3094a2d9de4)
  {
    hide Nat64, Word64, Fold, Murmur128x64.Step, Murmur128x64.Finish, Murmur128x64.Mix, Murmur128x64.Load;
    Length31();
    Fox64Words0();
    assert Murmur128x64.Blocks(FOX) == [Murmur128x64.Pair(0x6369757120656854, 0x206e776f7262206b)];
    Fox64Blocks();
    Fox64Words1();
    Fox64Mix1();
    Fox64Finish();
  }
}
