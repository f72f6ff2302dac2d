// Words of 32 and 64 bits: the multiplications, rotations and shifts that the
// hash functions of src/ez_hash.c are made of, and what undoes them.

module Words {

  const SIZE32 := 0x1_0000_0000
  const SIZE64 := 0x1_0000_0000_0000_0000

  // ----- Words as numbers -----

  function Nat32(x: bv32): (n: nat)
    ensures n < SIZE32
  {
    x as nat
  }

  function Word32(n: nat): bv32
    requires n < SIZE32
  {
    n as bv32
  }

  function Nat64(x: bv64): (n: nat)
    ensures n < SIZE64
  {
    x as nat
  }

  function Word64(n: nat): bv64
    requires n < SIZE64
  {
    n as bv64
  }

  lemma AtMost32(n: nat)
    requires n < SIZE32
    ensures (n as bv32) as nat <= n
  {
  }

  lemma AtLeast32(n: nat)
    requires n < SIZE32
    ensures (n as bv32) as nat >= n
  {
  }

  lemma WordNat32(x: bv32, n: nat)
    requires n < SIZE32
    ensures Word32(Nat32(x)) == x && Nat32(Word32(n)) == n
  {
    AtMost32(n);
    AtLeast32(n);
  }

  lemma AtMost64(n: nat)
    requires n < SIZE64
    ensures (n as bv64) as nat <= n
  {
  }

  lemma AtLeast64(n: nat)
    requires n < SIZE64
    ensures (n as bv64) as nat >= n
  {
  }

  lemma WordNat64(x: bv64, n: nat)
    requires n < SIZE64
    ensures Word64(Nat64(x)) == x && Nat64(Word64(n)) == n
  {
    AtMost64(n);
    AtLeast64(n);
  }

  lemma ZeroNat32()
    ensures Nat32(0) == 0 && Word32(0) == 0
  {
  }

  lemma ZeroNat64()
    ensures Nat64(0) == 0 && Word64(0) == 0
  {
  }

  // A number that a word stands for, and back.
  lemma WordOf32(x: bv32, n: nat)
    requires Nat32(x) == n
    ensures Word32(n) == x
  {
    hide Nat32, Word32;
    WordNat32(x, 0);
  }

  lemma WordOf64(x: bv64, n: nat)
    requires Nat64(x) == n
    ensures Word64(n) == x
  {
    hide Nat64, Word64;
    WordNat64(x, 0);
  }

  // ----- Multiplication -----

  // The product that an unsigned multiplication keeps.
  function Mul32(x: bv32, c: nat): bv32 {
    Word32(Nat32(x) * c % SIZE32)
  }

  function Mul64(x: bv64, c: nat): bv64 {
    Word64(Nat64(x) * c % SIZE64)
  }

  lemma Remainder(a: int, q: int, m: nat, r: nat)
    requires r < m && a == q * m + r
    ensures a % m == r
  {
    var d := q - a / m;
    assert d * m == a % m - r;
    assert d >= 1 ==> d * m >= m;
    assert d <= -1 ==> d * m + m <= 0;
  }

  // Factors whose product is 1 undo each other.
  lemma Undo(x: nat, c: nat, d: nat, m: nat)
    requires m > 0 && c * d % m == 1 && x < m
    ensures x * c % m * d % m == x
  {
    var q, p := x * c / m, c * d / m;
    assert x * c * d == q * d * m + x * c % m * d;
    assert x * (c * d) == x * p * m + x;
    assert x * c % m * d == (x * p - q * d) * m + x;
    Remainder(x * c % m * d, x * p - q * d, m, x);
  }

  lemma MulUndo32(x: bv32, c: nat, d: nat)
    requires c * d % SIZE32 == 1
    ensures Mul32(Mul32(x, c), d) == x
  {
    hide Nat32, Word32;
    Undo(Nat32(x), c, d, SIZE32);
    WordNat32(x, Nat32(x) * c % SIZE32);
  }

  lemma MulUndo64(x: bv64, c: nat, d: nat)
    requires c * d % SIZE64 == 1
    ensures Mul64(Mul64(x, c), d) == x
  {
    hide Nat64, Word64;
    Undo(Nat64(x), c, d, SIZE64);
    WordNat64(x, Nat64(x) * c % SIZE64);
  }

  // The inverse of each constant that a hash function multiplies by.
  function Inverse32(c: nat): (d: nat)
    requires c in FACTORS32
    ensures c * d % SIZE32 == 1
  {
    if c == 5 then 0xcccccccd
    else if c == 0x85ebca6b then 0xa5cb9243
    else if c == 0xc2b2ae35 then 0x7ed1b41d
    else if c == 0xcc9e2d51 then 0xdee13bb1
    else if c == 0x1b873593 then 0x56ed309b
    else if c == 0x239b961b then 0x89c95413
    else if c == 0xab0e9789 then 0xdf130eb9
    else if c == 0x38b34ae5 then 0x747862ed
    else 0x58d64a9b
  }

  const FACTORS32: set<nat> := {
    5, 0x85ebca6b, 0xc2b2ae35, 0xcc9e2d51, 0x1b873593, 0x239b961b, 0xab0e9789, 0x38b34ae5, 0xa1e38b93
  }

  function Inverse64(c: nat): (d: nat)
    requires c in FACTORS64
    ensures c * d % SIZE64 == 1
  {
    if c == 5 then 0xcccccccccccccccd
    else if c == 0xff51afd7ed558ccd then 0x4f74430c22a54005
    else if c == 0xc4ceb9fe1a85ec53 then 0x9cb4b2f8129337db
    else if c == 0x87c37b91114253d5 then 0xa98409e882ce4d7d
    else 0xa81e14edd9de2c7f
  }

  const FACTORS64: set<nat> := {
    5, 0xff51afd7ed558ccd, 0xc4ceb9fe1a85ec53, 0x87c37b91114253d5, 0x4cf5ad432745937f
  }

  // ----- Rotation -----

  function Rotl32(x: bv32, r: bv32): bv32
    requires r <= 32
  {
    (x << r) | (x >> (32 - r))
  }

  function Rotl64(x: bv64, r: bv64): bv64
    requires r <= 64
  {
    (x << r) | (x >> (64 - r))
  }

  const ROTATIONS32: set<bv32> := {13, 14, 15, 16, 17, 18, 19}
  const ROTATIONS64: set<bv64> := {27, 31, 33, 37}

  lemma RotlUndo32(x: bv32, r: bv32)
    requires r in ROTATIONS32
    ensures 32 - r in ROTATIONS32 && Rotl32(Rotl32(x, r), 32 - r) == x
  {
    hide Rotl32;
    var y := Rotl32(x, r);
    if r == 13 {
      Rotl13(x, y);
    } else if r == 14 {
      Rotl14(x, y);
    } else if r == 15 {
      Rotl15(x, y);
    } else if r == 16 {
      Rotl16(x, y);
    } else if r == 17 {
      Rotl17(x, y);
    } else if r == 18 {
      Rotl18(x, y);
    } else {
      Rotl19(x, y);
    }
  }

  lemma Rotl13(x: bv32, y: bv32)
    requires y == Rotl32(x, 13)
    ensures x == Rotl32(y, 19)
  {
  }

  lemma Rotl14(x: bv32, y: bv32)
    requires y == Rotl32(x, 14)
    ensures x == Rotl32(y, 18)
  {
  }

  lemma Rotl15(x: bv32, y: bv32)
    requires y == Rotl32(x, 15)
    ensures x == Rotl32(y, 17)
  {
  }

  lemma Rotl16(x: bv32, y: bv32)
    requires y == Rotl32(x, 16)
    ensures x == Rotl32(y, 16)
  {
  }

  lemma Rotl17(x: bv32, y: bv32)
    requires y == Rotl32(x, 17)
    ensures x == Rotl32(y, 15)
  {
  }

  lemma Rotl18(x: bv32, y: bv32)
    requires y == Rotl32(x, 18)
    ensures x == Rotl32(y, 14)
  {
  }

  lemma Rotl19(x: bv32, y: bv32)
    requires y == Rotl32(x, 19)
    ensures x == Rotl32(y, 13)
  {
  }

  lemma RotlUndo64(x: bv64, r: bv64)
    requires r in ROTATIONS64
    ensures 64 - r in ROTATIONS64 && Rotl64(Rotl64(x, r), 64 - r) == x
  {
    hide Rotl64;
    var y := Rotl64(x, r);
    if r == 27 {
      Rotl27(x, y);
    } else if r == 31 {
      Rotl31(x, y);
    } else if r == 33 {
      Rotl33(x, y);
    } else {
      Rotl37(x, y);
    }
  }

  lemma Rotl27(x: bv64, y: bv64)
    requires y == Rotl64(x, 27)
    ensures x == Rotl64(y, 37)
  {
  }

  lemma Rotl31(x: bv64, y: bv64)
    requires y == Rotl64(x, 31)
    ensures x == Rotl64(y, 33)
  {
  }

  lemma Rotl33(x: bv64, y: bv64)
    requires y == Rotl64(x, 33)
    ensures x == Rotl64(y, 31)
  {
  }

  lemma Rotl37(x: bv64, y: bv64)
    requires y == Rotl64(x, 37)
    ensures x == Rotl64(y, 27)
  {
  }

  // ----- Sums, exclusive or and shifts -----

  lemma SumUndo(a: nat, b: nat, m: nat)
    requires a < m && b < m
    ensures ((a + b) % m - b) % m == a && ((a - b) % m + b) % m == a
  {
    Remainder(a + b, if a + b < m then 0 else 1, m, if a + b < m then a + b else a + b - m);
    Remainder((a + b) % m - b, if a + b < m then 0 else -1, m, a);
    Remainder(a - b, if a < b then -1 else 0, m, if a < b then a - b + m else a - b);
    Remainder((a - b) % m + b, if a < b then 1 else 0, m, a);
  }

  function Add32(a: bv32, b: bv32): bv32 {
    Word32((Nat32(a) + Nat32(b)) % SIZE32)
  }

  function Sub32(a: bv32, b: bv32): bv32 {
    Word32((Nat32(a) - Nat32(b)) % SIZE32)
  }

  function Xor32(a: bv32, b: bv32): bv32 {
    a ^ b
  }

  function Shr32(a: bv32, n: bv32): bv32
    requires n <= 32
  {
    a >> n
  }

  lemma AddUndo32(a: bv32, b: bv32)
    ensures Sub32(Add32(a, b), b) == a && Add32(Sub32(a, b), b) == a
  {
    hide Nat32, Word32;
    SumUndo(Nat32(a), Nat32(b), SIZE32);
    WordNat32(a, (Nat32(a) + Nat32(b)) % SIZE32);
    WordNat32(a, (Nat32(a) - Nat32(b)) % SIZE32);
  }

  lemma AddZero32(a: bv32)
    ensures Add32(a, 0) == a
  {
    hide Nat32, Word32;
    ZeroNat32();
    WordNat32(a, 0);
  }

  lemma XorUndo32(a: bv32, b: bv32)
    ensures Xor32(Xor32(a, b), b) == a && Xor32(a, 0) == a
  {
  }

  lemma XorRegroup32(a: bv32, b: bv32, c: bv32)
    ensures Xor32(Xor32(a, b), c) == Xor32(a, Xor32(b, c))
  {
  }

  lemma Shr13Xor(a: bv32, b: bv32, c: bv32)
    requires c == Xor32(a, b)
    ensures Shr32(c, 13) == Xor32(Shr32(a, 13), Shr32(b, 13))
  {
  }

  lemma Shr16Xor(a: bv32, b: bv32, c: bv32)
    requires c == Xor32(a, b)
    ensures Shr32(c, 16) == Xor32(Shr32(a, 16), Shr32(b, 16))
  {
  }

  lemma Shr26Xor(a: bv32, b: bv32, c: bv32)
    requires c == Xor32(a, b)
    ensures Shr32(c, 26) == Xor32(Shr32(a, 26), Shr32(b, 26))
  {
  }

  lemma ShrShr32(a: bv32)
    ensures Shr32(Shr32(a, 13), 13) == Shr32(a, 26) && Shr32(Shr32(a, 26), 13) == 0
    ensures Shr32(Shr32(a, 13), 26) == 0 && Shr32(Shr32(a, 16), 16) == 0
  {
  }

  // A word shifted into itself, and what undoes it.
  function ShiftXor32(x: bv32, n: bv32): bv32
    requires n <= 32
  {
    Xor32(x, Shr32(x, n))
  }

  function ShiftXor13Back(y: bv32): bv32 {
    Xor32(ShiftXor32(y, 13), Shr32(y, 26))
  }

  lemma ShiftXor16Undo(x: bv32)
    ensures ShiftXor32(ShiftXor32(x, 16), 16) == x
  {
    hide Xor32, Shr32;
    var z := Shr32(x, 16);
    Shr16Xor(x, z, Xor32(x, z));
    ShrShr32(x);
    XorUndo32(z, z);
    XorUndo32(x, z);
  }

  lemma ShiftXor13Undo(x: bv32)
    ensures ShiftXor13Back(ShiftXor32(x, 13)) == x && ShiftXor32(ShiftXor13Back(x), 13) == x
  {
    hide Xor32, Shr32;
    var a, b := Shr32(x, 13), Shr32(x, 26);
    var y, ab := Xor32(x, a), Xor32(a, b);
    ShrShr32(x);
    Shr13Xor(x, a, y);
    Shr26Xor(x, a, y);
    XorUndo32(b, b);
    XorUndo32(a, b);
    XorUndo32(x, a);
    XorRegroup32(y, ab, b);
    Shr13Xor(y, b, Xor32(y, b));
    XorUndo32(ab, ab);
    XorSwap32(b, ab);
    XorRegroup32(y, b, ab);
  }

  lemma XorSwap32(a: bv32, b: bv32)
    ensures Xor32(a, b) == Xor32(b, a)
  {
  }

  function Add64(a: bv64, b: bv64): bv64 {
    Word64((Nat64(a) + Nat64(b)) % SIZE64)
  }

  function Sub64(a: bv64, b: bv64): bv64 {
    Word64((Nat64(a) - Nat64(b)) % SIZE64)
  }

  function Xor64(a: bv64, b: bv64): bv64 {
    a ^ b
  }

  function Shr64(a: bv64, n: bv64): bv64
    requires n <= 64
  {
    a >> n
  }

  lemma AddUndo64(a: bv64, b: bv64)
    ensures Sub64(Add64(a, b), b) == a && Add64(Sub64(a, b), b) == a
  {
    hide Nat64, Word64;
    SumUndo(Nat64(a), Nat64(b), SIZE64);
    WordNat64(a, (Nat64(a) + Nat64(b)) % SIZE64);
    WordNat64(a, (Nat64(a) - Nat64(b)) % SIZE64);
  }

  lemma XorUndo64(a: bv64, b: bv64)
    ensures Xor64(Xor64(a, b), b) == a && Xor64(a, 0) == a
  {
  }

  lemma Shr33Xor(a: bv64, b: bv64, c: bv64)
    requires c == Xor64(a, b)
    ensures Shr64(c, 33) == Xor64(Shr64(a, 33), Shr64(b, 33))
  {
  }

  lemma ShrShr64(a: bv64)
    ensures Shr64(Shr64(a, 33), 33) == 0
  {
  }

  function ShiftXor64(x: bv64, n: bv64): bv64
    requires n <= 64
  {
    Xor64(x, Shr64(x, n))
  }

  lemma ShiftXor33Undo(x: bv64)
    ensures ShiftXor64(ShiftXor64(x, 33), 33) == x
  {
    hide Xor64, Shr64;
    var z := Shr64(x, 33);
    Shr33Xor(x, z, Xor64(x, z));
    ShrShr64(x);
    XorUndo64(z, z);
    XorUndo64(x, z);
  }
}
