// The UTF-8 codec of src/ez_string.c, with its departures from the standard as they
// are written: an ASCII character makes encoding pass over the character behind
// it, and decoding shifts by five bits where two bytes make one character.

module Utf8 {

  // A wide character is a signed number; the negative ones go the way of ASCII.
  predicate Ascii(x: bv32) {
    x <= 0x7f || x >= 0x8000_0000
  }

  // The characters of three and four bytes.
  predicate Long(x: bv32) {
    0x800 <= x <= 0x10FFFF
  }

  // A byte behind the first one: six bits, from bit `n` on.
  function Next(x: bv32, n: bv32): bv8
    requires n <= 32
  {
    (0x80 | ((x >> n) & 0x3F)) as bv8
  }

  // The first byte of two, three and four.
  function First2(x: bv32): bv8 {
    (0xC0 | ((x >> 6) & 0x1F)) as bv8
  }

  function First3(x: bv32): bv8 {
    (0xE0 | ((x >> 12) & 0xF)) as bv8
  }

  function First4(x: bv32): bv8 {
    (0xF0 | ((x >> 18) & 0x7)) as bv8
  }

  // The bytes of one character, none for what is no character.
  function Unit(x: bv32): seq<bv8> {
    if Ascii(x) then [(x & 0xff) as bv8]
    else if x <= 0x7ff then [First2(x), Next(x, 0)]
    else if x <= 0xFFFF then [First3(x), Next(x, 6), Next(x, 0)]
    else if x <= 0x10FFFF then [First4(x), Next(x, 12), Next(x, 6), Next(x, 0)]
    else []
  }

  // What is left of a text behind its first `n` elements.
  function Rest<T>(s: seq<T>, n: nat): (r: seq<T>)
    ensures n > 0 && s != [] ==> |r| < |s|
  {
    if n <= |s| then s[n..] else []
  }

  function Encoded(s: seq<bv32>): seq<bv8>
    decreases |s|
  {
    if s == [] then [] else Unit(s[0]) + Encoded(Rest(s, if Ascii(s[0]) then 2 else 1))
  }

  // left_bits: the length that a first byte announces, zero if it is none.
  function LeftBits(x: bv8): (n: nat)
    ensures n in {0, 2, 3, 4}
  {
    if x & 0xE0 == 0xC0 then 2
    else if x & 0xF0 == 0xE0 then 3
    else if x & 0xF8 == 0xF0 then 4
    else 0
  }

  // How far decoding goes on from this first byte.
  function Width(x: bv8): (n: nat)
    ensures n > 0
  {
    if x <= 0x7f || LeftBits(x) == 0 then 1 else LeftBits(x)
  }

  // No character is cut off at the end.
  predicate Complete(s: seq<bv8>) {
    s == [] || (Width(s[0]) <= |s| && Complete(s[Width(s[0])..]))
  }

  // The bits of a first byte, and the bits of another byte behind what there is.
  function Start(x: bv8, mask: bv8): bv32 {
    (x & mask) as bv32
  }

  function Append(acc: bv32, shift: bv32, x: bv8): bv32
    requires shift <= 32
  {
    (acc << shift) | (x & 0x3F) as bv32
  }

  // The character at the start, if there is one.
  function Char(s: seq<bv8>): seq<bv32>
    requires s != [] && Width(s[0]) <= |s|
  {
    if s[0] <= 0x7f then [s[0] as bv32]
    else if LeftBits(s[0]) == 2 then [Append(Start(s[0], 0x1F), 5, s[1])]
    else if LeftBits(s[0]) == 3 then [Append(Append(Start(s[0], 0xF), 6, s[1]), 6, s[2])]
    else if LeftBits(s[0]) == 4 then [Append(Append(Append(Start(s[0], 0x7), 6, s[1]), 6, s[2]), 6, s[3])]
    else []
  }

  function Decoded(s: seq<bv8>): seq<bv32>
    requires Complete(s)
  {
    if s == [] then [] else Char(s) + Decoded(s[Width(s[0])..])
  }

  // ----- One character -----

  lemma Bits2(x: bv32)
    requires 0x80 <= x <= 0x7FF
    ensures First2(x) > 0x7f && LeftBits(First2(x)) == 2
    ensures Append(Start(First2(x), 0x1F), 5, Next(x, 0)) != x
  {
  }

  lemma Bits3(x: bv32, b0: bv8, b1: bv8, b2: bv8)
    requires 0x800 <= x <= 0xFFFF && b0 == First3(x) && b1 == Next(x, 6) && b2 == Next(x, 0)
    ensures b0 > 0x7f && LeftBits(b0) == 3
    ensures Append(Append(Start(b0, 0xF), 6, b1), 6, b2) == x
  {
  }

  lemma Bits4(x: bv32, b0: bv8, b1: bv8, b2: bv8, b3: bv8)
    requires 0x10000 <= x <= 0x10FFFF
    requires b0 == First4(x) && b1 == Next(x, 12) && b2 == Next(x, 6) && b3 == Next(x, 0)
    ensures b0 > 0x7f && LeftBits(b0) == 4
    ensures Append(Append(Append(Start(b0, 0x7), 6, b1), 6, b2), 6, b3) == x
  {
  }

  // The layout of section 3 of RFC 3629: a first byte from E0 or from F0 on, then
  // bytes from 80 to BF.
  lemma Layout(x: bv32, n: bv32)
    requires Long(x) && n <= 12
    ensures 0x80 <= Next(x, n) <= 0xBF
    ensures if x <= 0xFFFF then 0xE0 <= First3(x) <= 0xEF else 0xF0 <= First4(x) <= 0xF4
  {
  }

  lemma UnitLong(x: bv32)
    requires Long(x)
    ensures |Unit(x)| == (if x <= 0xFFFF then 3 else 4)
    ensures Width(Unit(x)[0]) == |Unit(x)| && Char(Unit(x)) == [x]
  {
    hide First2, First3, First4, Next, Append, Start, LeftBits;
    if x <= 0xFFFF {
      Bits3(x, First3(x), Next(x, 6), Next(x, 0));
    } else {
      Bits4(x, First4(x), Next(x, 12), Next(x, 6), Next(x, 0));
    }
  }

  lemma UnitTwo(x: bv32)
    requires 0x80 <= x <= 0x7FF
    ensures Width(Unit(x)[0]) == |Unit(x)| == 2
    ensures |Char(Unit(x))| == 1 && Char(Unit(x))[0] != x
  {
    hide First2, First3, First4, Next, Append, Start, LeftBits;
    Bits2(x);
  }

  lemma UnitAscii(x: bv32)
    requires x <= 0x7f
    ensures |Unit(x)| == 1 && Width(Unit(x)[0]) == 1 && Char(Unit(x)) == [x]
  {
  }

  // ----- Whole texts -----

  // A character in front of complete bytes is decoded from its own bytes.
  lemma UnitInFront(x: bv32, rest: seq<bv8>)
    requires Complete(rest) && Unit(x) != [] && Width(Unit(x)[0]) == |Unit(x)|
    ensures Complete(Unit(x) + rest)
    ensures Decoded(Unit(x) + rest) == Char(Unit(x)) + Decoded(rest)
  {
    hide Unit, LeftBits, Append, Start;
    var s := Unit(x) + rest;
    assert s[0] == Unit(x)[0] && s[|Unit(x)|..] == rest;
    CharInFront(Unit(x), rest);
  }

  lemma CharInFront(u: seq<bv8>, rest: seq<bv8>)
    requires u != [] && Width(u[0]) <= |u|
    ensures Char(u + rest) == Char(u)
  {
    hide LeftBits, Append, Start;
  }

  // Texts that the codec gives back: only the last character may be ASCII.
  ghost predicate Kept(s: seq<bv32>) {
    forall i :: 0 <= i < |s| ==> Long(s[i]) || (i == |s| - 1 && s[i] <= 0x7f)
  }

  // Without negative characters the bytes are complete and never more characters
  // than there were.
  lemma {:induction false} RoundTripOfText(s: seq<bv32>)
    requires forall i :: 0 <= i < |s| ==> s[i] < 0x8000_0000
    ensures Complete(Encoded(s)) && |Decoded(Encoded(s))| <= |s|
    ensures Decoded(Encoded(s)) == s <==> Kept(s)
    decreases |s|
  {
    hide Unit, Char, Width, Kept;
    if s == [] {
      KeptShort(s);
      return;
    }
    var x, n := s[0], if Ascii(s[0]) then 2 else 1;
    var rest := Rest(s, n);
    RoundTripOfText(rest);
    if Long(x) {
      UnitLong(x);
      UnitInFront(x, Encoded(rest));
      KeptTail(s);
    } else if x <= 0x7f {
      UnitAscii(x);
      UnitInFront(x, Encoded(rest));
      if |s| == 1 {
        KeptShort(s);
      } else {
        KeptNot(s);
      }
    } else if x <= 0x7ff {
      UnitTwo(x);
      UnitInFront(x, Encoded(rest));
      KeptNot(s);
    } else {
      UnitNone(x);
      assert Unit(x) + Encoded(rest) == Encoded(rest);
      KeptNot(s);
    }
  }

  // Decoding never yields a negative character.
  lemma CharSmall(s: seq<bv8>)
    requires s != [] && Width(s[0]) <= |s|
    ensures forall i :: 0 <= i < |Char(s)| ==> Char(s)[i] < 0x8000_0000
  {
    hide LeftBits, Append, Start;
    if s[0] <= 0x7f {
      SmallByte(s[0]);
    } else if LeftBits(s[0]) == 2 {
      Small2(s[0], s[1]);
    } else if LeftBits(s[0]) == 3 {
      Small3(s[0], s[1], s[2]);
    } else if LeftBits(s[0]) == 4 {
      Small4(s[0], s[1], s[2], s[3]);
    }
  }

  lemma SmallByte(b: bv8)
    ensures b as bv32 < 0x8000_0000
  {
  }

  lemma Small2(b0: bv8, b1: bv8)
    ensures Append(Start(b0, 0x1F), 5, b1) < 0x8000_0000
  {
  }

  lemma Small3(b0: bv8, b1: bv8, b2: bv8)
    ensures Append(Append(Start(b0, 0xF), 6, b1), 6, b2) < 0x8000_0000
  {
  }

  lemma Small4(b0: bv8, b1: bv8, b2: bv8, b3: bv8)
    ensures Append(Append(Append(Start(b0, 0x7), 6, b1), 6, b2), 6, b3) < 0x8000_0000
  {
  }

  lemma {:induction false} DecodedSmall(s: seq<bv8>)
    requires Complete(s)
    ensures forall i :: 0 <= i < |Decoded(s)| ==> Decoded(s)[i] < 0x8000_0000
  {
    hide Char, Width;
    if s != [] {
      CharSmall(s);
      DecodedSmall(s[Width(s[0])..]);
    }
  }

  // Decoding undoes encoding exactly on these texts, negative characters included.
  lemma RoundTripExactly(s: seq<bv32>)
    ensures Complete(Encoded(s)) && Decoded(Encoded(s)) == s <==> Kept(s)
  {
    hide Encoded, Decoded, Complete;
    if Kept(s) {
      RoundTripOfText(s);
    }
    if Complete(Encoded(s)) && Decoded(Encoded(s)) == s {
      DecodedSmall(Encoded(s));
      RoundTripOfText(s);
    }
  }

  lemma KeptShort(s: seq<bv32>)
    requires s == [] || (|s| == 1 && s[0] <= 0x7f)
    ensures Kept(s)
  {
  }

  lemma KeptNot(s: seq<bv32>)
    requires s != [] && !Long(s[0]) && (|s| > 1 || s[0] > 0x7f)
    ensures !Kept(s)
  {
  }

  lemma UnitNone(x: bv32)
    requires 0x10FFFF < x < 0x8000_0000
    ensures Unit(x) == []
  {
  }

  lemma KeptTail(s: seq<bv32>)
    requires s != [] && Long(s[0])
    ensures Kept(s) <==> Kept(s[1..])
  {
    if Kept(s[1..]) {
      forall i | 0 <= i < |s| ensures Long(s[i]) || (i == |s| - 1 && s[i] <= 0x7f) {
        assert i > 0 ==> s[i] == s[1..][i - 1];
      }
    }
  }

  ghost function FourByteCount(s: seq<bv32>): nat {
    if s == [] then 0 else (if s[0] > 0xFFFF then 1 else 0) + FourByteCount(s[1..])
  }

  // Three bytes for each character, and one more for those beyond 0xFFFF.
  lemma {:induction false} LongRoundTrip(s: seq<bv32>)
    requires forall i :: 0 <= i < |s| ==> Long(s[i])
    ensures Complete(Encoded(s)) && Decoded(Encoded(s)) == s
    ensures |Encoded(s)| == 3 * |s| + FourByteCount(s)
  {
    hide Unit, Decoded, Complete;
    RoundTripOfText(s);
    if s != [] {
      UnitLong(s[0]);
      LongRoundTrip(s[1..]);
    }
  }

  // ----- The standard -----

  // The characters that two, three and four bytes stand for by section 3 of RFC 3629.
  function Standard2(b0: bv8, b1: bv8): bv32 {
    ((b0 & 0x1F) as bv32 << 6) | (b1 & 0x3F) as bv32
  }

  function Standard3(b0: bv8, b1: bv8, b2: bv8): bv32 {
    ((b0 & 0xF) as bv32 << 12) | ((b1 & 0x3F) as bv32 << 6) | (b2 & 0x3F) as bv32
  }

  function Standard4(b0: bv8, b1: bv8, b2: bv8, b3: bv8): bv32 {
    ((b0 & 0x7) as bv32 << 18) | ((b1 & 0x3F) as bv32 << 12) | ((b2 & 0x3F) as bv32 << 6) | (b3 & 0x3F) as bv32
  }

  predicate Following(b: bv8) {
    0x80 <= b <= 0xBF
  }

  // A single character is encoded as the standard says, two bytes included.
  lemma EncodedAscii(x: bv32)
    requires x <= 0x7F
    ensures Encoded([x]) == [x as bv8]
  {
    hide Encoded;
    EncodedSingle(x);
    AsciiByte(x);
  }

  lemma EncodedTwo(x: bv32, u: seq<bv8>)
    requires 0x80 <= x <= 0x7FF && u == Encoded([x])
    ensures |u| == 2 && 0xC2 <= u[0] <= 0xDF && Following(u[1]) && Standard2(u[0], u[1]) == x
  {
    hide *;
    assert u == [First2(x), Next(x, 0)] by { UnitIs(x); EncodedSingle(x); }
    Encoded2(x, First2(x), Next(x, 0));
  }

  lemma EncodedThree(x: bv32, u: seq<bv8>)
    requires 0x800 <= x <= 0xFFFF && u == Encoded([x])
    ensures |u| == 3 && 0xE0 <= u[0] <= 0xEF && Following(u[1]) && Following(u[2]) && Standard3(u[0], u[1], u[2]) == x
  {
    hide *;
    assert u == [First3(x), Next(x, 6), Next(x, 0)] by { UnitIs(x); EncodedSingle(x); }
    Encoded3(x, First3(x), Next(x, 6), Next(x, 0));
  }

  lemma EncodedFour(x: bv32, u: seq<bv8>)
    requires 0x10000 <= x <= 0x10FFFF && u == Encoded([x])
    ensures |u| == 4 && 0xF0 <= u[0] <= 0xF4 && Following(u[1]) && Following(u[2]) && Following(u[3])
    ensures Standard4(u[0], u[1], u[2], u[3]) == x
  {
    hide *;
    assert u == [First4(x), Next(x, 12), Next(x, 6), Next(x, 0)] by { UnitIs(x); EncodedSingle(x); }
    Encoded4(x, First4(x), Next(x, 12), Next(x, 6), Next(x, 0));
  }

  lemma UnitIs(x: bv32)
    ensures 0x80 <= x <= 0x7FF ==> Unit(x) == [First2(x), Next(x, 0)]
    ensures 0x800 <= x <= 0xFFFF ==> Unit(x) == [First3(x), Next(x, 6), Next(x, 0)]
    ensures 0x10000 <= x <= 0x10FFFF ==> Unit(x) == [First4(x), Next(x, 12), Next(x, 6), Next(x, 0)]
  {
    hide First2, First3, First4, Next;
  }

  lemma EncodedSingle(x: bv32)
    ensures Encoded([x]) == Unit(x)
  {
    hide Unit;
    assert Encoded(Rest([x], 1)) == [] && Encoded(Rest([x], 2)) == [];
  }

  lemma AsciiByte(x: bv32)
    requires x <= 0x7F
    ensures (x & 0xff) as bv8 == x as bv8
  {
  }

  lemma Encoded2(x: bv32, b0: bv8, b1: bv8)
    requires 0x80 <= x <= 0x7FF && b0 == First2(x) && b1 == Next(x, 0)
    ensures 0xC2 <= b0 <= 0xDF && Following(b1) && Standard2(b0, b1) == x
  {
  }

  lemma Encoded3(x: bv32, b0: bv8, b1: bv8, b2: bv8)
    requires 0x800 <= x <= 0xFFFF && b0 == First3(x) && b1 == Next(x, 6) && b2 == Next(x, 0)
    ensures 0xE0 <= b0 <= 0xEF && Following(b1) && Following(b2) && Standard3(b0, b1, b2) == x
  {
  }

  lemma Encoded4(x: bv32, b0: bv8, b1: bv8, b2: bv8, b3: bv8)
    requires 0x10000 <= x <= 0x10FFFF
    requires b0 == First4(x) && b1 == Next(x, 12) && b2 == Next(x, 6) && b3 == Next(x, 0)
    ensures 0xF0 <= b0 <= 0xF4 && Following(b1) && Following(b2) && Following(b3) && Standard4(b0, b1, b2, b3) == x
  {
    hide *;
    Layout(x, 12);
    Layout(x, 6);
    Layout(x, 0);
    FollowingIs(b1);
    FollowingIs(b2);
    FollowingIs(b3);
    LongIs(x);
    Bits4(x, b0, b1, b2, b3);
    Decoded4(b0, b1, b2, b3);
  }

  lemma FollowingIs(b: bv8)
    ensures Following(b) <==> 0x80 <= b <= 0xBF
  {
  }

  lemma LongIs(x: bv32)
    ensures Long(x) <==> 0x800 <= x <= 0x10FFFF
  {
  }

  // Decoding agrees with the standard on one, three and four bytes; on two it moves
  // the upper bits by five places, not six. A byte that begins nothing is passed over.
  lemma DecodedByStandard(b0: bv8, b1: bv8, b2: bv8, b3: bv8)
    ensures b0 <= 0x7F ==> Complete([b0]) && Decoded([b0]) == [b0 as bv32]
    ensures 0x80 <= b0 <= 0xBF || b0 >= 0xF8 ==> Complete([b0]) && Decoded([b0]) == []
    ensures 0xC0 <= b0 <= 0xDF ==> Complete([b0, b1]) && |Decoded([b0, b1])| == 1
    ensures 0xC0 <= b0 <= 0xDF ==>
      var x := Standard2(b0, b1); Decoded([b0, b1])[0] == ((x >> 6) << 5) | (x & 0x3F)
    ensures 0xE0 <= b0 <= 0xEF ==> Complete([b0, b1, b2]) && Decoded([b0, b1, b2]) == [Standard3(b0, b1, b2)]
    ensures 0xF0 <= b0 <= 0xF7 ==>
      Complete([b0, b1, b2, b3]) && Decoded([b0, b1, b2, b3]) == [Standard4(b0, b1, b2, b3)]
  {
    hide LeftBits, Append, Start, Standard2, Standard3, Standard4;
    FirstByte(b0);
    Decoded2(b0, b1);
    Decoded3(b0, b1, b2);
    Decoded4(b0, b1, b2, b3);
    assert [b0][1..] == [] && [b0, b1][2..] == [] && [b0, b1, b2][3..] == [] && [b0, b1, b2, b3][4..] == [];
  }

  lemma FirstByte(b: bv8)
    ensures LeftBits(b) ==
      if 0xC0 <= b <= 0xDF then 2 else if 0xE0 <= b <= 0xEF then 3 else if 0xF0 <= b <= 0xF7 then 4 else 0
  {
  }

  lemma Decoded2(b0: bv8, b1: bv8)
    ensures var x := Standard2(b0, b1); Append(Start(b0, 0x1F), 5, b1) == ((x >> 6) << 5) | (x & 0x3F)
  {
  }

  lemma Decoded3(b0: bv8, b1: bv8, b2: bv8)
    ensures Append(Append(Start(b0, 0xF), 6, b1), 6, b2) == Standard3(b0, b1, b2)
  {
  }

  lemma Decoded4(b0: bv8, b1: bv8, b2: bv8, b3: bv8)
    ensures Append(Append(Append(Start(b0, 0x7), 6, b1), 6, b2), 6, b3) == Standard4(b0, b1, b2, b3)
  {
  }

  // What is lost: the character behind an ASCII one, and every one of two bytes.
  lemma Lost()
    ensures Decoded(Encoded([0x41, 0x800])) == [0x41]
    ensures Complete(Encoded([0xE9])) && Decoded(Encoded([0xE9])) == [0x69]
  {
    hide Unit, LeftBits;
    assert Unit(0x41) == [0x41] && Unit(0xE9) == [0xC3, 0xA9] by {
      UnitsLost();
    }
    assert Encoded([0x41, 0x800]) == [0x41] && Encoded([0xE9]) == [0xC3, 0xA9];
    assert LeftBits(0xC3) == 2 by {
      UnitsLost();
    }
    assert [0xC3, 0xA9][2..] == [] && [0x41][1..] == [];
  }

  lemma UnitsLost()
    ensures Unit(0x41) == [0x41] && Unit(0xE9) == [0xC3, 0xA9] && LeftBits(0xC3) == 2
  {
  }

  // ----- The loops -----

  lemma RestRest<T>(s: seq<T>, i: nat, n: nat)
    ensures Rest(Rest(s, i), n) == Rest(s, i + n)
  {
  }

  // One element at the end of what has been filled in.
  method Put<T>(dst: array<T>, c: nat, x: T) returns (c': nat)
    requires c < dst.Length
    modifies dst
    ensures c' == c + 1 && dst[..c'] == old(dst[..c]) + [x]
    ensures forall j :: c' <= j < dst.Length ==> dst[j] == old(dst[j])
  {
    dst[c] := x;
    c' := c + 1;
  }

  lemma EncodedStep(s: seq<bv32>, i: nat)
    requires i < |s|
    ensures Encoded(Rest(s, i)) == Unit(s[i]) + Encoded(Rest(s, if Ascii(s[i]) then i + 2 else i + 1))
  {
    RestRest(s, i, if Ascii(s[i]) then 2 else 1);
  }

  // One turn of the encoding loop: what one character fills in.
  method EncodeOne(dst: array<bv8>, c: nat, x: bv32) returns (c': nat)
    requires c + |Unit(x)| <= dst.Length
    modifies dst
    ensures c' == c + |Unit(x)| && dst[..c'] == old(dst[..c]) + Unit(x)
    ensures forall j :: c' <= j < dst.Length ==> dst[j] == old(dst[j])
  {
    hide Next, First2, First3, First4;
    c' := c;
    if Ascii(x) {
      c' := Put(dst, c', (x & 0xff) as bv8);
    } else if x <= 0x7ff {
      c' := Put(dst, c', First2(x));
      c' := Put(dst, c', Next(x, 0));
    } else if x <= 0xFFFF {
      c' := Put(dst, c', First3(x));
      c' := Put(dst, c', Next(x, 6));
      c' := Put(dst, c', Next(x, 0));
    } else if x <= 0x10FFFF {
      c' := Put(dst, c', First4(x));
      c' := Put(dst, c', Next(x, 12));
      c' := Put(dst, c', Next(x, 6));
      c' := Put(dst, c', Next(x, 0));
    }
  }

  // ez_utf8_encode
  method Utf8Encode(dst: array<bv8>, src: seq<bv32>) returns (c: nat)
    requires |Encoded(src)| <= dst.Length
    modifies dst
    ensures c == |Encoded(src)| && dst[..c] == Encoded(src)
    ensures forall j :: c <= j < dst.Length ==> dst[j] == old(dst[j])
  {
    hide Encoded, Unit;
    EncodedNone();
    c := 0;
    var i := 0;
    assert Rest(src, 0) == src;
    while i < |src|
      invariant c + |Encoded(Rest(src, i))| <= dst.Length
      invariant Encoded(src) == dst[..c] + Encoded(Rest(src, i))
      invariant forall j :: c <= j < dst.Length ==> dst[j] == old(dst[j])
      decreases |src| - i
    {
      EncodedStep(src, i);
      c := EncodeOne(dst, c, src[i]);
      if Ascii(src[i]) {
        i := i + 1;
      }
      i := i + 1;
    }
  }

  lemma EncodedNone()
    ensures Encoded([]) == []
  {
  }

  lemma DecodedStep(s: seq<bv8>)
    requires Complete(s) && s != []
    ensures Width(s[0]) <= |s| && Complete(s[Width(s[0])..])
    ensures Decoded(s) == Char(s) + Decoded(s[Width(s[0])..])
  {
  }

  // One turn of the decoding loop.
  method DecodeOne(dst: array<bv32>, c: nat, src: seq<bv8>, i: nat) returns (c': nat, i': nat)
    requires i < |src| && Width(src[i]) <= |src| - i && c + |Char(src[i..])| <= dst.Length
    modifies dst
    ensures i' == i + Width(src[i]) && c' == c + |Char(src[i..])|
    ensures dst[..c'] == old(dst[..c]) + Char(src[i..])
    ensures forall j :: c' <= j < dst.Length ==> dst[j] == old(dst[j])
  {
    hide Append, Start, LeftBits;
    if src[i] <= 0x7f {
      c' := Put(dst, c, src[i] as bv32);
      return c', i + 1;
    }
    var bit := LeftBits(src[i]);
    if bit == 2 {
      dst[c] := Start(src[i], 0x1F);
      dst[c] := Append(dst[c], 5, src[i + 1]);
      return c + 1, i + 2;
    } else if bit == 3 {
      dst[c] := Start(src[i], 0xF);
      dst[c] := Append(dst[c], 6, src[i + 1]);
      dst[c] := Append(dst[c], 6, src[i + 2]);
      return c + 1, i + 3;
    } else if bit == 4 {
      dst[c] := Start(src[i], 0x7);
      dst[c] := Append(dst[c], 6, src[i + 1]);
      dst[c] := Append(dst[c], 6, src[i + 2]);
      dst[c] := Append(dst[c], 6, src[i + 3]);
      return c + 1, i + 4;
    } else {
      return c, i + 1;
    }
  }

  // ez_utf8_decode
  method Utf8Decode(dst: array<bv32>, src: seq<bv8>) returns (c: nat)
    requires Complete(src) && |Decoded(src)| <= dst.Length
    modifies dst
    ensures c == |Decoded(src)| && dst[..c] == Decoded(src)
    ensures forall j :: c <= j < dst.Length ==> dst[j] == old(dst[j])
  {
    hide Decoded, Complete, Char, Width;
    DecodedNone();
    c := 0;
    var i := 0;
    assert src[0..] == src;
    while i < |src|
      invariant i <= |src| && Complete(src[i..]) && c + |Decoded(src[i..])| <= dst.Length
      invariant Decoded(src) == dst[..c] + Decoded(src[i..])
      invariant forall j :: c <= j < dst.Length ==> dst[j] == old(dst[j])
    {
      DecodedStep(src[i..]);
      assert src[i..][Width(src[i])..] == src[i + Width(src[i])..];
      c, i := DecodeOne(dst, c, src, i);
    }
    assert src[i..] == [];
  }

  lemma DecodedNone()
    ensures Complete([]) && Decoded([]) == []
  {
  }
}
