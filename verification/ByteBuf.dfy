// The cursor buffer of src/ez_bytebuf.c with its big- and little-endian codecs.
// Signed integers are the words that represent them in two's complement.

module ByteBufs {

  datatype Endian = Big | Little

  // A typed value as it is written or read.
  datatype Field =
    | Int8(b: bv8)
    | Int16(h: bv16, order: Endian)
    | Int32(i: bv32, order: Endian)
    | Int64(l: bv64, order: Endian)

  datatype Kind = Kind8 | Kind16(order: Endian) | Kind32(order: Endian) | Kind64(order: Endian)

  function KindOf(f: Field): Kind {
    match f
    case Int8(_) => Kind8
    case Int16(_, order) => Kind16(order)
    case Int32(_, order) => Kind32(order)
    case Int64(_, order) => Kind64(order)
  }

  function Width(k: Kind): nat {
    match k
    case Kind8 => 1
    case Kind16(_) => 2
    case Kind32(_) => 4
    case Kind64(_) => 8
  }

  function Reverse(s: seq<bv8>): (r: seq<bv8>)
    ensures |r| == |s| && forall i :: 0 <= i < |s| ==> r[i] == s[|s| - 1 - i]
  {
    if s == [] then [] else Reverse(s[1..]) + [s[0]]
  }

  // ----- Words and their bytes -----

  // The byte of a word that begins `n` bits from its low end.
  function Byte16(v: bv16, n: bv16): bv8
    requires n < 16
  {
    ((v >> n) & 0xff) as bv8
  }

  function Join16(b0: bv8, b1: bv8): bv16 {
    (b0 as bv16 << 8) |
    b1 as bv16
  }

  lemma Split16(v: bv16)
    ensures Join16(Byte16(v, 8), Byte16(v, 0)) == v
  {
  }

  lemma JoinSplit16(b0: bv8, b1: bv8)
    ensures var v := Join16(b0, b1);
      && Byte16(v, 8) == b0
      && Byte16(v, 0) == b1
  {
  }

  function Bytes16(v: bv16): (s: seq<bv8>)
    ensures |s| == 2
  {
    [Byte16(v, 8), Byte16(v, 0)]
  }

  // The byte of a word that begins `n` bits from its low end.
  function Byte32(v: bv32, n: bv32): bv8
    requires n < 32
  {
    ((v >> n) & 0xff) as bv8
  }

  function Join32(b0: bv8, b1: bv8, b2: bv8, b3: bv8): bv32 {
    (b0 as bv32 << 24) |
    (b1 as bv32 << 16) |
    (b2 as bv32 << 8) |
    b3 as bv32
  }

  lemma Split32(v: bv32)
    ensures Join32(Byte32(v, 24), Byte32(v, 16), Byte32(v, 8), Byte32(v, 0)) == v
  {
  }

  lemma JoinSplit32(b0: bv8, b1: bv8, b2: bv8, b3: bv8)
    ensures var v := Join32(b0, b1, b2, b3);
      && Byte32(v, 24) == b0
      && Byte32(v, 16) == b1
      && Byte32(v, 8) == b2
      && Byte32(v, 0) == b3
  {
  }

  function Bytes32(v: bv32): (s: seq<bv8>)
    ensures |s| == 4
  {
    [Byte32(v, 24), Byte32(v, 16), Byte32(v, 8), Byte32(v, 0)]
  }

  // The byte of a word that begins `n` bits from its low end.
  function Byte64(v: bv64, n: bv64): bv8
    requires n < 64
  {
    ((v >> n) & 0xff) as bv8
  }

  function Join64(b0: bv8, b1: bv8, b2: bv8, b3: bv8, b4: bv8, b5: bv8, b6: bv8, b7: bv8): bv64 {
    (b0 as bv64 << 56) |
    (b1 as bv64 << 48) |
    (b2 as bv64 << 40) |
    (b3 as bv64 << 32) |
    (b4 as bv64 << 24) |
    (b5 as bv64 << 16) |
    (b6 as bv64 << 8) |
    b7 as bv64
  }

  lemma Split64(v: bv64)
    ensures Join64(Byte64(v, 56), Byte64(v, 48), Byte64(v, 40), Byte64(v, 32),
                   Byte64(v, 24), Byte64(v, 16), Byte64(v, 8), Byte64(v, 0)) == v
  {
  }

  lemma JoinSplit64(b0: bv8, b1: bv8, b2: bv8, b3: bv8, b4: bv8, b5: bv8, b6: bv8, b7: bv8)
    ensures var v := Join64(b0, b1, b2, b3, b4, b5, b6, b7);
      && Byte64(v, 56) == b0
      && Byte64(v, 48) == b1
      && Byte64(v, 40) == b2
      && Byte64(v, 32) == b3
      && Byte64(v, 24) == b4
      && Byte64(v, 16) == b5
      && Byte64(v, 8) == b6
      && Byte64(v, 0) == b7
  {
  }

  function Bytes64(v: bv64): (s: seq<bv8>)
    ensures |s| == 8
  {
    [Byte64(v, 56), Byte64(v, 48), Byte64(v, 40), Byte64(v, 32), Byte64(v, 24), Byte64(v, 16), Byte64(v, 8), Byte64(v, 0)]
  }

  // The big-endian bytes of a value, or for little-endian the same backwards.
  function Encode(f: Field): (s: seq<bv8>)
    ensures |s| == Width(KindOf(f))
  {
    match f
    case Int8(b) => [b]
    case Int16(h, order) => if order == Big then Bytes16(h) else Reverse(Bytes16(h))
    case Int32(i, order) => if order == Big then Bytes32(i) else Reverse(Bytes32(i))
    case Int64(l, order) => if order == Big then Bytes64(l) else Reverse(Bytes64(l))
  }

  // The two encodings by name.
  lemma EncodeIs16(v: bv16)
    ensures Encode(Int16(v, Big)) == Bytes16(v) && Encode(Int16(v, Little)) == Reverse(Bytes16(v))
    ensures |Bytes16(v)| == |Reverse(Bytes16(v))| == 2
  {
  }

  lemma EncodeIs32(v: bv32)
    ensures Encode(Int32(v, Big)) == Bytes32(v) && Encode(Int32(v, Little)) == Reverse(Bytes32(v))
    ensures |Bytes32(v)| == |Reverse(Bytes32(v))| == 4
  {
  }

  lemma EncodeIs64(v: bv64)
    ensures Encode(Int64(v, Big)) == Bytes64(v) && Encode(Int64(v, Little)) == Reverse(Bytes64(v))
    ensures |Bytes64(v)| == |Reverse(Bytes64(v))| == 8
  {
  }

  // What the bytes of a value of some kind say.
  function Decode(k: Kind, s: seq<bv8>): (f: Field)
    requires |s| == Width(k)
  {
    match k
    case Kind8 => Int8(s[0])
    case Kind16(order) =>
      var t := if order == Big then s else Reverse(s);
      Int16(Join16(t[0], t[1]), order)
    case Kind32(order) =>
      var t := if order == Big then s else Reverse(s);
      Int32(Join32(t[0], t[1], t[2], t[3]), order)
    case Kind64(order) =>
      var t := if order == Big then s else Reverse(s);
      Int64(Join64(t[0], t[1], t[2], t[3], t[4], t[5], t[6], t[7]), order)
  }

  lemma DecodeEncode16(v: bv16, order: Endian)
    ensures Decode(Kind16(order), Encode(Int16(v, order))) == Int16(v, order)
  {
    hide Byte16, Join16, Reverse, Bytes16;
    JoinBytes16(v);
    ReverseTwice(Bytes16(v));
  }

  lemma BytesJoin16(t: seq<bv8>)
    requires |t| == 2
    ensures Bytes16(Join16(t[0], t[1])) == t
  {
    hide Byte16, Join16;
    JoinSplit16(t[0], t[1]);
  }

  lemma JoinBytes16(v: bv16)
    ensures var t := Bytes16(v); Join16(t[0], t[1]) == v
  {
    hide Byte16, Join16;
    Split16(v);
  }

  lemma EncodeDecode16(s: seq<bv8>, order: Endian)
    requires |s| == 2
    ensures Encode(Decode(Kind16(order), s)) == s
  {
    hide Byte16, Join16, Reverse, Bytes16;
    BytesJoin16(s);
    BytesJoin16(Reverse(s));
    ReverseTwice(s);
  }

  lemma DecodeEncode32(v: bv32, order: Endian)
    ensures Decode(Kind32(order), Encode(Int32(v, order))) == Int32(v, order)
  {
    hide Byte32, Join32, Reverse, Bytes32;
    JoinBytes32(v);
    ReverseTwice(Bytes32(v));
  }

  lemma BytesJoin32(t: seq<bv8>)
    requires |t| == 4
    ensures Bytes32(Join32(t[0], t[1], t[2], t[3])) == t
  {
    hide Byte32, Join32;
    JoinSplit32(t[0], t[1], t[2], t[3]);
  }

  lemma JoinBytes32(v: bv32)
    ensures var t := Bytes32(v); Join32(t[0], t[1], t[2], t[3]) == v
  {
    hide Byte32, Join32;
    Split32(v);
  }

  lemma EncodeDecode32(s: seq<bv8>, order: Endian)
    requires |s| == 4
    ensures Encode(Decode(Kind32(order), s)) == s
  {
    hide Byte32, Join32, Reverse, Bytes32;
    BytesJoin32(s);
    BytesJoin32(Reverse(s));
    ReverseTwice(s);
  }

  lemma DecodeEncode64(v: bv64, order: Endian)
    ensures Decode(Kind64(order), Encode(Int64(v, order))) == Int64(v, order)
  {
    hide Byte64, Join64, Reverse, Bytes64;
    JoinBytes64(v);
    ReverseTwice(Bytes64(v));
  }

  lemma BytesJoin64(t: seq<bv8>)
    requires |t| == 8
    ensures Bytes64(Join64(t[0], t[1], t[2], t[3], t[4], t[5], t[6], t[7])) == t
  {
    hide Byte64, Join64;
    JoinSplit64(t[0], t[1], t[2], t[3], t[4], t[5], t[6], t[7]);
  }

  lemma JoinBytes64(v: bv64)
    ensures var t := Bytes64(v); Join64(t[0], t[1], t[2], t[3], t[4], t[5], t[6], t[7]) == v
  {
    hide Byte64, Join64;
    Split64(v);
  }

  lemma EncodeDecode64(s: seq<bv8>, order: Endian)
    requires |s| == 8
    ensures Encode(Decode(Kind64(order), s)) == s
  {
    hide Byte64, Join64, Reverse, Bytes64;
    BytesJoin64(s);
    BytesJoin64(Reverse(s));
    ReverseTwice(s);
  }

  lemma DecodeEncode(f: Field)
    ensures Decode(KindOf(f), Encode(f)) == f
  {
    hide Encode, Decode;
    match f
    case Int8(_) => DecodeEncode8(f);
    case Int16(h, order) => DecodeEncode16(h, order);
    case Int32(i, order) => DecodeEncode32(i, order);
    case Int64(l, order) => DecodeEncode64(l, order);
  }

  lemma DecodeEncode8(f: Field)
    requires f.Int8?
    ensures Decode(Kind8, Encode(f)) == f
  {
  }

  // Every run of bytes of the right length is the encoding of what it says.
  lemma EncodeDecode(k: Kind, s: seq<bv8>)
    requires |s| == Width(k)
    ensures KindOf(Decode(k, s)) == k && Encode(Decode(k, s)) == s
  {
    hide Encode;
    match k
    case Kind8 => EncodeDecode8(s);
    case Kind16(order) => EncodeDecode16(s, order);
    case Kind32(order) => EncodeDecode32(s, order);
    case Kind64(order) => EncodeDecode64(s, order);
  }

  lemma EncodeDecode8(s: seq<bv8>)
    requires |s| == 1
    ensures Encode(Decode(Kind8, s)) == s
  {
  }

  // What a run of bytes says, without and with turning it round.
  lemma DecodeIs16(s: seq<bv8>)
    requires |s| == 2
    ensures Decode(Kind16(Big), s) == Int16(Join16(s[0], s[1]), Big)
    ensures Decode(Kind16(Little), s) == Int16(Join16(s[1], s[0]), Little)
  {
    hide Join16;
  }

  lemma DecodeIs32(s: seq<bv8>)
    requires |s| == 4
    ensures Decode(Kind32(Big), s) == Int32(Join32(s[0], s[1], s[2], s[3]), Big)
    ensures Decode(Kind32(Little), s) == Int32(Join32(s[3], s[2], s[1], s[0]), Little)
  {
    hide Join32;
  }

  lemma DecodeIs64(s: seq<bv8>)
    requires |s| == 8
    ensures Decode(Kind64(Big), s) == Int64(Join64(s[0], s[1], s[2], s[3], s[4], s[5], s[6], s[7]), Big)
    ensures Decode(Kind64(Little), s) == Int64(Join64(s[7], s[6], s[5], s[4], s[3], s[2], s[1], s[0]), Little)
  {
    hide Join64;
  }

  // Which byte is worth what: the first one the most in big-endian order, the least
  // in little-endian order, for a value written and for one read.
  lemma BigEndian16(v: bv16, s: seq<bv8>)
    requires |s| == 2 && (s == Encode(Int16(v, Big)) || Decode(Kind16(Big), s) == Int16(v, Big))
    ensures v == (s[0] as bv16 << 8) | s[1] as bv16
  {
    hide *;
    assert Join16(s[0], s[1]) == v by {
      DecodeIs16(s);
      DecodeEncode16(v, Big);
    }
    JoinIs16(s[0], s[1]);
  }

  lemma LittleEndian16(v: bv16, s: seq<bv8>)
    requires |s| == 2 && (s == Encode(Int16(v, Little)) || Decode(Kind16(Little), s) == Int16(v, Little))
    ensures v == (s[1] as bv16 << 8) | s[0] as bv16
  {
    hide *;
    assert Join16(s[1], s[0]) == v by {
      DecodeIs16(s);
      DecodeEncode16(v, Little);
    }
    JoinIs16(s[1], s[0]);
  }

  lemma JoinIs16(b0: bv8, b1: bv8)
    ensures Join16(b0, b1) == (b0 as bv16 << 8) | b1 as bv16
  {
  }

  lemma BigEndian32(v: bv32, s: seq<bv8>)
    requires |s| == 4 && (s == Encode(Int32(v, Big)) || Decode(Kind32(Big), s) == Int32(v, Big))
    ensures v == (s[0] as bv32 << 24) | (s[1] as bv32 << 16) | (s[2] as bv32 << 8) | s[3] as bv32
  {
    hide *;
    assert Join32(s[0], s[1], s[2], s[3]) == v by {
      DecodeIs32(s);
      DecodeEncode32(v, Big);
    }
    JoinIs32(s[0], s[1], s[2], s[3]);
  }

  lemma LittleEndian32(v: bv32, s: seq<bv8>)
    requires |s| == 4 && (s == Encode(Int32(v, Little)) || Decode(Kind32(Little), s) == Int32(v, Little))
    ensures v == (s[3] as bv32 << 24) | (s[2] as bv32 << 16) | (s[1] as bv32 << 8) | s[0] as bv32
  {
    hide *;
    assert Join32(s[3], s[2], s[1], s[0]) == v by {
      DecodeIs32(s);
      DecodeEncode32(v, Little);
    }
    JoinIs32(s[3], s[2], s[1], s[0]);
  }

  lemma JoinIs32(b0: bv8, b1: bv8, b2: bv8, b3: bv8)
    ensures Join32(b0, b1, b2, b3) == (b0 as bv32 << 24) | (b1 as bv32 << 16) | (b2 as bv32 << 8) | b3 as bv32
  {
  }

  lemma BigEndian64(v: bv64, s: seq<bv8>)
    requires |s| == 8 && (s == Encode(Int64(v, Big)) || Decode(Kind64(Big), s) == Int64(v, Big))
    ensures v ==
      ((s[0] as bv64 << 56) | (s[1] as bv64 << 48) | (s[2] as bv64 << 40) | (s[3] as bv64 << 32) |
       (s[4] as bv64 << 24) | (s[5] as bv64 << 16) | (s[6] as bv64 << 8) | s[7] as bv64)
  {
    hide *;
    assert Join64(s[0], s[1], s[2], s[3], s[4], s[5], s[6], s[7]) == v by {
      DecodeIs64(s);
      DecodeEncode64(v, Big);
    }
    JoinIs64(s[0], s[1], s[2], s[3], s[4], s[5], s[6], s[7]);
  }

  lemma LittleEndian64(v: bv64, s: seq<bv8>)
    requires |s| == 8 && (s == Encode(Int64(v, Little)) || Decode(Kind64(Little), s) == Int64(v, Little))
    ensures v ==
      ((s[7] as bv64 << 56) | (s[6] as bv64 << 48) | (s[5] as bv64 << 40) | (s[4] as bv64 << 32) |
       (s[3] as bv64 << 24) | (s[2] as bv64 << 16) | (s[1] as bv64 << 8) | s[0] as bv64)
  {
    hide *;
    assert Join64(s[7], s[6], s[5], s[4], s[3], s[2], s[1], s[0]) == v by {
      DecodeIs64(s);
      DecodeEncode64(v, Little);
    }
    JoinIs64(s[7], s[6], s[5], s[4], s[3], s[2], s[1], s[0]);
  }

  lemma JoinIs64(b0: bv8, b1: bv8, b2: bv8, b3: bv8, b4: bv8, b5: bv8, b6: bv8, b7: bv8)
    ensures Join64(b0, b1, b2, b3, b4, b5, b6, b7) ==
      ((b0 as bv64 << 56) | (b1 as bv64 << 48) | (b2 as bv64 << 40) | (b3 as bv64 << 32) |
       (b4 as bv64 << 24) | (b5 as bv64 << 16) | (b6 as bv64 << 8) | b7 as bv64)
  {
  }

  lemma ReverseTwice(s: seq<bv8>)
    ensures Reverse(Reverse(s)) == s
  {
    assert forall i :: 0 <= i < |s| ==> Reverse(Reverse(s))[i] == s[i];
  }

  // ----- Several values one after the other -----

  ghost function EncodeAll(fs: seq<Field>): seq<bv8> {
    if fs == [] then [] else Encode(fs[0]) + EncodeAll(fs[1..])
  }

  lemma {:induction false} EncodeAllMore(fs: seq<Field>, f: Field)
    ensures EncodeAll(fs + [f]) == EncodeAll(fs) + Encode(f)
  {
    if fs == [] {
      assert [f][1..] == [];
    } else {
      assert (fs + [f])[1..] == fs[1..] + [f];
      EncodeAllMore(fs[1..], f);
    }
  }

  lemma EncodeAllPart(fs: seq<Field>, k: nat)
    requires k < |fs|
    ensures EncodeAll(fs[..k + 1]) == EncodeAll(fs[..k]) + Encode(fs[k])
    ensures |EncodeAll(fs[..k + 1])| <= |EncodeAll(fs)|
  {
    hide Encode;
    EncodeAllMore(fs[..k], fs[k]);
    assert fs[..k + 1] == fs[..k] + [fs[k]];
    assert fs == fs[..k + 1] + fs[k + 1..];
    EncodeAllConcat(fs[..k + 1], fs[k + 1..]);
  }

  lemma {:induction false} EncodeAllConcat(fs: seq<Field>, gs: seq<Field>)
    ensures EncodeAll(fs + gs) == EncodeAll(fs) + EncodeAll(gs)
  {
    hide Encode;
    if fs == [] {
      assert fs + gs == gs;
    } else {
      assert (fs + gs)[1..] == fs[1..] + gs;
      EncodeAllConcat(fs[1..], gs);
    }
  }

  // Bytes begin with one value of a kind only.
  lemma SameHead(f: Field, s: seq<bv8>, g: Field, t: seq<bv8>)
    requires KindOf(f) == KindOf(g) && Encode(f) + s == Encode(g) + t
    ensures f == g && s == t
  {
    hide Encode;
    var w := Width(KindOf(f));
    assert (Encode(f) + s)[..w] == Encode(f) && (Encode(g) + t)[..w] == Encode(g);
    assert (Encode(f) + s)[w..] == s && (Encode(g) + t)[w..] == t;
    DecodeEncode(f);
    DecodeEncode(g);
  }

  // Values of the same kinds with the same bytes are the same.
  lemma {:induction false} EncodeAllInjective(fs: seq<Field>, gs: seq<Field>)
    requires |fs| == |gs| && forall i :: 0 <= i < |fs| ==> KindOf(fs[i]) == KindOf(gs[i])
    requires EncodeAll(fs) == EncodeAll(gs)
    ensures fs == gs
  {
    hide Encode;
    if fs != [] {
      SameHead(fs[0], EncodeAll(fs[1..]), gs[0], EncodeAll(gs[1..]));
      EncodeAllInjective(fs[1..], gs[1..]);
    }
  }

  // New bytes behind what has been written.
  lemma Appended(s: seq<bv8>, s': seq<bv8>, r: nat, w: nat, t: seq<bv8>)
    requires w + |t| <= |s| == |s'|
    requires forall i :: 0 <= i < w ==> s'[i] == s[i]
    requires forall i :: 0 <= i < |t| ==> s'[w + i] == t[i]
    ensures s'[w..w + |t|] == t
    ensures r <= w ==> s'[r..w + |t|] == s[r..w] + t
  {
  }

  ghost function Over(s: seq<bv8>, at: nat, t: seq<bv8>): seq<bv8>
    requires at + |t| <= |s|
  {
    s[..at] + t + s[at + |t|..]
  }

  // A long value written in two halves.
  lemma AppendedHalves(s: seq<bv8>, s': seq<bv8>, r: nat, w: nat, t: seq<bv8>)
    requires w + 8 <= |s| && |t| == 8
    requires s' == Over(Over(s, w, t[..4]), w + 4, t[4..]) || s' == Over(Over(s, w + 4, t[4..]), w, t[..4])
    ensures s'[w..w + 8] == t && |s'| == |s|
    ensures forall i :: 0 <= i < |s| && !(w <= i < w + 8) ==> s'[i] == s[i]
    ensures r <= w ==> s'[r..w + 8] == s[r..w] + t
  {
    var u := s[..w] + t + s[w + 8..];
    OverHalves(s, w, t);
    assert forall i :: 0 <= i < w ==> u[i] == s[i];
    assert forall i :: w + 8 <= i < |s| ==> u[i] == s[i];
    assert forall i :: 0 <= i < 8 ==> u[w + i] == t[i];
    Appended(s, u, r, w, t);
  }

  // Four bytes written in a row.
  lemma AppendedOnce(s: seq<bv8>, s': seq<bv8>, r: nat, w: nat, t: seq<bv8>)
    requires w + |t| <= |s| && s' == Over(s, w, t)
    ensures s'[w..w + |t|] == t && |s'| == |s|
    ensures forall i :: 0 <= i < |s| && !(w <= i < w + |t|) ==> s'[i] == s[i]
    ensures r <= w ==> s'[r..w + |t|] == s[r..w] + t
  {
    assert forall i :: 0 <= i < |t| ==> s'[w + i] == t[i];
    Appended(s, s', r, w, t);
  }

  lemma FourOf(v: bv32)
    ensures Bytes32(v) == [Byte32(v, 24), Byte32(v, 16), Byte32(v, 8), Byte32(v, 0)]
    ensures Reverse(Bytes32(v)) == [Byte32(v, 0), Byte32(v, 8), Byte32(v, 16), Byte32(v, 24)]
  {
    hide Byte32;
  }

  lemma OverHalves(s: seq<bv8>, w: nat, t: seq<bv8>)
    requires w + 8 <= |s| && |t| == 8
    ensures Over(Over(s, w, t[..4]), w + 4, t[4..]) == s[..w] + t + s[w + 8..]
    ensures Over(Over(s, w + 4, t[4..]), w, t[..4]) == s[..w] + t + s[w + 8..]
  {
  }

  lemma Halves(s: seq<bv8>)
    requires |s| == 8
    ensures s[..4] == [s[0], s[1], s[2], s[3]] && s[4..] == [s[4], s[5], s[6], s[7]]
    ensures Reverse(s)[..4] == [s[7], s[6], s[5], s[4]] && Reverse(s)[4..] == [s[3], s[2], s[1], s[0]]
  {
  }

  lemma HalvesOf(v: bv64)
    ensures Bytes64(v)[..4] == [Byte64(v, 56), Byte64(v, 48), Byte64(v, 40), Byte64(v, 32)]
    ensures Bytes64(v)[4..] == [Byte64(v, 24), Byte64(v, 16), Byte64(v, 8), Byte64(v, 0)]
    ensures Reverse(Bytes64(v))[..4] == [Byte64(v, 0), Byte64(v, 8), Byte64(v, 16), Byte64(v, 24)]
    ensures Reverse(Bytes64(v))[4..] == [Byte64(v, 32), Byte64(v, 40), Byte64(v, 48), Byte64(v, 56)]
  {
    hide Byte64, Reverse;
    Halves(Bytes64(v));
  }

  // ----- The buffer -----

  // EZ_ALIGN: a multiple of the size of a pointer.
  function Align(size: nat): (cap: nat)
    ensures size <= cap < size + 8 && cap % 8 == 0
  {
    (size + 7) / 8 * 8
  }

  class ByteBuf {
    var r: nat
    var w: nat
    var cap: nat
    var data: array<bv8>

    ghost predicate Valid()
      reads this
    {
      cap == data.Length
    }

    // The cursors are in order. Shrinking the buffer or reading behind the writer
    // index may end this.
    ghost predicate InOrder()
      reads this
    {
      Valid() && r <= w <= cap
    }

    // What has been written and not read yet.
    ghost function Unread(): seq<bv8>
      requires InOrder()
      reads this, data
    {
      data[r..w]
    }

    constructor (size: nat)
      ensures InOrder() && Unread() == [] && r == w == 0 && cap == Align(size) && fresh(data)
    {
      r, w := 0, 0;
      data := new bv8[Align(size)];
      cap := Align(size);
    }

    method Reset()
      requires Valid() && cap > 0
      modifies this, data
      ensures InOrder() && Unread() == [] && r == w == 0 && cap == old(cap) && data == old(data)
    {
      r, w := 0, 0;
      data[0] := 0;
    }

    // A larger buffer keeps everything; a smaller one only what fits, and the
    // cursors stay as they are.
    method Resize(size: nat)
      requires Valid()
      modifies this
      ensures Valid() && cap == Align(size) && fresh(data) && r == old(r) && w == old(w)
      ensures old(InOrder()) && w <= cap ==> Unread() == old(Unread())
      ensures forall i :: 0 <= i < old(cap) && i < cap ==> data[i] == old(data[i])
    {
      var moved := new bv8[Align(size)];
      forall i | 0 <= i < cap && i < moved.Length {
        moved[i] := data[i];
      }
      data := moved;
      cap := Align(size);
    }

    // Four bytes of a value, in the order of their places.
    method Put4(at: nat, b0: bv8, b1: bv8, b2: bv8, b3: bv8)
      requires at + 4 <= data.Length
      modifies data
      ensures data[..] == Over(old(data[..]), at, [b0, b1, b2, b3])
    {
      data[at] := b0;
      data[at + 1] := b1;
      data[at + 2] := b2;
      data[at + 3] := b3;
    }

    method WriteInt8(val: bv8)
      requires Valid() && w + 1 <= cap
      modifies this`w, data
      ensures Valid() && w == old(w) + 1 && data[old(w)..w] == Encode(Int8(val)) == [val]
      ensures forall i :: 0 <= i < cap && !(old(w) <= i < w) ==> data[i] == old(data[i])
      ensures r <= old(w) ==> Unread() == old(Unread()) + Encode(Int8(val))
    {
      data[w] := val;
      w := w + 1;
    }

    method ReadInt8() returns (val: bv8)
      requires Valid() && r + 1 <= cap
      modifies this`r
      ensures Valid() && r == old(r) + 1 && data[old(r)..r] == Encode(Int8(val)) == [val]
      ensures r <= w <= cap ==> old(Unread()) == Encode(Int8(val)) + Unread()
    {
      val := data[r];
      r := r + 1;
    }

    method WriteInt16(val: bv16)
      requires Valid() && w + 2 <= cap
      modifies this`w, data
      ensures Valid() && w == old(w) + 2 && data[old(w)..w] == Encode(Int16(val, Big))
      ensures forall i :: 0 <= i < cap && !(old(w) <= i < w) ==> data[i] == old(data[i])
      ensures r <= old(w) ==> Unread() == old(Unread()) + Encode(Int16(val, Big))
    {
      hide Byte16, Encode;
      EncodeIs16(val);
      data[w + 0] := Byte16(val, 8);
      data[w + 1] := Byte16(val, 0);
      Appended(old(data[..]), data[..], r, w, Bytes16(val));
      w := w + 2;
    }

    method ReadInt16() returns (val: bv16)
      requires Valid() && r + 2 <= cap
      modifies this`r
      ensures Valid() && r == old(r) + 2 && data[old(r)..r] == Encode(Int16(val, Big))
      ensures r <= w <= cap ==> old(Unread()) == Encode(Int16(val, Big)) + Unread()
    {
      hide Join16, Encode, Decode;
      val := Join16(data[r + 0], data[r + 1]);
      DecodeIs16(data[r..r + 2]);
      EncodeDecode16(data[r..r + 2], Big);
      r := r + 2;
    }

    method WriteInt32(val: bv32)
      requires Valid() && w + 4 <= cap
      modifies this`w, data
      ensures Valid() && w == old(w) + 4 && data[old(w)..w] == Encode(Int32(val, Big))
      ensures forall i :: 0 <= i < cap && !(old(w) <= i < w) ==> data[i] == old(data[i])
      ensures r <= old(w) ==> Unread() == old(Unread()) + Encode(Int32(val, Big))
    {
      hide Byte32, Bytes32, Over, Encode, Reverse;
      EncodeIs32(val);
      FourOf(val);
      Put4(w, Byte32(val, 24), Byte32(val, 16), Byte32(val, 8), Byte32(val, 0));
      AppendedOnce(old(data[..]), data[..], r, w, Bytes32(val));
      w := w + 4;
    }

    method ReadInt32() returns (val: bv32)
      requires Valid() && r + 4 <= cap
      modifies this`r
      ensures Valid() && r == old(r) + 4 && data[old(r)..r] == Encode(Int32(val, Big))
      ensures r <= w <= cap ==> old(Unread()) == Encode(Int32(val, Big)) + Unread()
    {
      hide Join32, Encode, Decode;
      val := Join32(data[r + 0], data[r + 1], data[r + 2], data[r + 3]);
      DecodeIs32(data[r..r + 4]);
      EncodeDecode32(data[r..r + 4], Big);
      r := r + 4;
    }

    method WriteInt64(val: bv64)
      requires Valid() && w + 8 <= cap
      modifies this`w, data
      ensures Valid() && w == old(w) + 8 && data[old(w)..w] == Encode(Int64(val, Big))
      ensures forall i :: 0 <= i < cap && !(old(w) <= i < w) ==> data[i] == old(data[i])
      ensures r <= old(w) ==> Unread() == old(Unread()) + Encode(Int64(val, Big))
    {
      hide Byte64, Bytes64, Over, Encode, Reverse;
      EncodeIs64(val);
      HalvesOf(val);
      Put4(w, Byte64(val, 56), Byte64(val, 48), Byte64(val, 40), Byte64(val, 32));
      Put4(w + 4, Byte64(val, 24), Byte64(val, 16), Byte64(val, 8), Byte64(val, 0));
      AppendedHalves(old(data[..]), data[..], r, w, Bytes64(val));
      w := w + 8;
    }

    method ReadInt64() returns (val: bv64)
      requires Valid() && r + 8 <= cap
      modifies this`r
      ensures Valid() && r == old(r) + 8 && data[old(r)..r] == Encode(Int64(val, Big))
      ensures r <= w <= cap ==> old(Unread()) == Encode(Int64(val, Big)) + Unread()
    {
      hide Join64, Encode, Decode;
      val := Join64(data[r + 0], data[r + 1], data[r + 2], data[r + 3], data[r + 4], data[r + 5], data[r + 6], data[r + 7]);
      DecodeIs64(data[r..r + 8]);
      EncodeDecode64(data[r..r + 8], Big);
      r := r + 8;
    }

    method WriteInt16Le(val: bv16)
      requires Valid() && w + 2 <= cap
      modifies this`w, data
      ensures Valid() && w == old(w) + 2 && data[old(w)..w] == Encode(Int16(val, Little))
      ensures forall i :: 0 <= i < cap && !(old(w) <= i < w) ==> data[i] == old(data[i])
      ensures r <= old(w) ==> Unread() == old(Unread()) + Encode(Int16(val, Little))
    {
      hide Byte16, Encode;
      EncodeIs16(val);
      data[w + 1] := Byte16(val, 8);
      data[w + 0] := Byte16(val, 0);
      Appended(old(data[..]), data[..], r, w, Reverse(Bytes16(val)));
      w := w + 2;
    }

    method ReadInt16Le() returns (val: bv16)
      requires Valid() && r + 2 <= cap
      modifies this`r
      ensures Valid() && r == old(r) + 2 && data[old(r)..r] == Encode(Int16(val, Little))
      ensures r <= w <= cap ==> old(Unread()) == Encode(Int16(val, Little)) + Unread()
    {
      hide Join16, Encode, Decode;
      val := Join16(data[r + 1], data[r + 0]);
      DecodeIs16(data[r..r + 2]);
      EncodeDecode16(data[r..r + 2], Little);
      r := r + 2;
    }

    method WriteInt32Le(val: bv32)
      requires Valid() && w + 4 <= cap
      modifies this`w, data
      ensures Valid() && w == old(w) + 4 && data[old(w)..w] == Encode(Int32(val, Little))
      ensures forall i :: 0 <= i < cap && !(old(w) <= i < w) ==> data[i] == old(data[i])
      ensures r <= old(w) ==> Unread() == old(Unread()) + Encode(Int32(val, Little))
    {
      hide Byte32, Bytes32, Over, Encode, Reverse;
      EncodeIs32(val);
      FourOf(val);
      Put4(w, Byte32(val, 0), Byte32(val, 8), Byte32(val, 16), Byte32(val, 24));
      AppendedOnce(old(data[..]), data[..], r, w, Reverse(Bytes32(val)));
      w := w + 4;
    }

    method ReadInt32Le() returns (val: bv32)
      requires Valid() && r + 4 <= cap
      modifies this`r
      ensures Valid() && r == old(r) + 4 && data[old(r)..r] == Encode(Int32(val, Little))
      ensures r <= w <= cap ==> old(Unread()) == Encode(Int32(val, Little)) + Unread()
    {
      hide Join32, Encode, Decode;
      val := Join32(data[r + 3], data[r + 2], data[r + 1], data[r + 0]);
      DecodeIs32(data[r..r + 4]);
      EncodeDecode32(data[r..r + 4], Little);
      r := r + 4;
    }

    method WriteInt64Le(val: bv64)
      requires Valid() && w + 8 <= cap
      modifies this`w, data
      ensures Valid() && w == old(w) + 8 && data[old(w)..w] == Encode(Int64(val, Little))
      ensures forall i :: 0 <= i < cap && !(old(w) <= i < w) ==> data[i] == old(data[i])
      ensures r <= old(w) ==> Unread() == old(Unread()) + Encode(Int64(val, Little))
    {
      hide Byte64, Bytes64, Over, Encode, Reverse;
      EncodeIs64(val);
      HalvesOf(val);
      Put4(w + 4, Byte64(val, 32), Byte64(val, 40), Byte64(val, 48), Byte64(val, 56));
      Put4(w, Byte64(val, 0), Byte64(val, 8), Byte64(val, 16), Byte64(val, 24));
      AppendedHalves(old(data[..]), data[..], r, w, Reverse(Bytes64(val)));
      w := w + 8;
    }

    method ReadInt64Le() returns (val: bv64)
      requires Valid() && r + 8 <= cap
      modifies this`r
      ensures Valid() && r == old(r) + 8 && data[old(r)..r] == Encode(Int64(val, Little))
      ensures r <= w <= cap ==> old(Unread()) == Encode(Int64(val, Little)) + Unread()
    {
      hide Join64, Encode, Decode;
      val := Join64(data[r + 7], data[r + 6], data[r + 5], data[r + 4], data[r + 3], data[r + 2], data[r + 1], data[r + 0]);
      DecodeIs64(data[r..r + 8]);
      EncodeDecode64(data[r..r + 8], Little);
      r := r + 8;
    }

    // Any of the typed writes and reads.
    method Write(f: Field)
      requires InOrder() && w + Width(KindOf(f)) <= cap
      modifies this`w, data
      ensures InOrder() && Unread() == old(Unread()) + Encode(f) && w == old(w) + Width(KindOf(f))
    {
      hide Encode;
      match f
      case Int8(b) => WriteInt8(b);
      case Int16(h, order) => if order == Big { WriteInt16(h); } else { WriteInt16Le(h); }
      case Int32(i, order) => if order == Big { WriteInt32(i); } else { WriteInt32Le(i); }
      case Int64(l, order) => if order == Big { WriteInt64(l); } else { WriteInt64Le(l); }
    }

    method Read(k: Kind) returns (f: Field)
      requires InOrder() && w - r >= Width(k)
      modifies this`r
      ensures InOrder() && KindOf(f) == k && old(Unread()) == Encode(f) + Unread()
    {
      hide Encode;
      match k
      case Kind8 => var b := ReadInt8(); f := Int8(b);
      case Kind16(order) =>
        var h;
        if order == Big { h := ReadInt16(); } else { h := ReadInt16Le(); }
        f := Int16(h, order);
      case Kind32(order) =>
        var i;
        if order == Big { i := ReadInt32(); } else { i := ReadInt32Le(); }
        f := Int32(i, order);
      case Kind64(order) =>
        var l;
        if order == Big { l := ReadInt64(); } else { l := ReadInt64Le(); }
        f := Int64(l, order);
    }

    method WriteAll(fs: seq<Field>)
      requires InOrder() && w + |EncodeAll(fs)| <= cap
      modifies this`w, data
      ensures InOrder() && Unread() == old(Unread()) + EncodeAll(fs) && r == old(r)
    {
      hide Encode, Unread;
      for k := 0 to |fs|
        invariant InOrder() && Unread() == old(Unread()) + EncodeAll(fs[..k])
        invariant w == old(w) + |EncodeAll(fs[..k])|
      {
        EncodeAllPart(fs, k);
        Write(fs[k]);
      }
      assert fs[..|fs|] == fs;
    }

    // Reading values of the kinds that were written, in the same order, gives
    // back the values and leaves nothing to read.
    method ReadAll(kinds: seq<Kind>, ghost fs: seq<Field>) returns (gs: seq<Field>)
      requires InOrder() && Unread() == EncodeAll(fs)
      requires |kinds| == |fs| && forall i :: 0 <= i < |fs| ==> kinds[i] == KindOf(fs[i])
      modifies this`r
      ensures InOrder() && gs == fs && r == w
    {
      hide Encode;
      gs := [];
      for k := 0 to |kinds|
        invariant InOrder() && gs == fs[..k] && Unread() == EncodeAll(fs[k..])
      {
        assert fs[k..][1..] == fs[k + 1..];
        var g := Read(kinds[k]);
        SameHead(fs[k], EncodeAll(fs[k + 1..]), g, Unread());
        gs := gs + [g];
      }
    }

    // Writes on both sides of growing the buffer, and then the reads.
    static method RoundTrip(size: nat, fs: seq<Field>, more: nat, gs: seq<Field>) returns (b: ByteBuf, hs: seq<Field>)
      requires |EncodeAll(fs)| <= size <= more && |EncodeAll(fs)| + |EncodeAll(gs)| <= more
      ensures hs == fs + gs && b.InOrder() && b.w - b.r == 0
    {
      hide Encode;
      b := new ByteBuf(size);
      b.WriteAll(fs);
      b.Resize(more);
      b.WriteAll(gs);
      EncodeAllConcat(fs, gs);
      hs := b.ReadAll(seq(|fs + gs|, i requires 0 <= i < |fs + gs| => KindOf((fs + gs)[i])), fs + gs);
    }
  }
}
