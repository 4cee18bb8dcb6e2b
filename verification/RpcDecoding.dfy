/**
The reference encoding can be read back, so that what is sent determines the value and where it
ends.
*/
module RpcDecoding {
  import opened RpcTags
  import opened Packing
  import opened RpcWire
  import opened RpcEncoding

  datatype Decoded<+T> = Got(value: T, rest: seq<byte>) | Short

  // ----- pieces -----

  function TakeInt32(e: Endian, s: seq<byte>): Decoded<int> {
    if |s| < 4 then Short else Got(UnpackInt32(e, s[..4]), s[4..])
  }

  function TakeInt64(e: Endian, s: seq<byte>): Decoded<int> {
    if |s| < 8 then Short else Got(UnpackInt64(e, s[..8]), s[8..])
  }

  function TakeFloat(e: Endian, s: seq<byte>): Decoded<Word64> {
    if |s| < 8 then Short else Got(UnpackWord64(e, s[..8]), s[8..])
  }

  function TakeBlock(e: Endian, s: seq<byte>): Decoded<seq<byte>> {
    match TakeInt32(e, s)
    case Got(n, rest) => if 0 <= n <= |rest| then Got(rest[..n], rest[n..]) else Short
    case Short => Short
  }

  function TakeShape(e: Endian, n: nat, s: seq<byte>): Decoded<seq<nat>> {
    if n == 0 then Got([], s)
    else
      match TakeInt32(e, s)
      case Short => Short
      case Got(d, rest) =>
        if d < 0 then Short
        else
          match TakeShape(e, n - 1, rest)
          case Short => Short
          case Got(ds, rest') => Got([d] + ds, rest')
  }

  lemma TakesInt32(e: Endian, i: int, R: seq<byte>)
    requires IsInt32(i)
    ensures TakeInt32(e, PackInt32(e, i) + R) == Got(i, R)
  {
    var s := PackInt32(e, i) + R;
    assert s[..4] == PackInt32(e, i) && s[4..] == R;
    UnpackPackInt32(e, i);
  }

  lemma TakesInt64(e: Endian, i: int, R: seq<byte>)
    requires IsInt64(i)
    ensures TakeInt64(e, PackInt64(e, i) + R) == Got(i, R)
  {
    var s := PackInt64(e, i) + R;
    assert s[..8] == PackInt64(e, i) && s[8..] == R;
    UnpackPackInt64(e, i);
  }

  lemma TakesFloat(e: Endian, bits: Word64, R: seq<byte>)
    ensures TakeFloat(e, PackNat(e, 8, bits) + R) == Got(bits, R)
  {
    var s := PackNat(e, 8, bits) + R;
    assert s[..8] == PackNat(e, 8, bits) && s[8..] == R;
    Powers();
    UnpackPackNat(e, 8, bits);
  }

  lemma TakesBlock(e: Endian, data: seq<byte>, R: seq<byte>)
    requires |data| <= MAX_LENGTH
    ensures TakeBlock(e, PackInt32(e, |data|) + data + R) == Got(data, R)
  {
    Associates(PackInt32(e, |data|), data, R);
    TakesInt32(e, |data|, data + R);
    assert (data + R)[..|data|] == data && (data + R)[|data|..] == R;
  }

  lemma {:induction false} TakesShape(e: Endian, shape: seq<nat>, R: seq<byte>)
    requires forall i | 0 <= i < |shape| :: shape[i] <= MAX_LENGTH
    ensures TakeShape(e, |shape|, EncodeShape(e, shape) + R) == Got(shape, R)
  {
    if shape == [] {
      assert EncodeShape(e, shape) + R == R;
    } else {
      Associates(PackInt32(e, shape[0]), EncodeShape(e, shape[1..]), R);
      TakesInt32(e, shape[0], EncodeShape(e, shape[1..]) + R);
      TakesShape(e, shape[1..], R);
      assert [shape[0]] + shape[1..] == shape;
    }
  }

  // ----- decoding by type -----

  function Decode(e: Endian, t: RpcType, s: seq<byte>): Decoded<Value>
    decreases t, 0
  {
    match t
    case TNone => Got(VNone, s)
    case TBool => if s == [] then Short else Got(VBool(s[0] != 0), s[1..])
    case TInt32 => (match TakeInt32(e, s) case Got(i, r) => Got(VInt(i), r) case Short => Short)
    case TInt64 => (match TakeInt64(e, s) case Got(i, r) => Got(VInt(i), r) case Short => Short)
    case TFloat => (match TakeFloat(e, s) case Got(n, r) => Got(VFloat(n), r) case Short => Short)
    case TStr => (match TakeBlock(e, s) case Got(d, r) => Got(VStr(d), r) case Short => Short)
    case TBytes => (match TakeBlock(e, s) case Got(d, r) => Got(VBytes(d), r) case Short => Short)
    case TByteArray => (match TakeBlock(e, s) case Got(d, r) => Got(VByteArray(d), r) case Short => Short)
    case TTuple(ts) => (match DecodeAll(e, ts, s) case Got(vs, r) => Got(VTuple(vs), r) case Short => Short)
    case TList(u) => (
      match TakeInt32(e, s)
      case Short => Short
      case Got(n, r) =>
        if n < 0 then Short
        else (match DecodeEach(e, u, n, r) case Got(vs, r') => Got(VList(vs), r') case Short => Short))
    case TArray(n, u) => (
      match TakeShape(e, n, s)
      case Short => Short
      case Got(shape, r) =>
        (match DecodeEach(e, u, Product(shape), r) case Got(vs, r') => Got(VArray(shape, vs), r') case Short => Short))
    case TRange(u) => (
      match DecodeEach(e, u, 3, s)
      case Short => Short
      case Got(vs, r) =>
        if |vs| == 3 && vs[0].VInt? && vs[1].VInt? && vs[2].VInt? then Got(VRange(vs[0].i, vs[1].i, vs[2].i), r)
        else Short)
    case TKeyword(_) => Short
    case TObject => Short
  }

  function DecodeAll(e: Endian, ts: seq<RpcType>, s: seq<byte>): Decoded<seq<Value>>
    decreases ts, 1
  {
    if ts == [] then Got([], s)
    else
      match Decode(e, ts[0], s)
      case Short => Short
      case Got(v, r) => (match DecodeAll(e, ts[1..], r) case Got(vs, r') => Got([v] + vs, r') case Short => Short)
  }

  function DecodeEach(e: Endian, t: RpcType, n: nat, s: seq<byte>): Decoded<seq<Value>>
    decreases t, 1 + n
  {
    if n == 0 then Got([], s)
    else
      match Decode(e, t, s)
      case Short => Short
      case Got(v, r) => (match DecodeEach(e, t, n - 1, r) case Got(vs, r') => Got([v] + vs, r') case Short => Short)
  }

  // ----- round trip -----

  lemma {:induction false} DecodeEncode(e: Endian, t: RpcType, v: Value, R: seq<byte>)
    requires WellTyped(t, v)
    ensures Decode(e, t, Encode(e, t, v) + R) == Got(v, R)
    decreases t, 0
  {
    match t
    case TTuple(ts) => DecodeEncodeAll(e, ts, v.elts, R);
    case TList(u) =>
      Associates(PackInt32(e, |v.elts|), EncodeEach(e, u, v.elts), R);
      TakesInt32(e, |v.elts|, EncodeEach(e, u, v.elts) + R);
      DecodeEncodeEach(e, u, v.elts, R);
    case TArray(n, u) =>
      Associates(EncodeShape(e, v.shape), EncodeEach(e, u, v.elts), R);
      TakesShape(e, v.shape, EncodeEach(e, u, v.elts) + R);
      DecodeEncodeEach(e, u, v.elts, R);
    case TRange(u) =>
      DecodeEncodeEach(e, u, [VInt(v.start), VInt(v.stop), VInt(v.step)], R);
    case _ => DecodeEncodeScalar(e, t, v, R);
  }

  lemma DecodeEncodeScalar(e: Endian, t: RpcType, v: Value, R: seq<byte>)
    requires WellTyped(t, v) && !t.TTuple? && !t.TList? && !t.TArray? && !t.TRange?
    ensures Decode(e, t, Encode(e, t, v) + R) == Got(v, R)
  {
    match t
    case TNone => assert Encode(e, t, v) + R == R;
    case TBool => assert (Bool(v.b) + R)[1..] == R;
    case TInt32 => TakesInt32(e, v.i, R);
    case TInt64 => TakesInt64(e, v.i, R);
    case TFloat => TakesFloat(e, v.bits, R);
    case TStr => TakesBlock(e, v.utf8, R);
    case TBytes => TakesBlock(e, v.data, R);
    case TByteArray => TakesBlock(e, v.data, R);
  }

  lemma {:induction false} DecodeEncodeAll(e: Endian, ts: seq<RpcType>, vs: seq<Value>, R: seq<byte>)
    requires |ts| == |vs| && forall i | 0 <= i < |ts| :: WellTyped(ts[i], vs[i])
    ensures DecodeAll(e, ts, EncodeAll(e, ts, vs) + R) == Got(vs, R)
    decreases ts, 1
  {
    if ts == [] {
      assert EncodeAll(e, ts, vs) + R == R;
    } else {
      var rest := EncodeAll(e, ts[1..], vs[1..]);
      Associates(Encode(e, ts[0], vs[0]), rest, R);
      DecodeEncode(e, ts[0], vs[0], rest + R);
      DecodeEncodeAll(e, ts[1..], vs[1..], R);
      assert [vs[0]] + vs[1..] == vs;
    }
  }

  lemma {:induction false} DecodeEncodeEach(e: Endian, t: RpcType, vs: seq<Value>, R: seq<byte>)
    requires forall i | 0 <= i < |vs| :: WellTyped(t, vs[i])
    ensures DecodeEach(e, t, |vs|, EncodeEach(e, t, vs) + R) == Got(vs, R)
    decreases t, 1 + |vs|
  {
    if vs == [] {
      assert EncodeEach(e, t, vs) + R == R;
    } else {
      DecodeEncode(e, t, vs[0], EncodeEach(e, t, vs[1..]) + R);
      DecodeEncodeEach(e, t, vs[1..], R);
      DecodeEachStep(e, t, vs, R);
    }
  }

  lemma DecodeEachStep(e: Endian, t: RpcType, vs: seq<Value>, R: seq<byte>)
    requires vs != [] && forall i | 0 <= i < |vs| :: WellTyped(t, vs[i])
    requires
      var r := EncodeEach(e, t, vs[1..]) + R;
      Decode(e, t, Encode(e, t, vs[0]) + r) == Got(vs[0], r) && DecodeEach(e, t, |vs| - 1, r) == Got(vs[1..], R)
    ensures DecodeEach(e, t, |vs|, EncodeEach(e, t, vs) + R) == Got(vs, R)
  {
    var first, rest := Encode(e, t, vs[0]), EncodeEach(e, t, vs[1..]);
    Associates(first, rest, R);
    OneThenOthers(e, t, |vs|, first + (rest + R), vs[0], rest + R, vs[1..], R);
    assert [vs[0]] + vs[1..] == vs;
  }

  lemma OneThenOthers(e: Endian, t: RpcType, n: nat, s: seq<byte>, v: Value, r: seq<byte>, vs: seq<Value>, R: seq<byte>)
    requires n > 0 && Decode(e, t, s) == Got(v, r) && DecodeEach(e, t, n - 1, r) == Got(vs, R)
    ensures DecodeEach(e, t, n, s) == Got([v] + vs, R)
  {
  }

  /** For one type the encodings are prefix-free and injective. */
  lemma UniquelyDecodable(e: Endian, t: RpcType, v: Value, R: seq<byte>, w: Value, Q: seq<byte>)
    requires WellTyped(t, v) && WellTyped(t, w)
    requires Encode(e, t, v) + R == Encode(e, t, w) + Q
    ensures v == w && R == Q
  {
    DecodeEncode(e, t, v, R);
    DecodeEncode(e, t, w, Q);
  }

  /** The same of the bytes that the sender writes. */
  lemma SentIsUniquelyDecodable(e: Endian, t: RpcType, v: Value, w: Value, S: seq<byte>, R: seq<byte>, Q: seq<byte>)
    requires Taggable(t) && Sendable(t) && WellTyped(t, v) && WellTyped(t, w)
    requires Send(e, Tag(t) + S, v).Sent? && Send(e, Tag(t) + S, w).Sent?
    requires Send(e, Tag(t) + S, v).bytes + R == Send(e, Tag(t) + S, w).bytes + Q
    ensures v == w && R == Q
  {
    SendEncodes(e, t, v, S);
    SendEncodes(e, t, w, S);
    UniquelyDecodable(e, t, v, R, w, Q);
  }

  // ----- receiving lists -----

  /** The receivers of single elements. */
  function ReceiveScalar(e: Endian, tag: byte, s: seq<byte>): Decoded<Value>
    requires IsBulk(tag)
  {
    Decode(e, ElementType(tag), s)
  }

  function ElementType(tag: byte): RpcType
    requires IsBulk(tag)
  {
    if tag == TAG_BOOL then TBool else if tag == TAG_INT32 then TInt32 else if tag == TAG_INT64 then TInt64 else TFloat
  }

  function Width(tag: byte): nat
    requires IsBulk(tag)
  {
    if tag == TAG_BOOL then 1 else if tag == TAG_INT32 then 4 else 8
  }

  /** One element of `struct.unpack` or of an array view on its bytes. */
  function UnpackItem(e: Endian, tag: byte, s: seq<byte>): Value
    requires IsBulk(tag) && |s| == Width(tag)
  {
    if tag == TAG_BOOL then VBool(s[0] != 0)
    else if tag == TAG_INT32 then VInt(UnpackInt32(e, s))
    else if tag == TAG_INT64 then VInt(UnpackInt64(e, s))
    else VFloat(UnpackWord64(e, s))
  }

  /** The bulk arms of `_receive_list`: one block for all elements, cut up afterwards. */
  function ReceiveBlock(e: Endian, tag: byte, n: nat, s: seq<byte>): Decoded<seq<Value>>
    requires IsBulk(tag)
  {
    var w := Width(tag);
    if |s| < w * n then Short
    else Got(Unpacked(e, tag, n, s[..w * n]), s[w * n..])
  }

  function Unpacked(e: Endian, tag: byte, n: nat, block: seq<byte>): seq<Value>
    requires IsBulk(tag) && |block| == Width(tag) * n
  {
    if n == 0 then []
    else
      var w := Width(tag);
      assert w * n == w + w * (n - 1);
      [UnpackItem(e, tag, block[..w])] + Unpacked(e, tag, n - 1, block[w..])
  }

  /** The block read returns the values, and stops at the place, of repeated single reads. */
  lemma {:induction false} BlockIsRepeatedScalar(e: Endian, tag: byte, n: nat, s: seq<byte>)
    requires IsBulk(tag)
    ensures ReceiveBlock(e, tag, n, s) == DecodeEach(e, ElementType(tag), n, s)
  {
    var w := Width(tag);
    if n == 0 {
      assert w * n == 0 && s[0..] == s;
    } else {
      assert w * n == w + w * (n - 1) && w * (n - 1) >= 0;
      OneItem(e, tag, s);
      if |s| >= w {
        BlockIsRepeatedScalar(e, tag, n - 1, s[w..]);
        if |s| >= w * n {
          var block := s[..w * n];
          assert block[..w] == s[..w] && block[w..] == s[w..][..w * (n - 1)];
          assert s[w..][w * (n - 1)..] == s[w * n..];
        }
      }
    }
  }

  lemma OneItem(e: Endian, tag: byte, s: seq<byte>)
    requires IsBulk(tag)
    ensures var w := Width(tag);
            ReceiveScalar(e, tag, s) == if |s| < w then Short else Got(UnpackItem(e, tag, s[..w]), s[w..])
  {
  }
}
