/**
A reference encoding of RPC values that is directed by their type, its decoder, and the proof that
the tag-directed sender with its bulk paths writes exactly this encoding.
*/
module RpcEncoding {
  import opened RpcTags
  import opened Packing
  import opened RpcWire

  // ----- well-typed values -----

  function Product(shape: seq<nat>): nat {
    if shape == [] then 1 else shape[0] * Product(shape[1..])
  }

  ghost predicate WellTyped(t: RpcType, v: Value)
    decreases t
  {
    match t
    case TTuple(ts) => v.VTuple? && |v.elts| == |ts| && forall i | 0 <= i < |ts| :: WellTyped(ts[i], v.elts[i])
    case TNone => v.VNone?
    case TBool => v.VBool?
    case TInt32 => v.VInt? && IsInt32(v.i)
    case TInt64 => v.VInt? && IsInt64(v.i)
    case TFloat => v.VFloat?
    case TStr => v.VStr? && 0 !in v.utf8 && |v.utf8| <= MAX_LENGTH
    case TBytes => v.VBytes? && |v.data| <= MAX_LENGTH
    case TByteArray => v.VByteArray? && |v.data| <= MAX_LENGTH
    case TList(u) => v.VList? && |v.elts| <= MAX_LENGTH && forall i | 0 <= i < |v.elts| :: WellTyped(u, v.elts[i])
    case TArray(n, u) =>
      && v.VArray? && |v.shape| == n && (forall i | 0 <= i < n :: v.shape[i] <= MAX_LENGTH)
      && |v.elts| == Product(v.shape) && forall i | 0 <= i < |v.elts| :: WellTyped(u, v.elts[i])
    case TRange(u) =>
      v.VRange? && WellTyped(u, VInt(v.start)) && WellTyped(u, VInt(v.stop)) && WellTyped(u, VInt(v.step))
    case TKeyword(_) => false
    case TObject => false
  }

  /** Types that can be sent: no keywords and objects, and no range directly in a tuple. */
  ghost predicate Sendable(t: RpcType) {
    match t
    case TTuple(ts) => forall i | 0 <= i < |ts| :: Sendable(ts[i]) && !ts[i].TRange?
    case TList(u) => Sendable(u)
    case TArray(_, u) => Sendable(u)
    case TRange(u) => Sendable(u)
    case TKeyword(_) => false
    case TObject => false
    case _ => true
  }

  // ----- the encoding -----

  function EncodeScalar(e: Endian, v: Value): seq<byte> {
    match v
    case VBool(b) => Bool(b)
    case VFloat(bits) => PackNat(e, 8, bits)
    case VStr(s) => PackInt32(e, |s|) + s
    case VBytes(s) => PackInt32(e, |s|) + s
    case VByteArray(s) => PackInt32(e, |s|) + s
    case _ => []
  }

  function EncodeShape(e: Endian, shape: seq<nat>): seq<byte> {
    if shape == [] then [] else PackInt32(e, shape[0]) + EncodeShape(e, shape[1..])
  }

  ghost function Encode(e: Endian, t: RpcType, v: Value): seq<byte>
    requires WellTyped(t, v)
    decreases t, 0
  {
    match t
    case TTuple(ts) => EncodeAll(e, ts, v.elts)
    case TInt32 => PackInt32(e, v.i)
    case TInt64 => PackInt64(e, v.i)
    case TList(u) => PackInt32(e, |v.elts|) + EncodeEach(e, u, v.elts)
    case TArray(_, u) => EncodeShape(e, v.shape) + EncodeEach(e, u, v.elts)
    case TRange(u) => EncodeEach(e, u, [VInt(v.start), VInt(v.stop), VInt(v.step)])
    case _ => EncodeScalar(e, v)
  }

  ghost function EncodeAll(e: Endian, ts: seq<RpcType>, vs: seq<Value>): seq<byte>
    requires |ts| == |vs| && forall i | 0 <= i < |ts| :: WellTyped(ts[i], vs[i])
    decreases ts, 1
  {
    if ts == [] then [] else Encode(e, ts[0], vs[0]) + EncodeAll(e, ts[1..], vs[1..])
  }

  ghost function EncodeEach(e: Endian, t: RpcType, vs: seq<Value>): seq<byte>
    requires forall i | 0 <= i < |vs| :: WellTyped(t, vs[i])
    decreases t, 1 + |vs|
  {
    if vs == [] then [] else Encode(e, t, vs[0]) + EncodeEach(e, t, vs[1..])
  }

  // ----- the sender writes the encoding -----

  lemma {:induction false} SendableHasNoKeyword(t: RpcType)
    requires Sendable(t)
    ensures KeywordFree(t) && (!t.TRange? ==> Consumed(t))
  {
    match t
    case TTuple(ts) =>
      forall i | 0 <= i < |ts| ensures KeywordFree(ts[i]) && Consumed(ts[i]) {
        SendableHasNoKeyword(ts[i]);
      }
    case TList(u) => SendableHasNoKeyword(u);
    case TArray(_, u) => SendableHasNoKeyword(u);
    case TRange(u) => SendableHasNoKeyword(u);
    case _ =>
  }

  /** The bulk paths write what the writer of single elements would write. */
  lemma {:induction false} BulkEncodes(e: Endian, t: RpcType, vs: seq<Value>, isArray: bool)
    requires t in {TBool, TInt32, TInt64, TFloat} && forall i | 0 <= i < |vs| :: WellTyped(t, vs[i])
    ensures IsBulk(Tag(t)[0]) && Bulk(e, Tag(t)[0], vs, isArray) == Packed(EncodeEach(e, t, vs))
  {
    if vs != [] {
      BulkEncodes(e, t, vs[1..], isArray);
      assert WellTyped(t, vs[0]);
    }
  }

  lemma {:induction false} ShapeEncodes(e: Endian, shape: seq<nat>)
    requires forall i | 0 <= i < |shape| :: shape[i] <= MAX_LENGTH
    ensures PackShape(e, shape) == Packed(EncodeShape(e, shape))
  {
    if shape != [] {
      ShapeEncodes(e, shape[1..]);
    }
  }

  /** What one value of each kind of type is sent as. */
  lemma {:induction false} SendEncodes(e: Endian, t: RpcType, v: Value, S: seq<byte>)
    requires Taggable(t) && Sendable(t) && WellTyped(t, v)
    ensures Send(e, Tag(t) + S, v).Sent? && Send(e, Tag(t) + S, v).bytes == Encode(e, t, v)
    ensures !t.TRange? ==> Send(e, Tag(t) + S, v).tags == S
    decreases t, 0
  {
    SendableHasNoKeyword(t);
    if t.TTuple? {
      SendAllEncodes(e, t.elts, v.elts, S);
      SendTuple(e, |t.elts|, Tags(t.elts) + S, v);
      Associates([TAG_TUPLE, |t.elts|], Tags(t.elts), S);
    } else if t.TList? {
      SendPartsEncodes(e, PackInt32(e, |v.elts|), t.elt, v.elts, S, false);
      SendList(e, Tag(t.elt) + S, v);
      Associates([TAG_LIST], Tag(t.elt), S);
    } else if t.TArray? {
      ShapeEncodes(e, v.shape);
      SendPartsEncodes(e, EncodeShape(e, v.shape), t.elt, v.elts, S, true);
      SendArray(e, t.dims, Tag(t.elt) + S, v);
      Associates([TAG_ARRAY, t.dims], Tag(t.elt), S);
    } else if t.TRange? {
      SendEachEncodes(e, t.elt, [VInt(v.start), VInt(v.stop), VInt(v.step)], S);
      SendRange(e, Tag(t.elt) + S, v);
      Associates([TAG_RANGE], Tag(t.elt), S);
    } else {
      ScalarEncodes(e, t, v);
      SendScalar(e, Tag(t)[0], S, v);
    }
  }

  // The arms of the sender, one by one.

  lemma SendTuple(e: Endian, n: byte, rest: seq<byte>, v: Value)
    requires v.VTuple? && |v.elts| == n
    ensures Send(e, [TAG_TUPLE, n] + rest, v) == SendAll(e, rest, v.elts)
  {
    assert ([TAG_TUPLE, n] + rest)[1..][1..] == rest;
  }

  lemma SendList(e: Endian, rest: seq<byte>, v: Value)
    requires v.VList? && |v.elts| <= MAX_LENGTH
    ensures Send(e, [TAG_LIST] + rest, v) == SendParts(e, PackInt32(e, |v.elts|), rest, v.elts, false)
  {
    assert ([TAG_LIST] + rest)[1..] == rest;
  }

  lemma SendArray(e: Endian, n: byte, rest: seq<byte>, v: Value)
    requires v.VArray? && |v.shape| == n && PackShape(e, v.shape).Packed?
    ensures Send(e, [TAG_ARRAY, n] + rest, v) == SendParts(e, PackShape(e, v.shape).bytes, rest, v.elts, true)
  {
    assert ([TAG_ARRAY, n] + rest)[1..][1..] == rest;
  }

  lemma SendRange(e: Endian, rest: seq<byte>, v: Value)
    requires v.VRange? && SendEach(e, rest, [VInt(v.start), VInt(v.stop), VInt(v.step)]).Packed?
    ensures Send(e, [TAG_RANGE] + rest, v) ==
            Sent(SendEach(e, rest, [VInt(v.start), VInt(v.stop), VInt(v.step)]).bytes, rest)
  {
    assert ([TAG_RANGE] + rest)[1..] == rest;
  }

  lemma SendScalar(e: Endian, tag: byte, rest: seq<byte>, v: Value)
    requires tag !in {TAG_TUPLE, TAG_LIST, TAG_ARRAY, TAG_RANGE} && Scalar(e, tag, v).Packed?
    ensures Send(e, [tag] + rest, v) == Sent(Scalar(e, tag, v).bytes, rest)
  {
    assert ([tag] + rest)[1..] == rest;
  }

  lemma ScalarEncodes(e: Endian, t: RpcType, v: Value)
    requires WellTyped(t, v) && !t.TTuple? && !t.TList? && !t.TArray? && !t.TRange?
    ensures Tag(t) == [Tag(t)[0]] && Tag(t)[0] !in {TAG_TUPLE, TAG_LIST, TAG_ARRAY, TAG_RANGE}
    ensures Scalar(e, Tag(t)[0], v) == Packed(Encode(e, t, v))
  {
  }

  lemma {:induction false} SendAllEncodes(e: Endian, ts: seq<RpcType>, vs: seq<Value>, S: seq<byte>)
    requires AllTaggable(ts) && |ts| == |vs| && forall i | 0 <= i < |ts| :: WellTyped(ts[i], vs[i])
    requires forall i | 0 <= i < |ts| :: Sendable(ts[i]) && !ts[i].TRange?
    ensures SendAll(e, Tags(ts) + S, vs) == Sent(EncodeAll(e, ts, vs), S)
    decreases ts, 1
  {
    if ts == [] {
      assert Tags(ts) + S == S;
    } else {
      HeadTags(ts, S);
      SendEncodes(e, ts[0], vs[0], Tags(ts[1..]) + S);
      SendAllEncodes(e, ts[1..], vs[1..], S);
    }
  }

  lemma {:induction false} SendEachEncodes(e: Endian, t: RpcType, vs: seq<Value>, S: seq<byte>)
    requires Taggable(t) && Sendable(t) && forall i | 0 <= i < |vs| :: WellTyped(t, vs[i])
    ensures SendEach(e, Tag(t) + S, vs) == Packed(EncodeEach(e, t, vs))
    decreases t, 1 + |vs|
  {
    if vs != [] {
      SendEncodes(e, t, vs[0], S);
      SendEachEncodes(e, t, vs[1..], S);
    }
  }

  lemma OnlyScalarsAreBulk(t: RpcType, S: seq<byte>)
    requires Taggable(t)
    ensures (Tag(t) + S)[0] == Tag(t)[0] && (IsBulk(Tag(t)[0]) <==> t in {TBool, TInt32, TInt64, TFloat})
  {
  }

  lemma {:induction false} SendPartsEncodes(
      e: Endian, header: seq<byte>, t: RpcType, vs: seq<Value>, S: seq<byte>, isArray: bool)
    requires Taggable(t) && Sendable(t) && forall i | 0 <= i < |vs| :: WellTyped(t, vs[i])
    ensures SendParts(e, header, Tag(t) + S, vs, isArray) == Sent(header + EncodeEach(e, t, vs), S)
    decreases t, 2 + |vs|
  {
    SendableHasNoKeyword(t);
    SkipIsExactIffKeywordFree(t, S);
    OnlyScalarsAreBulk(t, S);
    if t in {TBool, TInt32, TInt64, TFloat} {
      BulkEncodes(e, t, vs, isArray);
    } else {
      SendEachEncodes(e, t, vs, S);
    }
  }

  // ----- a range in a tuple -----

  function RangeBytes(e: Endian, a: int, b: int, c: int): seq<byte> {
    PackInt32(e, a) + (PackInt32(e, b) + PackInt32(e, c))
  }

  /** A pair of a range and a 64-bit integer, and what its encoding would be. */
  lemma PairEncodes(e: Endian, a: int, b: int, c: int, i: int)
    requires IsInt32(a) && IsInt32(b) && IsInt32(c) && IsInt64(i)
    ensures
      var t, v := TTuple([TRange(TInt32), TInt64]), VTuple([VRange(a, b, c), VInt(i)]);
      WellTyped(t, v) && Encode(e, t, v) == RangeBytes(e, a, b, c) + PackInt64(e, i)
  {
    var ts, vs := [TRange(TInt32), TInt64], [VRange(a, b, c), VInt(i)];
    assert WellTyped(ts[0], vs[0]) && WellTyped(ts[1], vs[1]);
    RangeEncodes(e, a, b, c);
    assert ts[1..] == [TInt64] && vs[1..] == [VInt(i)];
    assert EncodeAll(e, [TInt64], [VInt(i)]) == PackInt64(e, i) by {
      assert [TInt64][1..] == [] && [VInt(i)][1..] == [] && PackInt64(e, i) + [] == PackInt64(e, i);
    }
  }

  lemma RangeEncodes(e: Endian, a: int, b: int, c: int)
    requires IsInt32(a) && IsInt32(b) && IsInt32(c)
    ensures EncodeEach(e, TInt32, [VInt(a), VInt(b), VInt(c)]) == RangeBytes(e, a, b, c)
  {
    var x, y, z := VInt(a), VInt(b), VInt(c);
    assert [x, y, z][1..] == [y, z] && [y, z][1..] == [z] && [z][1..] == [];
    assert EncodeEach(e, TInt32, [z]) == PackInt32(e, c) + [] == PackInt32(e, c);
    assert EncodeEach(e, TInt32, [y, z]) == PackInt32(e, b) + EncodeEach(e, TInt32, [z]);
    assert EncodeEach(e, TInt32, [x, y, z]) == PackInt32(e, a) + EncodeEach(e, TInt32, [y, z]);
  }

  /** A range does not consume its tag, so what follows it in a tuple is sent as another type: here the
      64-bit integer as four bytes, or not at all. */
  lemma RangeShiftsTags(e: Endian, a: int, b: int, c: int, i: int, S: seq<byte>)
    requires IsInt32(a) && IsInt32(b) && IsInt32(c) && IsInt64(i)
    ensures
      var t, v := TTuple([TRange(TInt32), TInt64]), VTuple([VRange(a, b, c), VInt(i)]);
      && (Send(e, Tag(t) + S, v).Sent? <==> IsInt32(i))
      && (IsInt32(i) ==>
            Send(e, Tag(t) + S, v) == Sent(RangeBytes(e, a, b, c) + PackInt32(e, i), [TAG_INT64] + S))
  {
    var rest := [TAG_INT64] + S;
    var left := [TAG_RANGE] + ([TAG_INT32] + rest);
    var vs := [VRange(a, b, c), VInt(i)];
    PairTags(S);
    SendTuple(e, 2, left, VTuple(vs));
    RangeLeaves(e, a, b, c, rest);
    LastOfPair(e, rest, i);
    var q := SendAll(e, [TAG_INT32] + rest, [VInt(i)]);
    assert vs[1..] == [VInt(i)];
    assert SendAll(e, left, vs) == if q.Failed? then q else Sent(RangeBytes(e, a, b, c) + q.bytes, q.tags);
    assert Send(e, Tag(TTuple([TRange(TInt32), TInt64])) + S, VTuple(vs)) == SendAll(e, left, vs);
  }

  lemma PairTags(S: seq<byte>)
    ensures Tag(TTuple([TRange(TInt32), TInt64])) + S ==
            [TAG_TUPLE, 2] + ([TAG_RANGE] + ([TAG_INT32] + ([TAG_INT64] + S)))
  {
    var ts := [TRange(TInt32), TInt64];
    assert ts[1..] == [TInt64] && [TInt64][1..] == [];
    assert Tags([TInt64]) == [TAG_INT64];
    assert Tag(TRange(TInt32)) == [TAG_RANGE, TAG_INT32];
    assert Tags(ts) == [TAG_RANGE, TAG_INT32, TAG_INT64];
  }

  lemma RangeLeaves(e: Endian, a: int, b: int, c: int, rest: seq<byte>)
    requires IsInt32(a) && IsInt32(b) && IsInt32(c)
    ensures Send(e, [TAG_RANGE] + ([TAG_INT32] + rest), VRange(a, b, c)) ==
            Sent(RangeBytes(e, a, b, c), [TAG_INT32] + rest)
  {
    assert Tag(TInt32) == [TAG_INT32];
    SendEachEncodes(e, TInt32, [VInt(a), VInt(b), VInt(c)], rest);
    RangeEncodes(e, a, b, c);
    SendRange(e, [TAG_INT32] + rest, VRange(a, b, c));
  }

  lemma LastOfPair(e: Endian, rest: seq<byte>, i: int)
    ensures SendAll(e, [TAG_INT32] + rest, [VInt(i)]).Sent? <==> IsInt32(i)
    ensures IsInt32(i) ==> SendAll(e, [TAG_INT32] + rest, [VInt(i)]) == Sent(PackInt32(e, i), rest)
  {
    assert [VInt(i)][1..] == [] && ([TAG_INT32] + rest)[1..] == rest;
    assert PackInt32(e, i) + [] == PackInt32(e, i);
  }
}
