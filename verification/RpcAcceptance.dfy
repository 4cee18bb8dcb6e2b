/**
Which values the sender accepts for a type, in terms of types and values alone: everything else is
refused.
*/
module RpcAcceptance {
  import opened RpcTags
  import opened Packing
  import opened RpcWire

  /** An integer within bounds; a Python `bool` is an `int`, too. */
  ghost predicate IntegerWithin(v: Value, low: int, high: int) {
    || (v.VBool? && low <= 0 && 1 <= high)
    || (v.VInt? && low <= v.i <= high)
  }

  /** A list element that is packed in bulk: `bytes` takes small integers for booleans. */
  ghost predicate ListItemAccepted(t: RpcType, v: Value) {
    match t
    case TBool => IntegerWithin(v, 0, 255)
    case TInt32 => IntegerWithin(v, -0x8000_0000, 0x7fff_ffff)
    case TInt64 => IntegerWithin(v, -0x8000_0000_0000_0000, 0x7fff_ffff_ffff_ffff)
    case _ => v.VFloat?
  }

  /** An array element that is converted in bulk: integers of any size wrap around. */
  ghost predicate ArrayItemAccepted(t: RpcType, v: Value) {
    match t
    case TBool => v.VBool?
    case TInt32 => v.VInt? || v.VBool?
    case TInt64 => v.VInt? || v.VBool?
    case _ => v.VFloat?
  }

  ghost predicate IsScalar(t: RpcType) {
    t.TBool? || t.TInt32? || t.TInt64? || t.TFloat?
  }

  ghost predicate Accepted(t: RpcType, v: Value)
    decreases t
  {
    match t
    case TNone => v.VNone?
    case TBool => v.VBool?
    case TInt32 => IntegerWithin(v, -0x8000_0000, 0x7fff_ffff)
    case TInt64 => IntegerWithin(v, -0x8000_0000_0000_0000, 0x7fff_ffff_ffff_ffff)
    case TFloat => v.VFloat?
    case TStr => v.VStr? && 0 !in v.utf8 && |v.utf8| <= 0x7fff_ffff
    case TBytes => v.VBytes? && |v.data| <= 0x7fff_ffff
    case TByteArray => v.VByteArray? && |v.data| <= 0x7fff_ffff
    case TTuple(ts) => v.VTuple? && |v.elts| == |ts| && forall i | 0 <= i < |ts| :: Accepted(ts[i], v.elts[i])
    case TList(u) =>
      && v.VList? && |v.elts| <= 0x7fff_ffff
      && forall i | 0 <= i < |v.elts| :: if IsScalar(u) then ListItemAccepted(u, v.elts[i]) else Accepted(u, v.elts[i])
    case TArray(n, u) =>
      && v.VArray? && |v.shape| == n && (forall i | 0 <= i < |v.shape| :: v.shape[i] <= 0x7fff_ffff)
      && forall i | 0 <= i < |v.elts| :: if IsScalar(u) then ArrayItemAccepted(u, v.elts[i]) else Accepted(u, v.elts[i])
    case TRange(u) =>
      v.VRange? && Accepted(u, VInt(v.start)) && Accepted(u, VInt(v.stop)) && Accepted(u, VInt(v.step))
    case TKeyword(_) => false
    case TObject => false
  }

  /** No element of a tuple leaves part of its tag to the next one. */
  ghost predicate Unshifted(t: RpcType) {
    match t
    case TTuple(ts) => forall i | 0 <= i < |ts| :: Unshifted(ts[i]) && Consumed(ts[i])
    case TList(u) => Unshifted(u)
    case TArray(_, u) => Unshifted(u)
    case TRange(u) => Unshifted(u)
    case _ => true
  }

  // ----- without parts -----

  ghost predicate HasParts(t: RpcType) {
    t.TTuple? || t.TList? || t.TArray? || t.TRange?
  }

  lemma ScalarIsAccepted(e: Endian, t: RpcType, v: Value)
    requires Taggable(t) && !HasParts(t)
    ensures Scalar(e, Tag(t)[0], v).Packed? <==> Accepted(t, v)
  {
  }

  lemma SendScalarIsAccepted(e: Endian, t: RpcType, v: Value, S: seq<byte>)
    requires Taggable(t) && !HasParts(t)
    ensures Send(e, Tag(t) + S, v).Sent? <==> Accepted(t, v)
  {
    ScalarIsAccepted(e, t, v);
    var tags := Tag(t) + S;
    assert tags[0] == Tag(t)[0] && tags[0] !in {TAG_TUPLE, TAG_LIST, TAG_ARRAY, TAG_RANGE};
  }

  // ----- in bulk -----

  lemma ItemIsAccepted(e: Endian, t: RpcType, v: Value)
    requires IsScalar(t)
    ensures IsBulk(Tag(t)[0])
    ensures ListItem(e, Tag(t)[0], v).Packed? <==> ListItemAccepted(t, v)
    ensures ArrayItem(e, Tag(t)[0], v).Packed? <==> ArrayItemAccepted(t, v)
  {
  }

  ghost predicate ItemAccepted(t: RpcType, v: Value, isArray: bool) {
    if isArray then ArrayItemAccepted(t, v) else ListItemAccepted(t, v)
  }

  lemma {:induction false} BulkIsAccepted(e: Endian, t: RpcType, vs: seq<Value>, isArray: bool)
    requires IsScalar(t)
    ensures IsBulk(Tag(t)[0])
    ensures Bulk(e, Tag(t)[0], vs, isArray).Packed? <==> forall i | 0 <= i < |vs| :: ItemAccepted(t, vs[i], isArray)
  {
    if vs != [] {
      ItemIsAccepted(e, t, vs[0]);
      BulkIsAccepted(e, t, vs[1..], isArray);
      assert forall i | 0 < i < |vs| :: vs[i] == vs[1..][i - 1];
    }
  }

  lemma {:induction false} ShapeIsAccepted(e: Endian, shape: seq<nat>)
    ensures PackShape(e, shape).Packed? <==> forall i | 0 <= i < |shape| :: shape[i] <= 0x7fff_ffff
  {
    if shape != [] {
      ShapeIsAccepted(e, shape[1..]);
      assert forall i | 0 < i < |shape| :: shape[i] == shape[1..][i - 1];
    }
  }

  // ----- with parts -----

  ghost predicate EachAccepted(t: RpcType, vs: seq<Value>) {
    forall i | 0 <= i < |vs| :: Accepted(t, vs[i])
  }

  ghost predicate PartsAccepted(t: RpcType, vs: seq<Value>, isArray: bool) {
    forall i | 0 <= i < |vs| :: if IsScalar(t) then ItemAccepted(t, vs[i], isArray) else Accepted(t, vs[i])
  }

  /** A value is sent if and only if the type accepts it. */
  lemma {:induction false} SentIffAccepted(e: Endian, t: RpcType, v: Value, S: seq<byte>)
    requires Taggable(t) && Unshifted(t)
    ensures Send(e, Tag(t) + S, v).Sent? <==> Accepted(t, v)
    decreases t, 0
  {
    match t
    case TTuple(ts) => TupleIsAccepted(e, ts, v, S);
    case TList(u) => ListIsAccepted(e, u, v, S);
    case TArray(n, u) => ArrayIsAccepted(e, n, u, v, S);
    case TRange(u) => RangeIsAccepted(e, u, v, S);
    case _ => SendScalarIsAccepted(e, t, v, S);
  }

  lemma {:induction false} TupleIsAccepted(e: Endian, ts: seq<RpcType>, v: Value, S: seq<byte>)
    requires Taggable(TTuple(ts)) && Unshifted(TTuple(ts))
    ensures Send(e, Tag(TTuple(ts)) + S, v).Sent? <==> Accepted(TTuple(ts), v)
    decreases ts, 2
  {
    var tags := Tag(TTuple(ts)) + S;
    assert tags[0] == TAG_TUPLE && tags[1..][0] == |ts| && tags[1..][1..] == Tags(ts) + S;
    if v.VTuple? && |v.elts| == |ts| {
      AllAreAccepted(e, ts, v.elts, S);
    }
  }

  lemma {:induction false} AllAreAccepted(e: Endian, ts: seq<RpcType>, vs: seq<Value>, S: seq<byte>)
    requires AllTaggable(ts) && |ts| == |vs| && forall i | 0 <= i < |ts| :: Unshifted(ts[i]) && Consumed(ts[i])
    ensures SendAll(e, Tags(ts) + S, vs).Sent? <==> forall i | 0 <= i < |ts| :: Accepted(ts[i], vs[i])
    decreases ts, 1
  {
    if ts != [] {
      var rest := Tags(ts[1..]) + S;
      HeadTags(ts, S);
      SentIffAccepted(e, ts[0], vs[0], rest);
      if Send(e, Tag(ts[0]) + rest, vs[0]).Sent? {
        SendIsExactIffConsumed(e, ts[0], vs[0], rest);
        AllAreAccepted(e, ts[1..], vs[1..], S);
      }
      assert forall i | 0 < i < |ts| :: ts[i] == ts[1..][i - 1] && vs[i] == vs[1..][i - 1];
    }
  }

  lemma {:induction false} EachIsAccepted(e: Endian, t: RpcType, vs: seq<Value>, S: seq<byte>)
    requires Taggable(t) && Unshifted(t)
    ensures SendEach(e, Tag(t) + S, vs).Packed? <==> EachAccepted(t, vs)
    decreases t, 1 + |vs|
  {
    if vs != [] {
      SentIffAccepted(e, t, vs[0], S);
      EachIsAccepted(e, t, vs[1..], S);
      assert forall i | 0 < i < |vs| :: vs[i] == vs[1..][i - 1];
    }
  }

  lemma {:induction false} PartsAreAccepted(
      e: Endian, header: seq<byte>, t: RpcType, vs: seq<Value>, isArray: bool, S: seq<byte>)
    requires Taggable(t) && Unshifted(t)
    ensures SendParts(e, header, Tag(t) + S, vs, isArray).Sent? <==> PartsAccepted(t, vs, isArray)
    decreases t, 2 + |vs|
  {
    var tags := Tag(t) + S;
    assert tags[0] == Tag(t)[0] && (IsBulk(tags[0]) <==> IsScalar(t));
    TagIsSkipped(t, S);
    if IsScalar(t) {
      BulkIsAccepted(e, t, vs, isArray);
    } else {
      EachIsAccepted(e, t, vs, S);
    }
  }

  lemma TagIsSkipped(t: RpcType, S: seq<byte>)
    requires Taggable(t)
    ensures Skip(Tag(t) + S).Left?
  {
    TagsCons(t, [], S);
    assert [t] + [] == [t] && Tags([]) + S == S;
    var us := SkipHead([t], S);
  }

  // ----- the arms of the sender and of acceptance -----

  lemma SendListArm(e: Endian, u: RpcType, v: Value, S: seq<byte>)
    requires Taggable(u)
    ensures Send(e, Tag(TList(u)) + S, v).Sent? <==>
            && v.VList? && |v.elts| <= 0x7fff_ffff
            && SendParts(e, PackInt32(e, |v.elts|), Tag(u) + S, v.elts, false).Sent?
  {
    var tags := Tag(TList(u)) + S;
    assert tags[0] == TAG_LIST && tags[1..] == Tag(u) + S;
  }

  lemma SendArrayArm(e: Endian, n: byte, u: RpcType, v: Value, S: seq<byte>)
    requires Taggable(u)
    ensures Send(e, Tag(TArray(n, u)) + S, v).Sent? <==>
            && v.VArray? && |v.shape| == n && PackShape(e, v.shape).Packed?
            && SendParts(e, PackShape(e, v.shape).bytes, Tag(u) + S, v.elts, true).Sent?
  {
    var tags := Tag(TArray(n, u)) + S;
    assert tags[0] == TAG_ARRAY && tags[1..][0] == n && tags[1..][1..] == Tag(u) + S;
  }

  ghost function Ends(v: Value): seq<Value>
    requires v.VRange?
  {
    [VInt(v.start), VInt(v.stop), VInt(v.step)]
  }

  lemma SendRangeArm(e: Endian, u: RpcType, v: Value, S: seq<byte>)
    requires Taggable(u)
    ensures Send(e, Tag(TRange(u)) + S, v).Sent? <==> v.VRange? && SendEach(e, Tag(u) + S, Ends(v)).Packed?
  {
    var tags := Tag(TRange(u)) + S;
    assert tags[0] == TAG_RANGE && tags[1..] == Tag(u) + S;
  }

  lemma ListAccepted(u: RpcType, v: Value)
    ensures Accepted(TList(u), v) <==> v.VList? && |v.elts| <= 0x7fff_ffff && PartsAccepted(u, v.elts, false)
  {
  }

  lemma ArrayAccepted(n: byte, u: RpcType, v: Value)
    ensures Accepted(TArray(n, u), v) <==>
            && v.VArray? && |v.shape| == n && (forall i | 0 <= i < |v.shape| :: v.shape[i] <= 0x7fff_ffff)
            && PartsAccepted(u, v.elts, true)
  {
  }

  lemma RangeAccepted(u: RpcType, v: Value)
    ensures Accepted(TRange(u), v) <==> v.VRange? && EachAccepted(u, Ends(v))
  {
    if v.VRange? {
      EachOfThree(u, Ends(v));
    }
  }

  lemma EachOfThree(u: RpcType, vs: seq<Value>)
    requires |vs| == 3
    ensures EachAccepted(u, vs) <==> Accepted(u, vs[0]) && Accepted(u, vs[1]) && Accepted(u, vs[2])
  {
  }

  lemma {:induction false} ListIsAccepted(e: Endian, u: RpcType, v: Value, S: seq<byte>)
    requires Taggable(u) && Unshifted(u)
    ensures Send(e, Tag(TList(u)) + S, v).Sent? <==> Accepted(TList(u), v)
    decreases TList(u), 0, 0
  {
    SendListArm(e, u, v, S);
    ListAccepted(u, v);
    if v.VList? {
      PartsAreAccepted(e, PackInt32(e, |v.elts|), u, v.elts, false, S);
    }
  }

  lemma {:induction false} ArrayIsAccepted(e: Endian, n: byte, u: RpcType, v: Value, S: seq<byte>)
    requires Taggable(u) && Unshifted(u)
    ensures Send(e, Tag(TArray(n, u)) + S, v).Sent? <==> Accepted(TArray(n, u), v)
    decreases TArray(n, u), 0, 0
  {
    SendArrayArm(e, n, u, v, S);
    ArrayAccepted(n, u, v);
    if v.VArray? {
      ShapeIsAccepted(e, v.shape);
      if PackShape(e, v.shape).Packed? {
        PartsAreAccepted(e, PackShape(e, v.shape).bytes, u, v.elts, true, S);
      }
    }
  }

  lemma {:induction false} RangeIsAccepted(e: Endian, u: RpcType, v: Value, S: seq<byte>)
    requires Taggable(u) && Unshifted(u)
    ensures Send(e, Tag(TRange(u)) + S, v).Sent? <==> Accepted(TRange(u), v)
    decreases TRange(u), 0, 0
  {
    SendRangeArm(e, u, v, S);
    RangeAccepted(u, v);
    if v.VRange? {
      EachIsAccepted(e, u, Ends(v), S);
    }
  }
}
