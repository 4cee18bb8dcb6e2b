/**
The wire format of RPC return values: `_send_rpc_value` of artiq/coredevice/comm_kernel.py against a
reference encoding that is directed by the type instead of by its tag.
*/
module RpcWire {
  import opened RpcTags
  import opened Packing

  /** Host values, as far as the sender distinguishes them.  A float is its 64-bit pattern, a
      string its UTF-8 encoding, and an array its shape with the elements in C order. */
  datatype Value =
    | VNone
    | VBool(b: bool)
    | VInt(i: int)
    | VFloat(bits: Word64)
    | VFraction(numerator: int, denominator: int)
    | VStr(utf8: seq<byte>)
    | VBytes(data: seq<byte>)
    | VByteArray(data: seq<byte>)
    | VTuple(elts: seq<Value>)
    | VList(elts: seq<Value>)
    | VArray(shape: seq<nat>, elts: seq<Value>)
    | VRange(start: int, stop: int, step: int)
    | VOther

  datatype SendError = NoTag | TypeMismatch | ValueError | StructError | UnknownTag

  /** The bytes written and the tags left. */
  datatype Sent = Sent(bytes: seq<byte>, tags: seq<byte>) | Failed(error: SendError)

  datatype Packed = Packed(bytes: seq<byte>) | Bad(error: SendError)

  const MAX_LENGTH := 0x7fff_ffff

  /** A Python `bool` is an `int`, too. */
  predicate IsInteger(v: Value) {
    v.VInt? || v.VBool?
  }

  function AsInteger(v: Value): int
    requires IsInteger(v)
  {
    if v.VInt? then v.i else if v.b then 1 else 0
  }

  function Bool(b: bool): seq<byte> {
    if b then [1] else [0]
  }

  /** `_write_bytes`: the length has to fit the signed word it is packed into. */
  function Block(e: Endian, data: seq<byte>): Packed {
    if |data| <= MAX_LENGTH then Packed(PackInt32(e, |data|) + data) else Bad(StructError)
  }

  /** The arms of `_send_rpc_value` for types without parts. */
  function Scalar(e: Endian, tag: byte, v: Value): Packed {
    if tag == TAG_NONE then if v.VNone? then Packed([]) else Bad(TypeMismatch)
    else if tag == TAG_BOOL then if v.VBool? then Packed(Bool(v.b)) else Bad(TypeMismatch)
    else if tag == TAG_INT32 then
      if IsInteger(v) && IsInt32(AsInteger(v)) then Packed(PackInt32(e, AsInteger(v))) else Bad(TypeMismatch)
    else if tag == TAG_INT64 then
      if IsInteger(v) && IsInt64(AsInteger(v)) then Packed(PackInt64(e, AsInteger(v))) else Bad(TypeMismatch)
    else if tag == TAG_FLOAT then if v.VFloat? then Packed(PackNat(e, 8, v.bits)) else Bad(TypeMismatch)
    else if tag == TAG_FRACTION then
      if v.VFraction? && IsInt64(v.numerator) && IsInt64(v.denominator) then
        Packed(PackInt64(e, v.numerator) + PackInt64(e, v.denominator))
      else Bad(TypeMismatch)
    else if tag == TAG_STR then if v.VStr? && 0 !in v.utf8 then Block(e, v.utf8) else Bad(TypeMismatch)
    else if tag == TAG_BYTES then if v.VBytes? then Block(e, v.data) else Bad(TypeMismatch)
    else if tag == TAG_BYTEARRAY then if v.VByteArray? then Block(e, v.data) else Bad(TypeMismatch)
    else Bad(UnknownTag)
  }

  // ----- bulk paths -----

  predicate IsBulk(tag: byte) {
    tag == TAG_BOOL || tag == TAG_INT32 || tag == TAG_INT64 || tag == TAG_FLOAT
  }

  /** One element of `bytes(value)` or of `struct.pack` with a repeat count. */
  function ListItem(e: Endian, tag: byte, v: Value): Packed
    requires IsBulk(tag)
  {
    if tag == TAG_BOOL then
      if IsInteger(v) && 0 <= AsInteger(v) < 256 then Packed([AsInteger(v)]) else Bad(ValueError)
    else if tag == TAG_FLOAT then if v.VFloat? then Packed(PackNat(e, 8, v.bits)) else Bad(StructError)
    else Scalar(e, tag, v)
  }

  /** One element of `astype(...).tobytes()`, which wraps integers around. */
  function ArrayItem(e: Endian, tag: byte, v: Value): Packed
    requires IsBulk(tag)
  {
    if tag == TAG_BOOL then if v.VBool? then Packed(Bool(v.b)) else Bad(ValueError)
    else if tag == TAG_FLOAT then if v.VFloat? then Packed(PackNat(e, 8, v.bits)) else Bad(ValueError)
    else if !IsInteger(v) then Bad(ValueError)
    else if tag == TAG_INT32 then Packed(PackInt32(e, AsInteger(v)))
    else Packed(PackInt64(e, AsInteger(v)))
  }

  function Bulk(e: Endian, tag: byte, vs: seq<Value>, isArray: bool): Packed
    requires IsBulk(tag)
  {
    if vs == [] then Packed([])
    else
      var p := if isArray then ArrayItem(e, tag, vs[0]) else ListItem(e, tag, vs[0]);
      if p.Bad? then p
      else
        var q := Bulk(e, tag, vs[1..], isArray);
        if q.Bad? then q else Packed(p.bytes + q.bytes)
  }

  function PackShape(e: Endian, shape: seq<nat>): Packed {
    if shape == [] then Packed([])
    else if shape[0] > MAX_LENGTH then Bad(StructError)
    else
      var q := PackShape(e, shape[1..]);
      if q.Bad? then q else Packed(PackInt32(e, shape[0]) + q.bytes)
  }

  // ----- sending -----

  /** `_send_rpc_value`. */
  function Send(e: Endian, tags: seq<byte>, v: Value): (r: Sent)
    ensures r.Sent? ==> |r.tags| < |tags|
    decreases |tags|, 0
  {
    if tags == [] then Failed(NoTag)
    else
      var tag, rest := tags[0], tags[1..];
      if tag == TAG_TUPLE then
        if rest == [] then Failed(NoTag)
        else if !v.VTuple? || rest[0] != |v.elts| then Failed(TypeMismatch)
        else SendAll(e, rest[1..], v.elts)
      else if tag == TAG_LIST then
        if !v.VList? then Failed(TypeMismatch)
        else if |v.elts| > MAX_LENGTH then Failed(StructError)
        else SendParts(e, PackInt32(e, |v.elts|), rest, v.elts, false)
      else if tag == TAG_ARRAY then
        if !v.VArray? then Failed(TypeMismatch)
        else if rest == [] then Failed(NoTag)
        else if rest[0] != |v.shape| then Failed(TypeMismatch)
        else
          var p := PackShape(e, v.shape);
          if p.Bad? then Failed(p.error) else SendParts(e, p.bytes, rest[1..], v.elts, true)
      else if tag == TAG_RANGE then
        if !v.VRange? then Failed(TypeMismatch)
        else
          var r := SendEach(e, rest, [VInt(v.start), VInt(v.stop), VInt(v.step)]);
          if r.Bad? then Failed(r.error) else Sent(r.bytes, rest)
      else
        var p := Scalar(e, tag, v);
        if p.Bad? then Failed(p.error) else Sent(p.bytes, rest)
  }

  /** The common end of lists and arrays: the elements in one block or one by one, and then the tag
      of the elements is skipped. */
  function SendParts(e: Endian, header: seq<byte>, tags: seq<byte>, vs: seq<Value>, isArray: bool): (r: Sent)
    ensures r.Sent? ==> |r.tags| < |tags|
    decreases |tags|, 2 + |vs|
  {
    if tags == [] then Failed(NoTag)
    else
      var p := if IsBulk(tags[0]) then Bulk(e, tags[0], vs, isArray) else SendEach(e, tags, vs);
      var left := Skip(tags);
      if p.Bad? then Failed(p.error)
      else if left.IndexError? then Failed(NoTag)
      else Sent(header + p.bytes, left.tags)
  }

  /** The elements of a tuple, which consume the tags one after the other. */
  function SendAll(e: Endian, tags: seq<byte>, vs: seq<Value>): (r: Sent)
    ensures r.Sent? ==> |r.tags| <= |tags|
    decreases |tags|, 1 + |vs|
  {
    if vs == [] then Sent([], tags)
    else
      var r := Send(e, tags, vs[0]);
      if r.Failed? then r
      else
        var q := SendAll(e, r.tags, vs[1..]);
        if q.Failed? then q else Sent(r.bytes + q.bytes, q.tags)
  }

  /** Values that are each sent with a copy of the same tags. */
  function SendEach(e: Endian, tags: seq<byte>, vs: seq<Value>): Packed
    decreases |tags|, 1 + |vs|
  {
    if vs == [] then Packed([])
    else
      var r := Send(e, tags, vs[0]);
      if r.Failed? then Bad(r.error)
      else
        var q := SendEach(e, tags, vs[1..]);
        if q.Bad? then q else Packed(r.bytes + q.bytes)
  }

  // ----- which tags are left -----

  /** The types whose tag is consumed as a whole: no range outside lists and arrays, and no keyword
      inside them. */
  ghost predicate Consumed(t: RpcType) {
    match t
    case TTuple(ts) => forall i | 0 <= i < |ts| :: Consumed(ts[i])
    case TList(e) => KeywordFree(e)
    case TArray(_, e) => KeywordFree(e)
    case TRange(_) => false
    case _ => true
  }

  ghost predicate AllConsumed(ts: seq<RpcType>) {
    forall i | 0 <= i < |ts| :: Consumed(ts[i])
  }

  lemma SentTuple(e: Endian, tags: seq<byte>, v: Value)
    requires Send(e, tags, v).Sent? && tags[0] == TAG_TUPLE
    ensures |tags| >= 2 && v.VTuple? && |v.elts| == tags[1] && Send(e, tags, v) == SendAll(e, tags[2..], v.elts)
  {
    assert |tags| >= 2 ==> tags[1..][1..] == tags[2..];
  }

  lemma SentParts(e: Endian, tags: seq<byte>, v: Value)
    requires Send(e, tags, v).Sent?
    ensures tags[0] == TAG_LIST ==> Skip(tags[1..]) == Left(Send(e, tags, v).tags)
    ensures tags[0] == TAG_ARRAY ==> |tags| >= 2 && Skip(tags[2..]) == Left(Send(e, tags, v).tags)
  {
    assert |tags| >= 2 ==> tags[1..][1..] == tags[2..];
  }

  lemma SentOther(e: Endian, tags: seq<byte>, v: Value)
    requires Send(e, tags, v).Sent? && tags[0] !in {TAG_TUPLE, TAG_LIST, TAG_ARRAY}
    ensures Send(e, tags, v).tags == tags[1..] && tags[0] != TAG_KEYWORD
  {
  }

  lemma FirstByteOther(t: RpcType)
    requires Taggable(t) && !t.TTuple? && !t.TList? && !t.TArray?
    ensures Tag(t)[0] !in {TAG_TUPLE, TAG_LIST, TAG_ARRAY} && (t.TKeyword? ==> Tag(t)[0] == TAG_KEYWORD)
  {
  }

  lemma SendHeadOther(e: Endian, ts: seq<RpcType>, v: Value, S: seq<byte>) returns (us: seq<RpcType>)
    requires AllTaggable(ts) && ts != [] && Send(e, Tags(ts) + S, v).Sent?
    requires !ts[0].TTuple? && !ts[0].TList? && !ts[0].TArray?
    ensures AllTaggable(us) && Send(e, Tags(ts) + S, v).tags == Tags(us) + S && |Tags(us)| < |Tags(ts)|
    ensures if Consumed(ts[0]) then us == ts[1..] else |us| >= |ts|
  {
    OpenedTags(ts, S);
    FirstBytes(ts, S);
    FirstByteOther(ts[0]);
    SentOther(e, Tags(ts) + S, v);
    us := Inner(ts[0]) + ts[1..];
    assert [] + ts[1..] == ts[1..];
  }

  /** Sending one value leaves the tags of some types: those that follow, preceded by what a range
      or a keyword leaves behind. */
  lemma {:induction false} SendHead(e: Endian, ts: seq<RpcType>, v: Value, S: seq<byte>) returns (us: seq<RpcType>)
    requires AllTaggable(ts) && ts != [] && Send(e, Tags(ts) + S, v).Sent?
    ensures AllTaggable(us) && Send(e, Tags(ts) + S, v).tags == Tags(us) + S && |Tags(us)| < |Tags(ts)|
    ensures if Consumed(ts[0]) then us == ts[1..] else |us| >= |ts|
    decreases |Tags(ts)|, 0
  {
    var t := ts[0];
    var inner := Inner(t) + ts[1..];
    OpenedTags(ts, S);
    FirstBytes(ts, S);
    if t.TTuple? {
      SentTuple(e, Tags(ts) + S, v);
      us := SendPending(e, inner, v.elts, S);
      assert inner[..|t.elts|] == t.elts && inner[|t.elts|..] == ts[1..];
    } else if t.TList? || t.TArray? {
      SentParts(e, Tags(ts) + S, v);
      us := SkipHead(inner, S);
      assert inner[1..] == ts[1..];
    } else {
      us := SendHeadOther(e, ts, v, S);
    }
  }

  /** The opening bytes of the first tag. */
  lemma FirstBytes(ts: seq<RpcType>, S: seq<byte>)
    requires AllTaggable(ts) && ts != []
    ensures var tags := Tags(ts) + S;
            && |tags| >= Opening(ts[0]) && tags[0] == Tag(ts[0])[0]
            && (Opening(ts[0]) == 2 ==> tags[1] == Tag(ts[0])[1] && tags[2..] == tags[1..][1..])
  {
    OpenedTags(ts, S);
    var tags, n := Tags(ts) + S, Opening(ts[0]);
    assert tags[..n][0] == tags[0];
    if n == 2 {
      assert tags[..n][1] == tags[1];
    }
  }

  lemma {:induction false} SendPending(e: Endian, ts: seq<RpcType>, vs: seq<Value>, S: seq<byte>)
    returns (us: seq<RpcType>)
    requires AllTaggable(ts) && |vs| <= |ts| && SendAll(e, Tags(ts) + S, vs).Sent?
    ensures AllTaggable(us) && SendAll(e, Tags(ts) + S, vs).tags == Tags(us) + S && |Tags(us)| <= |Tags(ts)|
    ensures if AllConsumed(ts[..|vs|]) then us == ts[|vs|..] else |us| > |ts| - |vs|
    decreases |Tags(ts)|, 1 + |vs|
  {
    var n := |vs|;
    if n == 0 {
      us := ts;
    } else {
      var ws := SendHead(e, ts, vs[0], S);
      us := SendPending(e, ws, vs[1..], S);
      assert AllConsumed(ts[..n]) <==> Consumed(ts[0]) && AllConsumed(ts[1..][..n - 1]) by {
        assert ts[..n][0] == ts[0] && ts[..n][1..] == ts[1..][..n - 1];
      }
    }
  }

  /** A value that could be sent has used up exactly its tag, whatever follows, if and only if the
      type has no range outside lists and arrays and no keyword inside them. */
  lemma SendIsExactIffConsumed(e: Endian, t: RpcType, v: Value, S: seq<byte>)
    requires Taggable(t) && Send(e, Tag(t) + S, v).Sent?
    ensures Send(e, Tag(t) + S, v).tags == S <==> Consumed(t)
  {
    TagsCons(t, [], S);
    assert Tags([]) + S == S && [t] + [] == [t];
    var us := SendHead(e, [t], v, S);
    if !Consumed(t) {
      assert |Tags(us) + S| > |S|;
    }
  }
}
