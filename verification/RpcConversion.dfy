/**
What the sender makes of the accepted values that are not exactly of the type: booleans where integers
are expected, integers in lists of booleans, and integers of any size in integer arrays.
*/
module RpcConversion {
  import opened RpcTags
  import opened Packing
  import opened RpcWire
  import opened RpcEncoding
  import opened RpcAcceptance

  // ----- the conversion -----

  /** Two's complement of a width given by its number of values. */
  function Wrapped(i: int, size: int): (w: int)
    requires size > 0
    ensures -size <= 2 * w < size && w % size == i % size
  {
    var u := i % size;
    ModuloTwice(i, size);
    if 2 * u < size then u else ModuloOfNegative(u, size); u - size
  }

  lemma ModuloTwice(i: int, size: int)
    requires size > 0
    ensures (i % size) % size == i % size
  {
  }

  lemma ModuloOfNegative(u: int, size: int)
    requires 0 <= u < size
    ensures (u - size) % size == u
  {
    assert (u - size) / size == -1;
  }

  ghost function IntegerOf(v: Value): Value {
    match v
    case VBool(true) => VInt(1)
    case VBool(false) => VInt(0)
    case _ => v
  }

  ghost function ListItemOf(t: RpcType, v: Value): Value {
    if !t.TBool? then IntegerOf(v)
    else if v == VInt(0) then VBool(false)
    else if v == VInt(1) then VBool(true)
    else v
  }

  ghost function ArrayItemOf(t: RpcType, v: Value): Value {
    var w := IntegerOf(v);
    if t.TInt32? && w.VInt? then VInt(Wrapped(w.i, TWO_32))
    else if t.TInt64? && w.VInt? then VInt(Wrapped(w.i, TWO_64))
    else v
  }

  ghost function PartOf(t: RpcType, v: Value, isArray: bool): Value
    decreases t, 1
  {
    if !IsScalar(t) then Converted(t, v)
    else if t.TFloat? then v
    else if isArray then ArrayItemOf(t, v)
    else ListItemOf(t, v)
  }

  /** The value of the type that an accepted value stands for. */
  ghost function Converted(t: RpcType, v: Value): Value
    decreases t, 0
  {
    match t
    case TInt32 => IntegerOf(v)
    case TInt64 => IntegerOf(v)
    case TTuple(ts) =>
      if v.VTuple? && |v.elts| == |ts| then
        VTuple(seq(|ts|, i requires 0 <= i < |ts| => Converted(ts[i], v.elts[i])))
      else v
    case TList(u) =>
      if v.VList? then
        VList(seq(|v.elts|, i requires 0 <= i < |v.elts| => PartOf(u, v.elts[i], false)))
      else v
    case TArray(_, u) =>
      if v.VArray? then
        VArray(v.shape, seq(|v.elts|, i requires 0 <= i < |v.elts| => PartOf(u, v.elts[i], true)))
      else v
    case _ => v
  }

  // ----- it is sent alike -----

  lemma ItemConverts(e: Endian, t: RpcType, v: Value, isArray: bool)
    requires IsScalar(t)
    ensures IsBulk(Tag(t)[0])
    ensures isArray && ArrayItemAccepted(t, v) ==>
              ArrayItem(e, Tag(t)[0], PartOf(t, v, true)) == ArrayItem(e, Tag(t)[0], v)
    ensures !isArray ==> ListItem(e, Tag(t)[0], PartOf(t, v, false)) == ListItem(e, Tag(t)[0], v)
  {
  }

  lemma {:induction false} BulkConverts(e: Endian, t: RpcType, vs: seq<Value>, ws: seq<Value>, isArray: bool)
    requires IsScalar(t) && |ws| == |vs| && forall i | 0 <= i < |vs| :: ws[i] == PartOf(t, vs[i], isArray)
    requires forall i | 0 <= i < |vs| :: ItemAccepted(t, vs[i], isArray)
    ensures IsBulk(Tag(t)[0]) && Bulk(e, Tag(t)[0], ws, isArray) == Bulk(e, Tag(t)[0], vs, isArray)
  {
    if vs != [] {
      ItemConverts(e, t, vs[0], isArray);
      BulkConverts(e, t, vs[1..], ws[1..], isArray);
    }
  }

  /** What the elements of a converted tuple, list or array are. */
  ghost predicate AllConverted(ts: seq<RpcType>, vs: seq<Value>, ws: seq<Value>) {
    |ts| == |vs| == |ws| && forall i | 0 <= i < |ts| :: ws[i] == Converted(ts[i], vs[i])
  }

  ghost predicate EachConverted(t: RpcType, vs: seq<Value>, ws: seq<Value>) {
    |vs| == |ws| && forall i | 0 <= i < |vs| :: ws[i] == Converted(t, vs[i])
  }

  ghost predicate PartsConverted(t: RpcType, vs: seq<Value>, ws: seq<Value>, isArray: bool) {
    |vs| == |ws| && forall i | 0 <= i < |vs| :: ws[i] == PartOf(t, vs[i], isArray)
  }

  /** An accepted value is sent as the value that it is converted to. */
  lemma {:induction false} SentAsConverted(e: Endian, t: RpcType, v: Value, S: seq<byte>)
    requires Taggable(t) && Unshifted(t) && Accepted(t, v)
    ensures Send(e, Tag(t) + S, v) == Send(e, Tag(t) + S, Converted(t, v))
    decreases t, 0
  {
    match t
    case TTuple(ts) => TupleConverts(e, ts, v, S);
    case TList(u) => ListConverts(e, u, v, S);
    case TArray(n, u) => ArrayConverts(e, n, u, v, S);
    case TRange(_) =>
    case _ => ScalarConverts(e, t, v, S);
  }

  lemma ScalarConverts(e: Endian, t: RpcType, v: Value, S: seq<byte>)
    requires Taggable(t) && !HasParts(t)
    ensures Send(e, Tag(t) + S, v) == Send(e, Tag(t) + S, Converted(t, v))
  {
    var tags := Tag(t) + S;
    assert tags[0] == Tag(t)[0] && tags[0] !in {TAG_TUPLE, TAG_LIST, TAG_ARRAY, TAG_RANGE};
    assert Scalar(e, Tag(t)[0], Converted(t, v)) == Scalar(e, Tag(t)[0], v);
  }

  lemma {:induction false} TupleConverts(e: Endian, ts: seq<RpcType>, v: Value, S: seq<byte>)
    requires Taggable(TTuple(ts)) && Unshifted(TTuple(ts)) && Accepted(TTuple(ts), v)
    ensures Send(e, Tag(TTuple(ts)) + S, v) == Send(e, Tag(TTuple(ts)) + S, Converted(TTuple(ts), v))
    decreases ts, 2
  {
    var w := Converted(TTuple(ts), v);
    AllConvert(e, ts, v.elts, w.elts, S);
    Associates([TAG_TUPLE, |ts|], Tags(ts), S);
    SendTuple(e, |ts|, Tags(ts) + S, v);
    SendTuple(e, |ts|, Tags(ts) + S, w);
  }

  lemma {:induction false} AllConvert(e: Endian, ts: seq<RpcType>, vs: seq<Value>, ws: seq<Value>, S: seq<byte>)
    requires AllTaggable(ts) && AllConverted(ts, vs, ws)
    requires forall i | 0 <= i < |ts| :: Unshifted(ts[i]) && Consumed(ts[i]) && Accepted(ts[i], vs[i])
    ensures SendAll(e, Tags(ts) + S, vs) == SendAll(e, Tags(ts) + S, ws)
    decreases ts, 1
  {
    if ts != [] {
      var rest := Tags(ts[1..]) + S;
      HeadTags(ts, S);
      SentAsConverted(e, ts[0], vs[0], rest);
      SentIffAccepted(e, ts[0], vs[0], rest);
      SendIsExactIffConsumed(e, ts[0], vs[0], rest);
      AllConvert(e, ts[1..], vs[1..], ws[1..], S);
    }
  }

  lemma {:induction false} EachConverts(e: Endian, t: RpcType, vs: seq<Value>, ws: seq<Value>, S: seq<byte>)
    requires Taggable(t) && Unshifted(t) && EachAccepted(t, vs) && EachConverted(t, vs, ws)
    ensures SendEach(e, Tag(t) + S, vs) == SendEach(e, Tag(t) + S, ws)
    decreases t, 1 + |vs|
  {
    if vs != [] {
      SentAsConverted(e, t, vs[0], S);
      EachConverts(e, t, vs[1..], ws[1..], S);
    }
  }

  lemma {:induction false} PartsConvert(
      e: Endian, header: seq<byte>, t: RpcType, vs: seq<Value>, ws: seq<Value>, isArray: bool, S: seq<byte>)
    requires Taggable(t) && Unshifted(t) && PartsAccepted(t, vs, isArray) && PartsConverted(t, vs, ws, isArray)
    ensures SendParts(e, header, Tag(t) + S, vs, isArray) == SendParts(e, header, Tag(t) + S, ws, isArray)
    decreases t, 2 + |vs|
  {
    OnlyScalarsAreBulk(t, S);
    if IsScalar(t) {
      BulkConverts(e, t, vs, ws, isArray);
    } else {
      EachConverts(e, t, vs, ws, S);
    }
  }

  lemma {:induction false} ListConverts(e: Endian, u: RpcType, v: Value, S: seq<byte>)
    requires Taggable(u) && Unshifted(u) && Accepted(TList(u), v)
    ensures Send(e, Tag(TList(u)) + S, v) == Send(e, Tag(TList(u)) + S, Converted(TList(u), v))
    decreases TList(u), 0, 0
  {
    var w := Converted(TList(u), v);
    ListAccepted(u, v);
    PartsConvert(e, PackInt32(e, |v.elts|), u, v.elts, w.elts, false, S);
    Associates([TAG_LIST], Tag(u), S);
    SendList(e, Tag(u) + S, v);
    SendList(e, Tag(u) + S, w);
  }

  lemma {:induction false} ArrayConverts(e: Endian, n: byte, u: RpcType, v: Value, S: seq<byte>)
    requires Taggable(u) && Unshifted(u) && Accepted(TArray(n, u), v)
    ensures Send(e, Tag(TArray(n, u)) + S, v) == Send(e, Tag(TArray(n, u)) + S, Converted(TArray(n, u), v))
    decreases TArray(n, u), 0, 0
  {
    var w := Converted(TArray(n, u), v);
    ArrayAccepted(n, u, v);
    ShapeIsAccepted(e, v.shape);
    PartsConvert(e, PackShape(e, v.shape).bytes, u, v.elts, w.elts, true, S);
    Associates([TAG_ARRAY, n], Tag(u), S);
    SendArray(e, n, Tag(u) + S, v);
    SendArray(e, n, Tag(u) + S, w);
  }

  // ----- it is of the type -----

  /** No byte other than 0 and 1 among the booleans of a list, and arrays as large as their shape. */
  ghost predicate Representable(t: RpcType, v: Value) {
    match t
    case TTuple(ts) =>
      v.VTuple? && |v.elts| == |ts| ==> forall i | 0 <= i < |ts| :: Representable(ts[i], v.elts[i])
    case TList(u) =>
      v.VList? ==>
        forall i | 0 <= i < |v.elts| ::
          if u.TBool? then v.elts[i].VInt? ==> v.elts[i].i <= 1 else Representable(u, v.elts[i])
    case TArray(_, u) =>
      v.VArray? ==>
        |v.elts| == Product(v.shape) && forall i | 0 <= i < |v.elts| :: Representable(u, v.elts[i])
    case _ => true
  }

  lemma {:induction false} ConvertedIsTyped(t: RpcType, v: Value)
    requires Accepted(t, v) && Representable(t, v)
    ensures WellTyped(t, Converted(t, v))
    decreases t
  {
    var w := Converted(t, v);
    match t
    case TTuple(ts) =>
      forall i | 0 <= i < |ts| ensures WellTyped(ts[i], w.elts[i]) {
        ConvertedIsTyped(ts[i], v.elts[i]);
      }
    case TList(u) =>
      forall i | 0 <= i < |v.elts| ensures WellTyped(u, w.elts[i]) {
        if IsScalar(u) {
          ItemIsTyped(u, v.elts[i], false);
        } else {
          ConvertedIsTyped(u, v.elts[i]);
        }
      }
    case TArray(n, u) =>
      forall i | 0 <= i < |v.elts| ensures WellTyped(u, w.elts[i]) {
        if IsScalar(u) {
          ItemIsTyped(u, v.elts[i], true);
        } else {
          ConvertedIsTyped(u, v.elts[i]);
        }
      }
    case TRange(u) => RangeIsTyped(u, v);
    case _ =>
  }

  lemma ItemIsTyped(t: RpcType, v: Value, isArray: bool)
    requires IsScalar(t) && ItemAccepted(t, v, isArray) && (t.TBool? && v.VInt? ==> v.i <= 1)
    ensures WellTyped(t, PartOf(t, v, isArray))
  {
  }

  lemma {:induction false} IntegerIsTyped(t: RpcType, i: int)
    requires Accepted(t, VInt(i))
    ensures WellTyped(t, VInt(i))
  {
  }

  lemma RangeIsTyped(u: RpcType, v: Value)
    requires Accepted(TRange(u), v)
    ensures WellTyped(TRange(u), v)
  {
    IntegerIsTyped(u, v.start);
    IntegerIsTyped(u, v.stop);
    IntegerIsTyped(u, v.step);
  }

  lemma {:induction false} SendableIsUnshifted(t: RpcType)
    requires Sendable(t)
    ensures Unshifted(t)
  {
    match t
    case TTuple(ts) =>
      forall i | 0 <= i < |ts| ensures Unshifted(ts[i]) && Consumed(ts[i]) {
        SendableIsUnshifted(ts[i]);
        SendableHasNoKeyword(ts[i]);
      }
    case TList(u) => SendableIsUnshifted(u);
    case TArray(_, u) => SendableIsUnshifted(u);
    case TRange(u) => SendableIsUnshifted(u);
    case _ =>
  }

  /** What the device receives for an accepted value, and that everything else is refused. */
  lemma AcceptedIsEncoded(e: Endian, t: RpcType, v: Value, S: seq<byte>)
    requires Taggable(t) && Sendable(t) && Representable(t, v)
    ensures Send(e, Tag(t) + S, v).Sent? <==> Accepted(t, v)
    ensures Accepted(t, v) ==>
              && WellTyped(t, Converted(t, v))
              && Send(e, Tag(t) + S, v).bytes == Encode(e, t, Converted(t, v))
              && (!t.TRange? ==> Send(e, Tag(t) + S, v).tags == S)
  {
    SendableIsUnshifted(t);
    SentIffAccepted(e, t, v, S);
    if Accepted(t, v) {
      SentAsConverted(e, t, v, S);
      ConvertedIsTyped(t, v);
      SendEncodes(e, t, Converted(t, v), S);
    }
  }
}
