/**
The sender as it runs: tags popped in place, bytes written to the buffered connection.
*/
module RpcSender {
  import opened RpcTags
  import opened Packing
  import opened RpcWire
  import opened CommKernels

  /** The outcome of a call that has written `bytes` and left `left`. */
  ghost predicate Did(r: Sent, written: seq<byte>, written': seq<byte>, left: seq<byte>) {
    r.Sent? && written' == written + r.bytes && left == r.tags
  }

  /** `_send_rpc_value`. */
  method SendRpcValue(k: CommKernel, e: Endian, tags: TagBuffer, v: Value) returns (ok: bool)
    modifies k`writeBuffer, k`outgoing, tags
    ensures ok <==> Send(e, old(tags.data), v).Sent?
    ensures ok ==> Did(Send(e, old(tags.data), v), old(k.Written()), k.Written(), tags.data)
    decreases |tags.data|, 0
  {
    var tag: byte, n: byte;
    ok, tag := tags.Pop();
    if !ok {
      return;
    }
    assert [tag] + tags.data == old(tags.data);
    if tag == TAG_TUPLE {
      ok, n := tags.Pop();
      if ok && v.VTuple? && n == |v.elts| {
        ok := SendElements(k, e, tags, v.elts);
      } else {
        ok := false;
      }
    } else if tag == TAG_LIST {
      ok := SendListValue(k, e, tags, v);
    } else if tag == TAG_ARRAY {
      ok := SendArrayValue(k, e, tags, v);
    } else if tag == TAG_RANGE {
      if v.VRange? {
        ok := SendCopies(k, e, tags, [VInt(v.start), VInt(v.stop), VInt(v.step)]);
      } else {
        ok := false;
      }
    } else {
      var p := Scalar(e, tag, v);
      ok := p.Packed?;
      if ok {
        k.Write(p.bytes);
      }
    }
  }

  /** The arm for lists, after its tag. */
  method SendListValue(k: CommKernel, e: Endian, tags: TagBuffer, v: Value) returns (ok: bool)
    modifies k`writeBuffer, k`outgoing, tags
    ensures ok <==> Send(e, [TAG_LIST] + old(tags.data), v).Sent?
    ensures ok ==> Did(Send(e, [TAG_LIST] + old(tags.data), v), old(k.Written()), k.Written(), tags.data)
    decreases |tags.data|, 4
  {
    assert ([TAG_LIST] + tags.data)[1..] == tags.data;
    if !v.VList? || |v.elts| > MAX_LENGTH {
      return false;
    }
    ok := SendWithHeader(k, e, tags, v.elts, false, PackInt32(e, |v.elts|));
  }

  lemma ArrayArm(e: Endian, tags: seq<byte>, v: Value)
    ensures Send(e, [TAG_ARRAY] + tags, v).Sent? ==>
              v.VArray? && tags != [] && tags[0] == |v.shape| && PackShape(e, v.shape).Packed?
    ensures v.VArray? && tags != [] && tags[0] == |v.shape| && PackShape(e, v.shape).Packed? ==>
              Send(e, [TAG_ARRAY] + tags, v) == SendParts(e, PackShape(e, v.shape).bytes, tags[1..], v.elts, true)
  {
    assert ([TAG_ARRAY] + tags)[1..] == tags;
  }

  /** The arm for arrays, after its tag. */
  method SendArrayValue(k: CommKernel, e: Endian, tags: TagBuffer, v: Value) returns (ok: bool)
    modifies k`writeBuffer, k`outgoing, tags
    ensures ok <==> Send(e, [TAG_ARRAY] + old(tags.data), v).Sent?
    ensures ok ==> Did(Send(e, [TAG_ARRAY] + old(tags.data), v), old(k.Written()), k.Written(), tags.data)
    decreases |tags.data|, 4
  {
    var n: byte;
    ArrayArm(e, tags.data, v);
    if !v.VArray? {
      return false;
    }
    ok, n := tags.Pop();
    if !ok || n != |v.shape| {
      return false;
    }
    var p := PackShape(e, v.shape);
    if p.Bad? {
      return false;
    }
    ok := SendWithHeader(k, e, tags, v.elts, true, p.bytes);
  }

  /** The part `q` of a result that is still to come after `done` was written. */
  ghost predicate Continues(whole: Sent, done: seq<byte>, q: Sent) {
    && (whole.Sent? <==> q.Sent?)
    && (q.Sent? ==> whole.bytes == done + q.bytes && whole.tags == q.tags)
  }

  ghost predicate ContinuesPacked(whole: Packed, done: seq<byte>, q: Packed) {
    && (whole.Packed? <==> q.Packed?)
    && (q.Packed? ==> whole.bytes == done + q.bytes)
  }

  lemma NextElement(e: Endian, tags: seq<byte>, vs: seq<Value>, i: nat, whole: Sent, done: seq<byte>)
    requires i < |vs| && Continues(whole, done, SendAll(e, tags, vs[i..]))
    ensures match Send(e, tags, vs[i])
            case Failed(_) => whole.Failed?
            case Sent(bytes, left) => Continues(whole, done + bytes, SendAll(e, left, vs[i + 1..]))
  {
    assert vs[i..][0] == vs[i] && vs[i..][1..] == vs[i + 1..];
    match Send(e, tags, vs[i])
    case Failed(_) =>
    case Sent(bytes, left) =>
      var q := SendAll(e, left, vs[i + 1..]);
      if q.Sent? {
        Associates(done, bytes, q.bytes);
      }
  }

  lemma NextCopy(e: Endian, tags: seq<byte>, vs: seq<Value>, i: nat, whole: Packed, done: seq<byte>)
    requires i < |vs| && ContinuesPacked(whole, done, SendEach(e, tags, vs[i..]))
    ensures match Send(e, tags, vs[i])
            case Failed(_) => whole.Bad?
            case Sent(bytes, _) => ContinuesPacked(whole, done + bytes, SendEach(e, tags, vs[i + 1..]))
  {
    assert vs[i..][0] == vs[i] && vs[i..][1..] == vs[i + 1..];
    match Send(e, tags, vs[i])
    case Failed(_) =>
    case Sent(bytes, _) =>
      var q := SendEach(e, tags, vs[i + 1..]);
      if q.Packed? {
        Associates(done, bytes, q.bytes);
      }
  }

  /** The loop over the elements of a tuple. */
  method SendElements(k: CommKernel, e: Endian, tags: TagBuffer, vs: seq<Value>) returns (ok: bool)
    modifies k`writeBuffer, k`outgoing, tags
    ensures ok <==> SendAll(e, old(tags.data), vs).Sent?
    ensures ok ==> Did(SendAll(e, old(tags.data), vs), old(k.Written()), k.Written(), tags.data)
    decreases |tags.data|, 1
  {
    ghost var whole := SendAll(e, tags.data, vs);
    ghost var done: seq<byte> := [];
    ok := true;
    for i := 0 to |vs|
      invariant ok && |tags.data| <= |old(tags.data)| && k.Written() == old(k.Written()) + done
      invariant Continues(whole, done, SendAll(e, tags.data, vs[i..]))
    {
      ghost var r := Send(e, tags.data, vs[i]);
      NextElement(e, tags.data, vs, i, whole, done);
      Associates(old(k.Written()), done, if r.Sent? then r.bytes else []);
      ok := SendRpcValue(k, e, tags, vs[i]);
      if !ok {
        return;
      }
      done := done + r.bytes;
    }
  }

  /** The loop over values that each get a copy of the tags. */
  method SendCopies(k: CommKernel, e: Endian, tags: TagBuffer, vs: seq<Value>) returns (ok: bool)
    modifies k`writeBuffer, k`outgoing
    ensures ok <==> SendEach(e, tags.data, vs).Packed?
    ensures ok ==> k.Written() == old(k.Written()) + SendEach(e, tags.data, vs).bytes
    decreases |tags.data|, 1
  {
    ghost var whole := SendEach(e, tags.data, vs);
    ghost var done: seq<byte> := [];
    ok := true;
    for i := 0 to |vs|
      invariant ok && k.Written() == old(k.Written()) + done
      invariant ContinuesPacked(whole, done, SendEach(e, tags.data, vs[i..]))
    {
      ghost var r := Send(e, tags.data, vs[i]);
      NextCopy(e, tags.data, vs, i, whole, done);
      Associates(old(k.Written()), done, if r.Sent? then r.bytes else []);
      var copied := new TagBuffer(tags.data);
      ok := SendRpcValue(k, e, copied, vs[i]);
      if !ok {
        return;
      }
      done := done + r.bytes;
    }
  }

  /** A list or an array: its length or its shape, and then the elements. */
  method SendWithHeader(k: CommKernel, e: Endian, tags: TagBuffer, vs: seq<Value>, isArray: bool, header: seq<byte>)
    returns (ok: bool)
    modifies k`writeBuffer, k`outgoing, tags
    ensures ok <==> SendParts(e, header, old(tags.data), vs, isArray).Sent?
    ensures ok ==> Did(SendParts(e, header, old(tags.data), vs, isArray), old(k.Written()), k.Written(), tags.data)
    decreases |tags.data|, 3
  {
    k.Write(header);
    ok := SendPartsOf(k, e, tags, vs, isArray, header);
  }

  /** The elements of a list or an array, after its `header`. */
  method SendPartsOf(k: CommKernel, e: Endian, tags: TagBuffer, vs: seq<Value>, isArray: bool, ghost header: seq<byte>)
    returns (ok: bool)
    modifies k`writeBuffer, k`outgoing, tags
    ensures ok <==> SendParts(e, header, old(tags.data), vs, isArray).Sent?
    ensures ok ==>
              var r := SendParts(e, header, old(tags.data), vs, isArray);
              && r.bytes == header + r.bytes[|header|..]
              && k.Written() == old(k.Written()) + r.bytes[|header|..] && tags.data == r.tags
    decreases |tags.data|, 2
  {
    if tags.data == [] {
      return false;
    }
    if IsBulk(tags.data[0]) {
      var p := Bulk(e, tags.data[0], vs, isArray);
      if p.Bad? {
        return false;
      }
      k.Write(p.bytes);
    } else {
      ok := SendCopies(k, e, tags, vs);
      if !ok {
        return;
      }
    }
    ok := SkipRpcValue(tags);
  }
}
