/**
RPC type tags: how `rpc_tag` (artiq/compiler/ir.py) writes them and `_skip_rpc_value`
(artiq/coredevice/comm_kernel.py) passes over them.
*/
module RpcTags {

  type byte = b: int | 0 <= b < 256

  const TAG_TUPLE: byte := 116      // t
  const TAG_NONE: byte := 110       // n
  const TAG_BOOL: byte := 98        // b
  const TAG_INT32: byte := 105      // i
  const TAG_INT64: byte := 73       // I
  const TAG_FLOAT: byte := 102      // f
  const TAG_FRACTION: byte := 70    // F
  const TAG_STR: byte := 115        // s
  const TAG_BYTES: byte := 66       // B
  const TAG_BYTEARRAY: byte := 65   // A
  const TAG_LIST: byte := 108       // l
  const TAG_ARRAY: byte := 97       // a
  const TAG_RANGE: byte := 114      // r
  const TAG_KEYWORD: byte := 107    // k
  const TAG_OBJECT: byte := 79      // O

  /** The types that have a tag.  The number of elements and of dimensions fits a byte: the code
      asserts the one and fails to build the byte for the other. */
  datatype RpcType =
    | TTuple(elts: seq<RpcType>)
    | TNone | TBool | TInt32 | TInt64 | TFloat | TStr | TBytes | TByteArray
    | TList(elt: RpcType)
    | TArray(dims: byte, elt: RpcType)
    | TRange(elt: RpcType)
    | TKeyword(value: RpcType)
    | TObject

  ghost predicate Taggable(t: RpcType) {
    match t
    case TTuple(ts) => |ts| < 256 && forall i | 0 <= i < |ts| :: Taggable(ts[i])
    case TList(e) => Taggable(e)
    case TArray(_, e) => Taggable(e)
    case TRange(e) => Taggable(e)
    case TKeyword(e) => Taggable(e)
    case _ => true
  }

  ghost predicate AllTaggable(ts: seq<RpcType>) {
    forall i | 0 <= i < |ts| :: Taggable(ts[i])
  }

  /** `rpc_tag`. */
  function Tag(t: RpcType): (s: seq<byte>)
    requires Taggable(t)
    ensures |s| >= 1
    decreases t, 0
  {
    match t
    case TTuple(ts) => [TAG_TUPLE, |ts|] + Tags(ts)
    case TNone => [TAG_NONE]
    case TBool => [TAG_BOOL]
    case TInt32 => [TAG_INT32]
    case TInt64 => [TAG_INT64]
    case TFloat => [TAG_FLOAT]
    case TStr => [TAG_STR]
    case TBytes => [TAG_BYTES]
    case TByteArray => [TAG_BYTEARRAY]
    case TList(e) => [TAG_LIST] + Tag(e)
    case TArray(n, e) => [TAG_ARRAY, n] + Tag(e)
    case TRange(e) => [TAG_RANGE] + Tag(e)
    case TKeyword(e) => [TAG_KEYWORD] + Tag(e)
    case TObject => [TAG_OBJECT]
  }

  function Tags(ts: seq<RpcType>): (s: seq<byte>)
    requires AllTaggable(ts)
    ensures |s| >= |ts|
    decreases ts, 1
  {
    if ts == [] then [] else Tag(ts[0]) + Tags(ts[1..])
  }

  // ----- skipping -----

  datatype Popped = Left(tags: seq<byte>) | IndexError

  /** `_skip_rpc_value`, which pops from the front of the tags. */
  function Skip(tags: seq<byte>): (p: Popped)
    ensures p.Left? ==> |p.tags| < |tags|
    decreases |tags|, 0
  {
    if tags == [] then IndexError
    else if tags[0] == TAG_TUPLE then
      if |tags| == 1 then IndexError else SkipMany(tags[1], tags[2..])
    else if tags[0] == TAG_LIST || tags[0] == TAG_RANGE then Skip(tags[1..])
    else if tags[0] == TAG_ARRAY then
      if |tags| == 1 then IndexError else Skip(tags[2..])
    else Left(tags[1..])
  }

  function SkipMany(n: nat, tags: seq<byte>): (p: Popped)
    ensures p.Left? ==> |p.tags| <= |tags|
    decreases |tags|, 1 + n
  {
    if n == 0 then Left(tags)
    else
      var p := Skip(tags);
      if p.Left? then SkipMany(n - 1, p.tags) else p
  }

  /** A `bytearray` of tags, consumed in place. */
  class TagBuffer {
    var data: seq<byte>

    constructor (d: seq<byte>)
      ensures data == d
    {
      data := d;
    }

    method Pop() returns (ok: bool, b: byte)
      modifies this
      ensures ok <==> old(data) != []
      ensures if ok then b == old(data)[0] && data == old(data)[1..] else data == old(data)
    {
      ok, b := data != [], 0;
      if ok {
        b, data := data[0], data[1..];
      }
    }
  }

  method SkipRpcValue(tags: TagBuffer) returns (ok: bool)
    modifies tags
    ensures ok <==> Skip(old(tags.data)).Left?
    ensures ok ==> tags.data == Skip(old(tags.data)).tags
    decreases |tags.data|
  {
    var tag: byte, n: byte;
    ok, tag := tags.Pop();
    if !ok {
      return;
    }
    if tag == TAG_TUPLE {
      ok, n := tags.Pop();
      if !ok {
        return;
      }
      ghost var rest := tags.data;
      for i := 0 to n
        invariant ok && |tags.data| <= |rest|
        invariant SkipMany(n, rest) == SkipMany(n - i, tags.data)
      {
        ok := SkipRpcValue(tags);
        if !ok {
          return;
        }
      }
    } else if tag == TAG_LIST || tag == TAG_RANGE {
      ok := SkipRpcValue(tags);
    } else if tag == TAG_ARRAY {
      ok, n := tags.Pop();
      if ok {
        ok := SkipRpcValue(tags);
      }
    }
  }

  // ----- skipping undoes tagging -----

  ghost predicate KeywordFree(t: RpcType) {
    match t
    case TTuple(ts) => forall i | 0 <= i < |ts| :: KeywordFree(ts[i])
    case TList(e) => KeywordFree(e)
    case TArray(_, e) => KeywordFree(e)
    case TRange(e) => KeywordFree(e)
    case TKeyword(_) => false
    case _ => true
  }

  ghost predicate AllKeywordFree(ts: seq<RpcType>) {
    forall i | 0 <= i < |ts| :: KeywordFree(ts[i])
  }

  lemma {:induction false} TagsConcat(ts: seq<RpcType>, us: seq<RpcType>)
    requires AllTaggable(ts) && AllTaggable(us)
    ensures AllTaggable(ts + us) && Tags(ts + us) == Tags(ts) + Tags(us)
  {
    if ts == [] {
      assert ts + us == us;
    } else {
      TagsConcat(ts[1..], us);
      var all := ts + us;
      assert all[0] == ts[0] && all[1..] == ts[1..] + us;
      assert Tags(all) == Tag(ts[0]) + (Tags(ts[1..]) + Tags(us));
      Associates(Tag(ts[0]), Tags(ts[1..]), Tags(us));
    }
  }

  lemma TagsCons(t: RpcType, ts: seq<RpcType>, S: seq<byte>)
    requires Taggable(t) && AllTaggable(ts)
    ensures AllTaggable([t] + ts) && Tags([t] + ts) + S == Tag(t) + (Tags(ts) + S)
  {
    assert ([t] + ts)[1..] == ts;
    assert Tag(t) + Tags(ts) + S == Tag(t) + (Tags(ts) + S);
  }

  /** The tags of a list of types, with the tag of the first one opened up. */
  lemma HeadTags(ts: seq<RpcType>, S: seq<byte>)
    requires AllTaggable(ts) && ts != []
    ensures Tags(ts) + S == Tag(ts[0]) + (Tags(ts[1..]) + S)
  {
    assert [ts[0]] + ts[1..] == ts;
    TagsCons(ts[0], ts[1..], S);
  }

  /** The types whose tags are inside the first tag, and how many bytes that tag opens with. */
  ghost function Inner(t: RpcType): seq<RpcType> {
    match t
    case TTuple(ts) => ts
    case TList(e) => [e]
    case TArray(_, e) => [e]
    case TRange(e) => [e]
    case TKeyword(e) => [e]
    case _ => []
  }

  ghost function Opening(t: RpcType): nat {
    if t.TTuple? || t.TArray? then 2 else 1
  }

  lemma InnerTags(t: RpcType)
    requires Taggable(t)
    ensures AllTaggable(Inner(t)) && |Tag(t)| >= Opening(t) && Tag(t)[Opening(t)..] == Tags(Inner(t))
  {
    if |Inner(t)| == 1 {
      assert Tags(Inner(t)) == Tag(Inner(t)[0]) + [];
    }
  }

  /** After the opening bytes of the first tag, the tags of the inner types and of the rest follow. */
  lemma OpenedTags(ts: seq<RpcType>, S: seq<byte>)
    requires AllTaggable(ts) && ts != []
    ensures var t, us := ts[0], Inner(ts[0]) + ts[1..];
            && AllTaggable(us) && |Tags(us)| + Opening(t) == |Tags(ts)|
            && (Tags(ts) + S)[Opening(t)..] == Tags(us) + S
            && (Tags(ts) + S)[..Opening(t)] == Tag(t)[..Opening(t)]
  {
    var t := ts[0];
    HeadTags(ts, S);
    InnerTags(t);
    TagsConcat(Inner(t), ts[1..]);
    Split(Tag(t), Tags(ts[1..]) + S, Opening(t));
    Associates(Tags(Inner(t)), Tags(ts[1..]), S);
  }

  lemma Split<T>(xs: seq<T>, ys: seq<T>, n: nat)
    requires n <= |xs|
    ensures (xs + ys)[n..] == xs[n..] + ys && (xs + ys)[..n] == xs[..n]
  {
  }

  lemma Associates<T>(xs: seq<T>, ys: seq<T>, zs: seq<T>)
    ensures xs + ys + zs == xs + (ys + zs)
  {
  }

  /** Skipping one value leaves the tags of some types: those that follow, preceded by what a
      keyword inside the first type hides. */
  lemma {:induction false} SkipHead(ts: seq<RpcType>, S: seq<byte>) returns (us: seq<RpcType>)
    requires AllTaggable(ts) && ts != []
    ensures AllTaggable(us) && Skip(Tags(ts) + S) == Left(Tags(us) + S) && |Tags(us)| < |Tags(ts)|
    ensures if KeywordFree(ts[0]) then us == ts[1..] else |us| >= |ts|
    decreases |Tags(ts)|, 0
  {
    var inner := Inner(ts[0]) + ts[1..];
    OpenedTags(ts, S);
    SkipOpens(ts, S);
    match ts[0]
    case TTuple(es) =>
      us := SkipPending(|es|, inner, S);
      assert inner[..|es|] == es && inner[|es|..] == ts[1..];
    case TList(_) =>
      us := SkipHead(inner, S);
      assert inner[1..] == ts[1..];
    case TRange(_) =>
      us := SkipHead(inner, S);
      assert inner[1..] == ts[1..];
    case TArray(_, _) =>
      us := SkipHead(inner, S);
      assert inner[1..] == ts[1..];
    case _ =>
      us := inner;
  }

  /** Skipping goes on with the inner types after the opening bytes of a tag. */
  lemma SkipOpens(ts: seq<RpcType>, S: seq<byte>)
    requires AllTaggable(ts) && ts != [] && AllTaggable(Inner(ts[0]) + ts[1..])
    ensures
      var inner := Tags(Inner(ts[0]) + ts[1..]) + S;
      match ts[0]
      case TTuple(es) => Skip(Tags(ts) + S) == SkipMany(|es|, inner)
      case TList(_) => Skip(Tags(ts) + S) == Skip(inner)
      case TRange(_) => Skip(Tags(ts) + S) == Skip(inner)
      case TArray(_, _) => Skip(Tags(ts) + S) == Skip(inner)
      case _ => Skip(Tags(ts) + S) == Left(inner)
  {
    var t := ts[0];
    var tags := Tags(ts) + S;
    OpenedTags(ts, S);
    assert tags[0] == Tag(t)[0] by {
      assert tags[..Opening(t)][0] == tags[0];
    }
    if t.TTuple? {
      assert tags[1] == Tag(t)[1] by {
        assert tags[..2][1] == tags[1];
      }
      assert tags[1..][1..] == tags[2..];
    } else if t.TArray? {
      assert tags[1..][1..] == tags[2..];
    }
  }

  lemma {:induction false} SkipPending(n: nat, ts: seq<RpcType>, S: seq<byte>) returns (us: seq<RpcType>)
    requires AllTaggable(ts) && n <= |ts|
    ensures AllTaggable(us) && SkipMany(n, Tags(ts) + S) == Left(Tags(us) + S) && |Tags(us)| <= |Tags(ts)|
    ensures if AllKeywordFree(ts[..n]) then us == ts[n..] else |us| > |ts| - n
    decreases |Tags(ts)|, 1 + n
  {
    if n == 0 {
      us := ts;
    } else {
      var vs := SkipHead(ts, S);
      us := SkipPending(n - 1, vs, S);
      assert AllKeywordFree(ts[..n]) <==> KeywordFree(ts[0]) && AllKeywordFree(ts[1..][..n - 1]) by {
        assert ts[..n][0] == ts[0] && ts[..n][1..] == ts[1..][..n - 1];
      }
    }
  }

  /** Skipping consumes exactly one tag, whatever follows, if and only if the type has no keyword
      in it. */
  lemma SkipIsExactIffKeywordFree(t: RpcType, S: seq<byte>)
    requires Taggable(t)
    ensures Skip(Tag(t) + S) == Left(S) <==> KeywordFree(t)
  {
    var us := SkipHead([t], S);
    TagsCons(t, [], S);
    assert Tags([]) + S == S && [t] + [] == [t];
    if !KeywordFree(t) {
      assert |Tags(us) + S| > |S|;
    }
  }
}
