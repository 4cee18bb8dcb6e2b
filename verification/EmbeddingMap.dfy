/**
The map from host objects to the integers that stand for them on the device
(class `EmbeddingMap` of artiq/compiler/embedding.py), as far as objects, subkernels and subkernel
messages go.

`Embedding` is the abstract value of a map; the class below updates its dictionaries in place
and is proved to follow the functions on `Embedding`.
*/
module EmbeddingMaps {

  /** What the code asks of a host object.  A subkernel carries `artiq_embedded` with a
      destination; a host function is any other function or method.  Functions and messages are
      true in a condition, other objects need not be. */
  datatype Kind =
    | Subkernel(destination: int)
    | HostFunction
    | Message(name: string)
    | Other(truthy: bool)

  /** A Python object; its reference plays the role of `id(obj)`. */
  class HostObject {
    const kind: Kind

    constructor (k: Kind)
      ensures kind == k
    {
      kind := k;
    }
  }

  predicate Truthy(o: HostObject) {
    o.kind.Other? ==> o.kind.truthy
  }

  datatype Embedding = Embedding(
    current: nat,
    forward: map<nat, HostObject>,
    reverse: map<HostObject, nat>,
    messages: map<string, nat>)

  const EMPTY := Embedding(0, map[], map[], map[])

  /** What every map keeps: the two object maps are inverse to each other, keys start at one,
      keys beyond the counter hold true objects, and each message name leads to its message. */
  ghost predicate Valid(m: Embedding) {
    && (forall k | k in m.forward :: k >= 1 && m.forward[k] in m.reverse && m.reverse[m.forward[k]] == k)
    && (forall o | o in m.reverse :: m.reverse[o] in m.forward && m.forward[m.reverse[o]] == o)
    && (forall k | k in m.forward && k > m.current :: Truthy(m.forward[k]))
    && (forall s | s in m.messages :: m.messages[s] in m.forward && m.forward[m.messages[s]].kind == Message(s))
  }

  /** `subkernels()`: the part of the forward map that holds subkernels. */
  function Subkernels(m: Embedding): map<nat, HostObject> {
    map k | k in m.forward && m.forward[k].kind.Subkernel? :: m.forward[k]
  }

  /** `subkernel_messages()`: the messages by their keys. */
  function Messages(m: Embedding): map<nat, HostObject>
    requires forall s | s in m.messages :: m.messages[s] in m.forward
  {
    map k | k in m.messages.Values :: m.forward[k]
  }

  // ----- storing -----

  /** The test of the search loop, which asks for a true object rather than for a key. */
  predicate Taken(m: Embedding, k: nat) {
    k in m.forward && Truthy(m.forward[k])
  }

  ghost function KeysFrom(m: Embedding, k: nat): set<nat> {
    set i | i in m.forward && i >= k
  }

  /** The first key from `k` on that passes the test. */
  function FirstFree(m: Embedding, k: nat): (f: nat)
    ensures f >= k && !Taken(m, f) && forall i | k <= i < f :: Taken(m, i)
    decreases KeysFrom(m, k)
  {
    if Taken(m, k) then
      assert k in KeysFrom(m, k) && k !in KeysFrom(m, k + 1);
      FirstFree(m, k + 1)
    else k
  }

  /** `store_object`. */
  function Store(m: Embedding, o: HostObject): (r: (Embedding, nat)) {
    if o in m.reverse then (m, m.reverse[o])
    else
      var k := FirstFree(m, m.current + 1);
      (m.(current := k, forward := m.forward[k := o], reverse := m.reverse[o := k]), k)
  }

  /** `store_subkernel_message`, where `o` is the message it creates for a new name. */
  function StoreMessage(m: Embedding, name: string, o: HostObject): (r: (Embedding, nat)) {
    if name in m.messages then (m, m.messages[name])
    else
      var (m', k) := Store(m, o);
      (m'.(messages := m'.messages[name := k]), k)
  }

  /** The constructor: subkernels and messages come from the old map, nothing else does. */
  function Inherit(m: Embedding): (m': Embedding)
    requires forall s | s in m.messages :: m.messages[s] in m.forward
  {
    var forward := Subkernels(m) + Messages(m);
    Embedding(0, forward, map o | o in forward.Values && o in m.reverse :: m.reverse[o], m.messages)
  }

  // ----- what one operation keeps -----

  /** All entries of `a` are entries of `b`. */
  ghost predicate Within<K, V>(a: map<K, V>, b: map<K, V>) {
    forall k | k in a :: k in b && a[k] == b[k]
  }

  /** The key that is found is free although the test only looks for true objects. */
  lemma FirstFreeIsFree(m: Embedding)
    requires Valid(m)
    ensures FirstFree(m, m.current + 1) !in m.forward
  {
  }

  /** Storing keeps the map valid, never overwrites a key, and leads back to the object. */
  lemma StoreKeeps(m: Embedding, o: HostObject)
    requires Valid(m)
    ensures var (m', k) := Store(m, o);
            && Valid(m') && k in m'.forward && m'.forward[k] == o
            && Within(m.forward, m'.forward) && m'.messages == m.messages
            && (forall i | i in m'.forward :: i in m.forward || (i == k && o !in m.reverse))
  {
    FirstFreeIsFree(m);
  }

  /** A known object changes nothing; a new one gets the first free key above the last one given. */
  lemma StoreIsMinimal(m: Embedding, o: HostObject)
    requires Valid(m)
    ensures var (m', k) := Store(m, o);
            if o in m.reverse then m' == m
            else m'.current == k > m.current && k !in m.forward && forall i | m.current < i < k :: i in m.forward
  {
    FirstFreeIsFree(m);
    if o !in m.reverse {
      forall i | m.current < i < FirstFree(m, m.current + 1) ensures i in m.forward {
        assert Taken(m, i);
      }
    }
  }

  lemma StoreMessageKeeps(m: Embedding, name: string, o: HostObject)
    requires Valid(m) && o.kind == Message(name)
    ensures var (m', k) := StoreMessage(m, name, o);
            && Valid(m') && k in m'.forward && m'.forward[k].kind == Message(name)
            && Within(m.forward, m'.forward) && Within(m.messages, m'.messages)
            && name in m'.messages && m'.messages[name] == k
            && (forall i | i in m'.forward :: i in m.forward || m'.forward[i] == o)
  {
    StoreKeeps(m, o);
  }

  /** What is inherited was there under the same key, and is a subkernel or a message. */
  lemma InheritedEntries(m: Embedding)
    requires Valid(m)
    ensures forall k | k in Inherit(m).forward ::
              && k in m.forward && Inherit(m).forward[k] == m.forward[k]
              && (m.forward[k].kind.Subkernel? || m.forward[k].kind.Message?)
    ensures forall s | s in m.messages :: m.messages[s] in Inherit(m).forward
  {
  }

  lemma InheritIsValid(m: Embedding)
    requires Valid(m)
    ensures Valid(Inherit(m))
  {
    InheritedEntries(m);
  }

  /** Inheriting keeps the map valid and keeps exactly the subkernels and the messages, each with
      the key it had. */
  lemma InheritKeeps(m: Embedding)
    requires Valid(m)
    ensures Valid(Inherit(m))
    ensures Subkernels(Inherit(m)) == Subkernels(m)
    ensures Inherit(m).messages == m.messages && Messages(Inherit(m)) == Messages(m)
  {
    InheritIsValid(m);
    InheritedEntries(m);
  }

  // ----- the class -----

  /** The dictionaries hold entries of `m`, each in both directions. */
  ghost predicate Copied(forward: map<nat, HostObject>, reverse: map<HostObject, nat>, m: Embedding) {
    && Within(forward, m.forward) && Within(reverse, m.reverse)
    && (forall k | k in forward :: forward[k] in reverse)
    && (forall o | o in reverse :: reverse[o] in forward)
  }

  lemma CopiesAreInherited(forward: map<nat, HostObject>, reverse: map<HostObject, nat>, m: Embedding)
    requires Valid(m) && Copied(forward, reverse, m)
    requires forward.Keys == Subkernels(m).Keys + Messages(m).Keys
    ensures forward == Inherit(m).forward && reverse == Inherit(m).reverse
  {
    var m' := Inherit(m);
    InheritedEntries(m);
    assert forward.Keys == m'.forward.Keys;
    assert forward == m'.forward;
    assert forall k | k in forward :: forward[k] in forward.Values;
    assert reverse.Keys == m'.reverse.Keys;
  }

  /** The loops of the constructor over subkernels and over messages. */
  method CopyObjects(entries: map<nat, HostObject>, forward0: map<nat, HostObject>, reverse0: map<HostObject, nat>,
                     ghost m: Embedding)
    returns (forward: map<nat, HostObject>, reverse: map<HostObject, nat>)
    requires Valid(m) && Within(entries, m.forward) && Copied(forward0, reverse0, m)
    ensures Copied(forward, reverse, m) && forward.Keys == forward0.Keys + entries.Keys
  {
    forward, reverse := forward0, reverse0;
    var todo := entries.Keys;
    while todo != {}
      invariant todo <= entries.Keys && Copied(forward, reverse, m)
      invariant forward.Keys == forward0.Keys + (entries.Keys - todo)
    {
      var key :| key in todo;
      var o := entries[key];
      CopyStep(forward, reverse, m, key, o);
      forward, reverse := forward[key := o], reverse[o := key];
      todo := todo - {key};
    }
  }

  lemma CopyStep(forward: map<nat, HostObject>, reverse: map<HostObject, nat>, m: Embedding, key: nat, o: HostObject)
    requires Valid(m) && Copied(forward, reverse, m) && key in m.forward && m.forward[key] == o
    ensures Copied(forward[key := o], reverse[o := key], m)
  {
  }

  /** The names of the messages, which the second loop reads off the messages themselves. */
  method CopyNames(messages: map<nat, HostObject>, ghost m: Embedding) returns (names: map<string, nat>)
    requires Valid(m) && messages == Messages(m)
    ensures names == m.messages
  {
    names := map[];
    var todo := messages.Keys;
    while todo != {}
      invariant todo <= messages.Keys && Within(names, m.messages)
      invariant forall s | s in m.messages && m.messages[s] !in todo :: s in names
    {
      var key :| key in todo;
      ghost var s :| s in m.messages && m.messages[s] == key;
      names := names[messages[key].kind.name := key];
      todo := todo - {key};
    }
    assert forall s | s in m.messages :: s in names;
  }

  class EmbeddingMap {
    var objectCurrentKey: nat
    var objectForwardMap: map<nat, HostObject>
    var objectReverseMap: map<HostObject, nat>
    var subkernelMessageMap: map<string, nat>

    function State(): Embedding
      reads this
    {
      Embedding(objectCurrentKey, objectForwardMap, objectReverseMap, subkernelMessageMap)
    }

    /** A map for the first kernel. */
    constructor Fresh()
      ensures State() == EMPTY
    {
      objectCurrentKey := 0;
      objectForwardMap := map[];
      objectReverseMap := map[];
      subkernelMessageMap := map[];
    }

    /** A map that is aware of the subkernels and messages of an earlier one. */
    constructor (older: EmbeddingMap)
      requires Valid(older.State())
      ensures State() == Inherit(older.State())
    {
      var m := older.State();
      var forward, reverse := CopyObjects(Subkernels(m), map[], map[], m);
      forward, reverse := CopyObjects(Messages(m), forward, reverse, m);
      var names := CopyNames(Messages(m), m);
      CopiesAreInherited(forward, reverse, m);
      objectCurrentKey := 0;
      objectForwardMap := forward;
      objectReverseMap := reverse;
      subkernelMessageMap := names;
    }

    method StoreObject(o: HostObject) returns (key: nat)
      requires Valid(State())
      modifies this
      ensures (State(), key) == Store(old(State()), o) && Valid(State())
    {
      StoreKeeps(State(), o);
      if o in objectReverseMap {
        return objectReverseMap[o];
      }
      ghost var m := State();
      objectCurrentKey := objectCurrentKey + 1;
      while objectCurrentKey in objectForwardMap && Truthy(objectForwardMap[objectCurrentKey])
        invariant State() == m.(current := objectCurrentKey)
        invariant FirstFree(m, m.current + 1) == FirstFree(m, objectCurrentKey)
        decreases KeysFrom(m, objectCurrentKey)
      {
        assert objectCurrentKey in KeysFrom(m, objectCurrentKey) - KeysFrom(m, objectCurrentKey + 1);
        objectCurrentKey := objectCurrentKey + 1;
      }
      objectForwardMap := objectForwardMap[objectCurrentKey := o];
      objectReverseMap := objectReverseMap[o := objectCurrentKey];
      return objectCurrentKey;
    }

    /** The locations of the sender and the receiver, which this also records, are not part of the model. */
    method StoreSubkernelMessage(name: string) returns (key: nat, o: HostObject)
      requires Valid(State())
      modifies this
      ensures (State(), key) == StoreMessage(old(State()), name, o) && Valid(State())
      ensures key in objectForwardMap && o == objectForwardMap[key] && o.kind == Message(name)
    {
      if name in subkernelMessageMap {
        key := subkernelMessageMap[name];
      } else {
        var fresh_message := new HostObject(Message(name));
        StoreMessageKeeps(State(), name, fresh_message);
        StoreKeeps(State(), fresh_message);
        key := StoreObject(fresh_message);
        subkernelMessageMap := subkernelMessageMap[name := key];
      }
      o := objectForwardMap[key];
    }
  }

  // ----- chains of maps -----

  datatype Op = Keep(o: HostObject) | KeepMessage(name: string, o: HostObject) | NewMap

  ghost predicate WellFormed(op: Op) {
    op.KeepMessage? ==> op.o.kind == Message(op.name)
  }

  ghost function Apply(m: Embedding, op: Op): (m': Embedding)
    requires Valid(m) && WellFormed(op)
    ensures Valid(m')
  {
    match op
    case Keep(o) => StoreKeeps(m, o); Store(m, o).0
    case KeepMessage(name, o) => StoreMessageKeeps(m, name, o); StoreMessage(m, name, o).0
    case NewMap => InheritKeeps(m); Inherit(m)
  }

  ghost function Run(m: Embedding, ops: seq<Op>): (m': Embedding)
    requires Valid(m) && forall op | op in ops :: WellFormed(op)
    ensures Valid(m')
    decreases |ops|
  {
    if ops == [] then m else Run(Apply(m, ops[0]), ops[1..])
  }

  lemma ApplyKeepsIds(m: Embedding, op: Op)
    requires Valid(m) && WellFormed(op)
    ensures Within(Subkernels(m), Subkernels(Apply(m, op)))
    ensures Within(m.messages, Apply(m, op).messages)
    ensures Within(Messages(m), Messages(Apply(m, op)))
  {
    match op
    case Keep(o) => StoreKeeps(m, o);
    case KeepMessage(name, o) =>
      StoreMessageKeeps(m, name, o);
      var m' := Apply(m, op);
      forall k | k in Messages(m) ensures k in Messages(m') && Messages(m')[k] == Messages(m)[k] {
        var s :| s in m.messages && m.messages[s] == k;
        assert m'.messages[s] == k;
      }
    case NewMap => InheritKeeps(m);
  }

  /** Along any chain of maps, every subkernel and every message keeps the key it got first, and
      the object behind a message name never changes. */
  lemma {:induction false} ChainKeepsIds(m: Embedding, ops: seq<Op>)
    requires Valid(m) && forall op | op in ops :: WellFormed(op)
    ensures Within(Subkernels(m), Subkernels(Run(m, ops)))
    ensures Within(m.messages, Run(m, ops).messages)
    ensures Within(Messages(m), Messages(Run(m, ops)))
    decreases |ops|
  {
    if ops != [] {
      ApplyKeepsIds(m, ops[0]);
      ChainKeepsIds(Apply(m, ops[0]), ops[1..]);
    }
  }

  /** At no point of a chain do two objects share a key, or one object have two, and key 0, which
      the RPC protocol reserves, is never given out. */
  lemma ChainKeepsIdsApart(ops: seq<Op>, i: nat, j: nat)
    requires forall op | op in ops :: WellFormed(op)
    requires i in Run(EMPTY, ops).forward && j in Run(EMPTY, ops).forward
    ensures Run(EMPTY, ops).forward[i] == Run(EMPTY, ops).forward[j] <==> i == j
    ensures i > 0
  {
    var m := Run(EMPTY, ops);
    assert Valid(m);
  }
}
