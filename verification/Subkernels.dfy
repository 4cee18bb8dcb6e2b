/**
The loop that compiles and uploads all subkernels (method `compile_and_upload_subkernels` of
artiq/coredevice/core.py).

Compiling a function is abstracted to what it does to the embedding map: it makes a new map
from the old one and stores the objects and messages that the function refers to.
*/
module SubkernelWorklist {
  import opened EmbeddingMaps

  /** A reference found while compiling a function. */
  datatype Item = Object(o: HostObject) | SubkernelMessage(name: string)

  /** The finitely many references of each function. */
  type References = HostObject -> seq<Item>

  ghost function SubkernelsIn(items: seq<Item>): set<HostObject> {
    set it | it in items && it.Object? && it.o.kind.Subkernel? :: it.o
  }

  ghost predicate RpcIn(items: seq<Item>) {
    exists it | it in items :: it.Object? && it.o.kind.HostFunction?
  }

  /** The subkernels that `f` refers to. */
  ghost function Callees(refs: References, f: HostObject): set<HostObject> {
    SubkernelsIn(refs(f))
  }

  /** `has_rpc()`: the map holds a function that runs on the host. */
  predicate HasRpc(m: Embedding) {
    exists k | k in m.forward :: m.forward[k].kind.HostFunction?
  }

  /** The subkernels of a map as a set of functions. */
  ghost function Kernels(m: Embedding): set<HostObject> {
    set o | o in m.reverse && o.kind.Subkernel?
  }

  lemma KernelsAreSubkernels(m: Embedding)
    requires Valid(m)
    ensures forall k | k in Subkernels(m) :: Subkernels(m)[k] in Kernels(m)
    ensures forall o | o in Kernels(m) :: m.reverse[o] in Subkernels(m) && Subkernels(m)[m.reverse[o]] == o
  {
  }

  // ----- compiling one function -----

  /** What storing `items` makes of the subkernels and host functions of a map. */
  ghost predicate Grown(before: Embedding, items: seq<Item>, after: Embedding) {
    && Within(Subkernels(before), Subkernels(after))
    && Kernels(after) == Kernels(before) + SubkernelsIn(items)
    && (HasRpc(after) <==> HasRpc(before) || RpcIn(items))
  }

  lemma ItemsAppend(items: seq<Item>, it: Item)
    ensures SubkernelsIn(items + [it]) ==
            SubkernelsIn(items) + if it.Object? && it.o.kind.Subkernel? then {it.o} else {}
    ensures RpcIn(items + [it]) <==> RpcIn(items) || (it.Object? && it.o.kind.HostFunction?)
  {
    var more := items + [it];
    assert forall x :: x in more <==> x in items || x == it;
  }

  lemma StoreKernels(m: Embedding, o: HostObject)
    ensures Kernels(Store(m, o).0) == Kernels(m) + if o.kind.Subkernel? then {o} else {}
  {
  }

  lemma StoreRpc(m: Embedding, o: HostObject)
    requires Valid(m)
    ensures HasRpc(Store(m, o).0) <==> HasRpc(m) || o.kind.HostFunction?
  {
    StoreKeeps(m, o);
    var (m', k) := Store(m, o);
    assert m'.forward[k] == o;
    if HasRpc(m) {
      var i :| i in m.forward && m.forward[i].kind.HostFunction?;
      assert m'.forward[i] == m.forward[i];
    }
  }

  lemma WithinIsTransitive<K, V>(a: map<K, V>, b: map<K, V>, c: map<K, V>)
    requires Within(a, b) && Within(b, c)
    ensures Within(a, c)
  {
  }

  lemma GrownByObject(before: Embedding, items: seq<Item>, m: Embedding, o: HostObject)
    requires Valid(m) && Grown(before, items, m)
    ensures Grown(before, items + [Object(o)], Store(m, o).0)
  {
    StoreKeeps(m, o);
    StoreKernels(m, o);
    StoreRpc(m, o);
    ItemsAppend(items, Object(o));
    WithinIsTransitive(Subkernels(before), Subkernels(m), Subkernels(Store(m, o).0));
  }

  lemma GrownByMessage(before: Embedding, items: seq<Item>, m: Embedding, name: string, o: HostObject)
    requires Valid(m) && Grown(before, items, m) && o.kind == Message(name)
    ensures Grown(before, items + [SubkernelMessage(name)], StoreMessage(m, name, o).0)
  {
    ItemsAppend(items, SubkernelMessage(name));
    if name !in m.messages {
      GrownByObject(before, items, m, o);
      ItemsAppend(items, Object(o));
      SameObjects(Store(m, o).0, StoreMessage(m, name, o).0);
    }
  }

  lemma SameObjects(m: Embedding, m': Embedding)
    requires m.forward == m'.forward && m.reverse == m'.reverse
    ensures Subkernels(m) == Subkernels(m') && Kernels(m) == Kernels(m') && HasRpc(m) == HasRpc(m')
  {
  }

  /** `compile`, as far as the embedding map goes. */
  method Compile(f: HostObject, older: EmbeddingMap, refs: References) returns (m: EmbeddingMap)
    requires Valid(older.State())
    ensures fresh(m) && Valid(m.State())
    ensures Within(Subkernels(older.State()), Subkernels(m.State()))
    ensures Kernels(m.State()) == Kernels(older.State()) + Callees(refs, f)
    ensures HasRpc(m.State()) <==> RpcIn(refs(f))
  {
    m := new EmbeddingMap(older);
    InheritKeeps(older.State());
    InheritedEntries(older.State());
    ghost var start := m.State();
    KernelsAreSubkernels(older.State());
    KernelsAreSubkernels(start);
    var items := refs(f);
    for i := 0 to |items|
      invariant fresh(m) && Valid(m.State())
      invariant Grown(start, items[..i], m.State())
    {
      ghost var before := m.State();
      assert items[..i + 1] == items[..i] + [items[i]];
      match items[i]
      case Object(o) =>
        GrownByObject(start, items[..i], before, o);
        var key := m.StoreObject(o);
      case SubkernelMessage(name) =>
        var key, o := m.StoreSubkernelMessage(name);
        GrownByMessage(start, items[..i], before, name, o);
    }
    assert items[..|items|] == items;
  }

  // ----- reachability -----

  /** The subkernels within `n` calls of `roots`. */
  ghost function ReachIn(refs: References, roots: set<HostObject>, n: nat): set<HostObject> {
    if n == 0 then roots
    else
      var closer := ReachIn(refs, roots, n - 1);
      closer + set f, o | f in closer && o in Callees(refs, f) :: o
  }

  ghost predicate Reachable(refs: References, roots: set<HostObject>, o: HostObject) {
    exists n: nat :: o in ReachIn(refs, roots, n)
  }

  lemma CalleeIsReachable(refs: References, roots: set<HostObject>, f: HostObject, o: HostObject)
    requires Reachable(refs, roots, f) && o in Callees(refs, f)
    ensures Reachable(refs, roots, o)
  {
    var n: nat :| f in ReachIn(refs, roots, n);
    assert o in ReachIn(refs, roots, n + 1);
  }

  lemma {:induction false} ClosedHoldsReachable(refs: References, roots: set<HostObject>, U: set<HostObject>, n: nat)
    requires roots <= U && forall f | f in U :: Callees(refs, f) <= U
    ensures ReachIn(refs, roots, n) <= U
  {
    if n > 0 {
      ClosedHoldsReachable(refs, roots, U, n - 1);
    }
  }

  // ----- the loop -----

  datatype Upload = Upload(sid: nat, fn: HostObject)
  datatype Result = Done | RpcError(sid: nat)

  ghost predicate NoRepeats<T>(xs: seq<T>) {
    forall i, j | 0 <= i < j < |xs| :: xs[i] != xs[j]
  }

  ghost function Uploaded(uploads: seq<Upload>): set<HostObject> {
    set u | u in uploads :: u.fn
  }

  /** Each compiled id was uploaded once, with its function. */
  ghost predicate Tracks(subkernels: map<nat, HostObject>, compiled: seq<nat>, uploads: seq<Upload>) {
    && NoRepeats(compiled) && |uploads| == |compiled|
    && (forall i | 0 <= i < |compiled| ::
          compiled[i] in subkernels && uploads[i] == Upload(compiled[i], subkernels[compiled[i]]))
  }

  /** The map knows all callees of what was uploaded, and no uploaded function uses an RPC. */
  ghost predicate Covers(refs: References, uploads: seq<Upload>, m: Embedding) {
    forall i | 0 <= i < |uploads| ::
      Callees(refs, uploads[i].fn) <= Kernels(m) && !RpcIn(refs(uploads[i].fn))
  }

  ghost predicate AllReachable(refs: References, roots: set<HostObject>, m: Embedding) {
    forall o | o in Kernels(m) :: Reachable(refs, roots, o)
  }

  /** What the map `m` has in common with a map `m0` it descends from. */
  ghost predicate Descends(m0: Embedding, m: Embedding) {
    Valid(m) && Within(Subkernels(m0), Subkernels(m))
  }

  lemma DescendantKnows(m0: Embedding, m: Embedding)
    requires Valid(m0) && Descends(m0, m)
    ensures Kernels(m0) <= Kernels(m)
  {
    KernelsAreSubkernels(m0);
    KernelsAreSubkernels(m);
    forall o | o in Kernels(m0) ensures o in Kernels(m) {
      assert Subkernels(m)[m0.reverse[o]] == o;
    }
  }

  lemma CompiledKeepsReachable(refs: References, roots: set<HostObject>, m: Embedding, f: HostObject, m': Embedding)
    requires AllReachable(refs, roots, m) && Reachable(refs, roots, f)
    requires Kernels(m') == Kernels(m) + Callees(refs, f)
    ensures AllReachable(refs, roots, m')
  {
    forall o | o in Kernels(m') ensures Reachable(refs, roots, o) {
      if o !in Kernels(m) {
        CalleeIsReachable(refs, roots, f, o);
      }
    }
  }

  /** What the loops keep, with `m0` the map at the start of the pass. */
  ghost predicate Going(subkernels: map<nat, HostObject>, m0: Embedding, refs: References, roots: set<HostObject>,
                        compiled: seq<nat>, uploads: seq<Upload>, m: Embedding)
  {
    && Descends(m0, m) && AllReachable(refs, roots, m)
    && Tracks(subkernels, compiled, uploads) && Covers(refs, uploads, m)
  }

  /** `m'` is what compiling `f` makes of `m`. */
  ghost predicate CompiledFrom(refs: References, m: Embedding, f: HostObject, m': Embedding) {
    && Valid(m') && Within(Subkernels(m), Subkernels(m'))
    && Kernels(m') == Kernels(m) + Callees(refs, f)
  }

  lemma StillReachable(refs: References, roots: set<HostObject>, m0: Embedding, m: Embedding, sid: nat, m': Embedding)
    requires Valid(m0) && Descends(m0, m) && AllReachable(refs, roots, m)
    requires sid in Subkernels(m0) && CompiledFrom(refs, m, Subkernels(m0)[sid], m')
    ensures Descends(m0, m') && AllReachable(refs, roots, m') && Reachable(refs, roots, Subkernels(m0)[sid])
  {
    KernelsAreSubkernels(m0);
    DescendantKnows(m0, m);
    WithinIsTransitive(Subkernels(m0), Subkernels(m), Subkernels(m'));
    CompiledKeepsReachable(refs, roots, m, Subkernels(m0)[sid], m');
  }

  lemma CompiledOne(subkernels: map<nat, HostObject>, compiled: seq<nat>, uploads: seq<Upload>, sid: nat,
                    refs: References, m: Embedding, m': Embedding)
    requires Tracks(subkernels, compiled, uploads) && Covers(refs, uploads, m)
    requires sid in subkernels && sid !in compiled && !RpcIn(refs(subkernels[sid]))
    requires CompiledFrom(refs, m, subkernels[sid], m')
    ensures Tracks(subkernels, compiled + [sid], uploads + [Upload(sid, subkernels[sid])])
    ensures Covers(refs, uploads + [Upload(sid, subkernels[sid])], m')
  {
  }

  lemma Absorbs(found: map<nat, HostObject>, m: Embedding, m': Embedding)
    requires found == map[] || found == Subkernels(m)
    requires Within(Subkernels(m), Subkernels(m'))
    ensures found + Subkernels(m') == Subkernels(m')
  {
  }

  /** One pass over the known subkernels: the inner loop. */
  method Pass(subkernels: map<nat, HostObject>, compiled0: seq<nat>, uploads0: seq<Upload>, first: EmbeddingMap,
              refs: References, ghost roots: set<HostObject>)
    returns (r: Result, compiled: seq<nat>, uploads: seq<Upload>, m: EmbeddingMap, found: map<nat, HostObject>)
    requires Valid(first.State()) && subkernels == Subkernels(first.State())
    requires Going(subkernels, first.State(), refs, roots, compiled0, uploads0, first.State())
    ensures r.Done? ==>
              && Going(subkernels, first.State(), refs, roots, compiled, uploads, m.State())
              && (forall k | k in subkernels :: k in compiled)
              && (if compiled == compiled0 then m == first && found == map[] else found == Subkernels(m.State()))
    ensures r.RpcError? ==>
              r.sid in subkernels && RpcIn(refs(subkernels[r.sid])) && Reachable(refs, roots, subkernels[r.sid])
  {
    compiled, uploads, m, found := compiled0, uploads0, first, map[];
    ghost var m0 := first.State();
    r := Done;
    var todo := subkernels.Keys;
    while todo != {}
      invariant todo <= subkernels.Keys && first.State() == m0
      invariant Going(subkernels, m0, refs, roots, compiled, uploads, m.State())
      invariant compiled0 <= compiled
      invariant forall k | k in subkernels && k !in todo :: k in compiled
      invariant if compiled == compiled0 then m == first && found == map[] else found == Subkernels(m.State())
    {
      var sid :| sid in todo;
      todo := todo - {sid};
      if sid !in compiled {
        var f := subkernels[sid];
        ghost var before := m.State();
        var m' := Compile(f, m, refs);
        StillReachable(refs, roots, m0, before, sid, m'.State());
        if HasRpc(m'.State()) {
          r := RpcError(sid);
          return;
        }
        CompiledOne(subkernels, compiled, uploads, sid, refs, before, m'.State());
        Absorbs(found, before, m'.State());
        found := found + Subkernels(m'.State());
        compiled, uploads, m := compiled + [sid], uploads + [Upload(sid, f)], m';
      }
    }
  }

  /** The subkernels of a bigger map. */
  lemma MoreKernels(m: Embedding, m': Embedding)
    requires Valid(m) && Descends(m, m') && Subkernels(m) != Subkernels(m')
    ensures Kernels(m) < Kernels(m')
    ensures exists k :: k in Subkernels(m') && k !in Subkernels(m)
  {
    DescendantKnows(m, m');
    KernelsAreSubkernels(m');
    var k :| k in Subkernels(m') && k !in Subkernels(m);
    KernelsAreSubkernels(m);
    assert Subkernels(m')[k] in Kernels(m') - Kernels(m);
  }

  /** A larger map covers as much, under the same ids. */
  lemma StillGoing(m0: Embedding, m: Embedding, refs: References, roots: set<HostObject>,
                   compiled: seq<nat>, uploads: seq<Upload>)
    requires Going(Subkernels(m0), m0, refs, roots, compiled, uploads, m)
    ensures Going(Subkernels(m), m, refs, roots, compiled, uploads, m)
  {
  }

  /** Exactly the reachable subkernels are uploaded, and none of them uses an RPC. */
  ghost predicate Complete(refs: References, roots: set<HostObject>, uploads: seq<Upload>) {
    && (forall n: nat :: ReachIn(refs, roots, n) <= Uploaded(uploads))
    && (forall u | u in uploads :: Reachable(refs, roots, u.fn) && !RpcIn(refs(u.fn)))
  }

  /** Each function is uploaded once, under the id it has in the last map. */
  ghost predicate Once(uploads: seq<Upload>, m: Embedding) {
    && (forall i, j | 0 <= i < j < |uploads| :: uploads[i].sid != uploads[j].sid && uploads[i].fn != uploads[j].fn)
    && (forall u | u in uploads :: u.sid in Subkernels(m) && Subkernels(m)[u.sid] == u.fn)
  }

  /** Once every known subkernel is compiled and none is new, exactly the reachable ones are. */
  lemma AllUploaded(m: Embedding, m0: Embedding, refs: References, roots: set<HostObject>,
                    compiled: seq<nat>, uploads: seq<Upload>)
    requires Valid(m0) && Going(Subkernels(m0), m0, refs, roots, compiled, uploads, m)
    requires roots <= Kernels(m0) && Subkernels(m) == Subkernels(m0)
    requires forall k | k in Subkernels(m0) :: k in compiled
    ensures Complete(refs, roots, uploads)
  {
    KernelsAreSubkernels(m0);
    KernelsAreSubkernels(m);
    assert Kernels(m) <= Uploaded(uploads) by {
      forall o | o in Kernels(m) ensures o in Uploaded(uploads) {
        var i :| 0 <= i < |compiled| && compiled[i] == m.reverse[o];
        assert uploads[i].fn == o && uploads[i] in uploads;
      }
    }
    forall f | f in Uploaded(uploads) ensures Callees(refs, f) <= Uploaded(uploads) {
      var u :| u in uploads && u.fn == f;
      var i :| 0 <= i < |uploads| && uploads[i] == u;
    }
    DescendantKnows(m0, m);
    forall n: nat ensures ReachIn(refs, roots, n) <= Uploaded(uploads) {
      ClosedHoldsReachable(refs, roots, Uploaded(uploads), n);
    }
  }

  /** `compile_and_upload_subkernels`.  `world` is a finite set of functions that contains the
      subkernels of the kernel and is closed under calls, which every program has.

      The loop ends, uploads every subkernel that is reachable from the kernel, uploads it once and
      under the id it has in all later maps, and fails exactly if one of them uses an RPC. */
  method CompileAndUploadSubkernels(kernel: EmbeddingMap, refs: References, ghost world: set<HostObject>)
    returns (r: Result, uploads: seq<Upload>, last: EmbeddingMap)
    requires Valid(kernel.State()) && Kernels(kernel.State()) <= world
    requires forall f | f in world :: Callees(refs, f) <= world
    ensures r.Done? ==>
              && Complete(refs, Kernels(kernel.State()), uploads)
              && Once(uploads, last.State())
              && Within(Subkernels(kernel.State()), Subkernels(last.State()))
    ensures r.RpcError? ==> exists f | f in world :: Reachable(refs, Kernels(kernel.State()), f) && RpcIn(refs(f))
  {
    ghost var roots := Kernels(kernel.State());
    ghost var k0 := kernel.State();
    last := kernel;
    var subkernels := Subkernels(kernel.State());
    var compiled: seq<nat> := [];
    uploads := [];
    assert forall o | o in roots :: o in ReachIn(refs, roots, 0);
    while true
      invariant kernel.State() == k0 && Descends(k0, last.State())
      invariant subkernels == Subkernels(last.State())
      invariant Going(subkernels, last.State(), refs, roots, compiled, uploads, last.State())
      invariant Kernels(last.State()) <= world
      invariant subkernels == map[] || exists k :: k in subkernels && k !in compiled
      decreases world - Kernels(last.State())
    {
      ghost var m0 := last.State();
      var found: map<nat, HostObject>;
      var compiled', uploads', last';
      r, compiled', uploads', last', found := Pass(subkernels, compiled, uploads, last, refs, roots);
      KernelsAreSubkernels(m0);
      if r.RpcError? {
        return;
      }
      ghost var m := last'.State();
      WithinIsTransitive(Subkernels(k0), Subkernels(m0), Subkernels(m));
      if compiled' == compiled {
        assert subkernels == map[];
      }
      if found == subkernels {
        DescendantKnows(k0, m0);
        AllUploaded(m, m0, refs, roots, compiled', uploads');
        DistinctFunctions(m, subkernels, compiled', uploads');
        uploads, last := uploads', last';
        return;
      }
      NextPass(m0, m, refs, roots, world, compiled', uploads');
      subkernels := subkernels + found;
      compiled, uploads, last := compiled', uploads', last';
    }
  }

  /** What a pass that found new subkernels leaves for the next one. */
  lemma NextPass(m0: Embedding, m: Embedding, refs: References, roots: set<HostObject>, world: set<HostObject>,
                 compiled: seq<nat>, uploads: seq<Upload>)
    requires Valid(m0) && Going(Subkernels(m0), m0, refs, roots, compiled, uploads, m)
    requires Subkernels(m) != Subkernels(m0)
    requires roots <= world && forall f | f in world :: Callees(refs, f) <= world
    ensures Subkernels(m0) + Subkernels(m) == Subkernels(m)
    ensures Going(Subkernels(m), m, refs, roots, compiled, uploads, m)
    ensures exists k :: k in Subkernels(m) && k !in compiled
    ensures Kernels(m0) < Kernels(m) <= world
  {
    MoreKernels(m0, m);
    StillGoing(m0, m, refs, roots, compiled, uploads);
    ReachableInWorld(refs, roots, world, m);
    var k :| k in Subkernels(m) && k !in Subkernels(m0);
    assert k !in compiled;
  }

  lemma DistinctFunctions(m: Embedding, subkernels: map<nat, HostObject>, compiled: seq<nat>, uploads: seq<Upload>)
    requires Valid(m) && subkernels == Subkernels(m) && Tracks(subkernels, compiled, uploads)
    ensures Once(uploads, m)
  {
  }

  lemma ReachableInWorld(refs: References, roots: set<HostObject>, world: set<HostObject>, m: Embedding)
    requires AllReachable(refs, roots, m) && roots <= world
    requires forall f | f in world :: Callees(refs, f) <= world
    ensures Kernels(m) <= world
  {
    forall o | o in Kernels(m) ensures o in world {
      var n: nat :| o in ReachIn(refs, roots, n);
      ClosedHoldsReachable(refs, roots, world, n);
    }
  }
}
