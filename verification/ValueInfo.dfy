/**
The incremental check of attributes of host objects (class `_ValueInfo` and the queue handling of
`_unify_attribute` in artiq/compiler/embedding.py).

The first query of an attribute walks the live list of objects, which may grow under its feet;
later queries walk a queue that they have just detached.
*/
module ValueInfos {

  /** An object with the location it was added from. */
  datatype Entry = Entry(object_id: nat, location: nat)

  function Concat(lists: seq<seq<Entry>>): seq<Entry> {
    if lists == [] then [] else Concat(lists[..|lists| - 1]) + lists[|lists| - 1]
  }

  class ValueInfo {
    var objects: seq<Entry>
    var unchecked: map<string, seq<Entry>>

    /** The entries whose attribute has been checked so far. */
    ghost var checked: map<string, set<Entry>>

    /** For each known attribute, every object is checked or still queued. */
    ghost predicate Valid()
      reads this
    {
      && checked.Keys == unchecked.Keys
      && (forall a, e | a in unchecked && e in objects :: e in checked[a] || e in unchecked[a])
    }

    constructor ()
      ensures Valid() && objects == [] && unchecked == map[]
    {
      objects, unchecked, checked := [], map[], map[];
    }

    method Append(e: Entry)
      modifies this
      ensures old(Valid()) ==> Valid()
      ensures objects == old(objects) + [e] && checked == old(checked)
      ensures unchecked == Queued(old(unchecked), [e])
    {
      objects := objects + [e];
      var todo := unchecked.Keys;
      while todo != {}
        invariant todo <= old(unchecked).Keys && unchecked.Keys == old(unchecked).Keys
        invariant objects == old(objects) + [e] && checked == old(checked)
        invariant forall a | a in unchecked ::
                    unchecked[a] == if a in todo then old(unchecked)[a] else old(unchecked)[a] + [e]
      {
        var a :| a in todo;
        unchecked := unchecked[a := unchecked[a] + [e]];
        todo := todo - {a};
      }
    }

    method AppendAll(es: seq<Entry>)
      modifies this
      ensures objects == old(objects) + es && checked == old(checked)
      ensures unchecked == Queued(old(unchecked), es)
    {
      QueuedNothing(unchecked);
      for i := 0 to |es|
        invariant checked == old(checked)
        invariant objects == old(objects) + es[..i]
        invariant unchecked == Queued(old(unchecked), es[..i])
      {
        Append(es[i]);
        QueuedTwice(old(unchecked), es[..i], [es[i]]);
        assert es[..i + 1] == es[..i] + [es[i]];
      }
      assert es[..|es|] == es;
    }

    /** One round of the loop over the entries to check: the i-th check may quote new entries. */
    method Check(attr: string, e: Entry, i: nat, quoted: seq<seq<Entry>>, ghost added: seq<Entry>)
      requires attr in checked && added == Concat(quoted[..Least(i, |quoted|)])
      modifies this
      ensures checked == old(checked)[attr := old(checked)[attr] + {e}]
      ensures var es := if i < |quoted| then quoted[i] else [];
              && objects == old(objects) + es && unchecked == Queued(old(unchecked), es)
              && added + es == Concat(quoted[..Least(i + 1, |quoted|)])
    {
      checked := checked[attr := checked[attr] + {e}];
      if i < |quoted| {
        ConcatStep(quoted, i);
        AppendAll(quoted[i]);
      } else {
        QueuedNothing(unchecked);
        assert objects + [] == objects && added + [] == added;
      }
    }

    /** One round, with what the rounds so far have checked and added. */
    method Round(attr: string, list: seq<Entry>, i: nat, quoted: seq<seq<Entry>>, ghost added: seq<Entry>,
                 ghost objects0: seq<Entry>, ghost unchecked0: map<string, seq<Entry>>,
                 ghost checked0: map<string, set<Entry>>)
      returns (ghost es: seq<Entry>)
      requires i < |list| && attr in checked0 && added == Concat(quoted[..Least(i, |quoted|)])
      requires checked == checked0[attr := checked0[attr] + Elements(list[..i])]
      requires objects == objects0 + added && unchecked == Queued(unchecked0, added)
      modifies this
      ensures checked == checked0[attr := checked0[attr] + Elements(list[..i + 1])]
      ensures objects == old(objects) + es && objects == objects0 + (added + es)
      ensures unchecked == Queued(unchecked0, added + es)
      ensures added + es == Concat(quoted[..Least(i + 1, |quoted|)]) && (i >= |quoted| ==> es == [])
    {
      PrefixStep(list, i);
      ElementsAppend(checked0[attr], list[..i], list[i]);
      es := if i < |quoted| then quoted[i] else [];
      QueuedTwice(unchecked0, added, es);
      Associates(objects0, added, es);
      Check(attr, list[i], i, quoted, added);
    }

    /** The loop of a repeated query, over the detached queue. */
    method WalkQueue(attr: string, queue: seq<Entry>, quoted: seq<seq<Entry>>) returns (ghost added: seq<Entry>)
      requires attr in checked
      modifies this
      ensures checked == old(checked)[attr := old(checked)[attr] + Elements(queue)]
      ensures added == Concat(quoted[..Least(|queue|, |quoted|)])
      ensures objects == old(objects) + added && unchecked == Queued(old(unchecked), added)
    {
      added := [];
      QueuedNothing(unchecked);
      ElementsNone(checked[attr]);
      assert quoted[..0] == [];
      for i := 0 to |queue|
        invariant attr in checked && checked == old(checked)[attr := old(checked)[attr] + Elements(queue[..i])]
        invariant added == Concat(quoted[..Least(i, |quoted|)])
        invariant objects == old(objects) + added && unchecked == Queued(old(unchecked), added)
      {
        ghost var es := Round(attr, queue, i, quoted, added, old(objects), old(unchecked), old(checked));
        added := added + es;
      }
      assert queue[..|queue|] == queue;
    }

    /** The loop of the first query, over the live list of objects. */
    method WalkObjects(attr: string, quoted: seq<seq<Entry>>) returns (ghost added: seq<Entry>)
      requires attr in checked
      modifies this
      ensures checked == old(checked)[attr := old(checked)[attr] + Elements(objects)]
      ensures added == Concat(quoted[..Least(|objects|, |quoted|)])
      ensures objects == old(objects) + added && unchecked == Queued(old(unchecked), added)
    {
      added := [];
      QueuedNothing(unchecked);
      ElementsNone(checked[attr]);
      assert quoted[..0] == [];
      var i := 0;
      while i < |objects|
        invariant i <= |objects|
        invariant attr in checked && checked == old(checked)[attr := old(checked)[attr] + Elements(objects[..i])]
        invariant added == Concat(quoted[..Least(i, |quoted|)])
        invariant objects == old(objects) + added && unchecked == Queued(old(unchecked), added)
        decreases |quoted| - Least(i, |quoted|), |objects| - i
      {
        ghost var list := objects;
        ghost var es := Round(attr, objects, i, quoted, added, old(objects), old(unchecked), old(checked));
        PrefixOfLonger(list, es);
        added := added + es;
        i := i + 1;
      }
      assert objects[..|objects|] == objects;
    }

    /** `_unify_attribute`, where the check of the i-th visited entry quotes, and so appends, the
        entries `quoted[i]`, if any.

        All objects recorded before the query are checked when it ends; a repeated query visits
        only what was queued. */
    method UnifyAttribute(attr: string, quoted: seq<seq<Entry>>) returns (ghost visited: seq<Entry>)
      requires Valid()
      modifies this
      ensures Valid() && attr in unchecked
      ensures visited == if attr in old(unchecked) then old(unchecked)[attr] else objects
      ensures forall e | e in old(objects) :: e in checked[attr]
      ensures checked == old(checked)[attr := Checked(old(checked), attr) + Elements(visited)]
      ensures var new_entries := Concat(quoted[..Least(|visited|, |quoted|)]);
              && objects == old(objects) + new_entries
              && unchecked == Queued(old(unchecked)[attr := []], new_entries)
    {
      ghost var added: seq<Entry>;
      checked := checked[attr := Checked(checked, attr)];
      if attr in unchecked {
        var queue := unchecked[attr];
        visited := queue;
        unchecked := unchecked[attr := []];
        added := WalkQueue(attr, queue, quoted);
      } else {
        unchecked := unchecked[attr := []];
        added := WalkObjects(attr, quoted);
        visited := objects;
      }
      CheckedOrQueued(old(objects), old(unchecked), old(checked), attr, attr !in old(unchecked), visited, added);
    }
  }

  function Least(a: nat, b: nat): nat {
    if a <= b then a else b
  }

  ghost function Elements(es: seq<Entry>): set<Entry> {
    set e | e in es
  }

  ghost function Checked(checked: map<string, set<Entry>>, attr: string): set<Entry> {
    if attr in checked then checked[attr] else {}
  }

  /** All queues with `es` added at the end. */
  ghost function Queued(unchecked: map<string, seq<Entry>>, es: seq<Entry>): map<string, seq<Entry>> {
    map a | a in unchecked :: unchecked[a] + es
  }

  lemma ConcatStep(lists: seq<seq<Entry>>, i: nat)
    requires i < |lists|
    ensures Concat(lists[..i + 1]) == Concat(lists[..i]) + lists[i]
  {
    assert lists[..i + 1][..i] == lists[..i];
  }

  lemma PrefixStep<T>(xs: seq<T>, i: nat)
    requires i < |xs|
    ensures xs[..i + 1] == xs[..i] + [xs[i]]
  {
  }

  lemma PrefixOfLonger<T>(xs: seq<T>, ys: seq<T>)
    ensures forall n | 0 <= n <= |xs| :: (xs + ys)[..n] == xs[..n]
  {
  }

  lemma Associates<T>(xs: seq<T>, ys: seq<T>, zs: seq<T>)
    ensures xs + ys + zs == xs + (ys + zs)
  {
  }

  lemma QueuedNothing(unchecked: map<string, seq<Entry>>)
    ensures Queued(unchecked, []) == unchecked
  {
    forall a | a in unchecked ensures unchecked[a] + [] == unchecked[a] {
    }
  }

  lemma ElementsAppend(base: set<Entry>, es: seq<Entry>, e: Entry)
    ensures base + Elements(es + [e]) == base + Elements(es) + {e}
  {
  }

  lemma ElementsNone(base: set<Entry>)
    ensures base + Elements([]) == base
  {
  }

  lemma QueuedTwice(unchecked: map<string, seq<Entry>>, es: seq<Entry>, fs: seq<Entry>)
    ensures Queued(Queued(unchecked, es), fs) == Queued(unchecked, es + fs)
  {
    forall a | a in unchecked ensures unchecked[a] + es + fs == unchecked[a] + (es + fs) {
    }
  }

  /** Objects that were checked, queued or recorded before are so after, and new ones are queued
      or, in the live walk, visited. */
  lemma CheckedOrQueued(objects: seq<Entry>, unchecked: map<string, seq<Entry>>, checked: map<string, set<Entry>>,
                        attr: string, live: bool, visited: seq<Entry>, es: seq<Entry>)
    requires checked.Keys == unchecked.Keys && live == (attr !in unchecked)
    requires forall a, e | a in unchecked && e in objects :: e in checked[a] || e in unchecked[a]
    requires visited == if live then objects + es else unchecked[attr]
    ensures var checked' := checked[attr := Checked(checked, attr) + Elements(visited)];
            var unchecked' := Queued(unchecked[attr := []], es);
            && checked'.Keys == unchecked'.Keys
            && (forall a, e | a in unchecked' && e in objects + es :: e in checked'[a] || e in unchecked'[a])
            && (forall e | e in objects :: e in checked'[attr])
  {
  }
}
