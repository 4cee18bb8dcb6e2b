/**
Type terms of the ARTIQ compiler and the union-find store that its type variables form
(artiq/compiler/types.py).

A `TVar` is a heap object with a mutable `parent` and `rank`; every other type is an immutable
node.  A `Store` is a snapshot of the variables of one compilation: the pure functions below
(`Top`, `Find`, `Unify`, `EqThroughFind`) say what the code computes on a snapshot, and the methods
of the classes are proved to do exactly that to the heap.
*/
module Types {

  /** `class TVar`: `parent` is the variable itself while it is unbound. */
  class TVar {
    var parent: Type
    var rank: nat

    constructor ()
      ensures parent == Var(this) && rank == 0
    {
      parent := Value(0, 0);
      rank := 0;
      new;
      parent := Var(this);
    }

    /** `TVar.find`.  The chained assignment in its loop moves `root` before it stores through
        it, so the store puts back the parent that is already there: no path is compressed.
        `U` holds the variables of the compilation. */
    method Find(ghost U: set<TVar>) returns (r: Type, ghost steps: nat)
      requires this in U && Closed(Snapshot(U), U) && Inv(Snapshot(U))
      modifies U
      ensures Snapshot(U) == old(Snapshot(U)) && Closed(Snapshot(U), U)
      ensures r == FindType(Snapshot(U), Var(this)) && In(r, U)
      ensures steps == Steps(Snapshot(U), this)
    {
      ghost var S := Snapshot(U);
      steps := 0;
      var p := this.parent;
      if p == Var(this) {
        return p, 0;
      }
      var root := this;
      while p.Var? && root != p.v
        invariant root in U && p == root.parent && Closed(Snapshot(U), U)
        invariant Snapshot(U) == S
        invariant Top(S, root) == Top(S, this)
        invariant steps + Steps(S, root) == Steps(S, this)
        decreases Above(S, root)
      {
        assert Parent(S, root) == p;
        AboveShrinks(S, root);
        assert In(root.parent, U);
        var grandparent := p.v.parent;
        root, p := p.v, grandparent;
        root.parent := grandparent;
        steps := steps + 1;
        assert Snapshot(U) == S;
      }
      assert Parent(S, root) == root.parent;
      r := root.parent;
    }
  }

  /** The types that take part in unification.  `oid` is the identity of the Python object, so
      that `==` on `Type` is Python's `is`; parameter names are kept sorted, as the constructor
      of `TMono` does. */
  datatype Type =
    | Var(v: TVar)
    | Mono(oid: nat, name: string, keys: seq<string>, args: seq<Type>)
    | Tuple(oid: nat, elts: seq<Type>)
    | Value(oid: nat, value: int)
  {
    /** `unify` of the class that this type belongs to. */
    method UnifyWith(other: Type, depth: nat, ghost U: set<TVar>) returns (r: Outcome)
      requires Closed(Snapshot(U), U) && Inv(Snapshot(U)) && In(this, U) && In(other, U)
      modifies U
      ensures Closed(Snapshot(U), U)
      ensures r == Unify(old(Snapshot(U)), this, other, depth).0
      ensures Snapshot(U) == Unify(old(Snapshot(U)), this, other, depth).1
      decreases depth, 0
    {
      if depth == 0 {
        r := RecursionError;
      } else if other == this {
        r := Ok;
      } else if this.Var? {
        r := UnifyVar(v, other, depth, U);
      } else if this.Mono? {
        r := UnifyMono(this, other, depth, U);
      } else if this.Tuple? {
        r := UnifyTuple(this, other, depth, U);
      } else {
        r := UnifyValue(this, other, depth, U);
      }
    }
  }

  /** `TMono.unify`, after its test for identity. */
  method UnifyMono(t: Type, other: Type, depth: nat, ghost U: set<TVar>) returns (r: Outcome)
    requires Closed(Snapshot(U), U) && Inv(Snapshot(U)) && In(t, U) && In(other, U)
    requires t.Mono? && depth > 0 && other != t
    modifies U
    ensures Closed(Snapshot(U), U)
    ensures r == Unify(old(Snapshot(U)), t, other, depth).0
    ensures Snapshot(U) == Unify(old(Snapshot(U)), t, other, depth).1
    decreases depth, 0, 0
  {
    if other.Mono? && other.name == t.name {
      if other.keys == t.keys && |other.args| == |t.args| {
        r := UnifyParts(t.args, other.args, depth - 1, U);
      } else {
        r := AssertionError;
      }
    } else if other.Var? {
      r := other.UnifyWith(t, depth - 1, U);
    } else {
      r := UnificationError;
    }
  }

  /** `TTuple.unify`, after its test for identity. */
  method UnifyTuple(t: Type, other: Type, depth: nat, ghost U: set<TVar>) returns (r: Outcome)
    requires Closed(Snapshot(U), U) && Inv(Snapshot(U)) && In(t, U) && In(other, U)
    requires t.Tuple? && depth > 0 && other != t
    modifies U
    ensures Closed(Snapshot(U), U)
    ensures r == Unify(old(Snapshot(U)), t, other, depth).0
    ensures Snapshot(U) == Unify(old(Snapshot(U)), t, other, depth).1
    decreases depth, 0, 0
  {
    if other.Tuple? && |other.elts| == |t.elts| {
      r := UnifyParts(t.elts, other.elts, depth - 1, U);
    } else if other.Var? {
      r := other.UnifyWith(t, depth - 1, U);
    } else {
      r := UnificationError;
    }
  }

  /** `TValue.unify`, after its test for identity. */
  method UnifyValue(t: Type, other: Type, depth: nat, ghost U: set<TVar>) returns (r: Outcome)
    requires Closed(Snapshot(U), U) && Inv(Snapshot(U)) && In(other, U)
    requires t.Value? && depth > 0 && other != t
    modifies U
    ensures Closed(Snapshot(U), U)
    ensures r == Unify(old(Snapshot(U)), t, other, depth).0
    ensures Snapshot(U) == Unify(old(Snapshot(U)), t, other, depth).1
    decreases depth, 0, 0
  {
    if other.Var? {
      r := other.UnifyWith(t, depth - 1, U);
    } else if other.Value? && other.value == t.value {
      r := Ok;
    } else {
      r := UnificationError;
    }
  }

  /** The two unbound variables become one class; the rank decides which one leads. */
  method JoinVars(x0: TVar, y0: TVar, ghost U: set<TVar>)
    requires Closed(Snapshot(U), U) && Inv(Snapshot(U)) && x0 in U && y0 in U && x0 != y0
    requires x0.parent == Var(x0) && y0.parent == Var(y0)
    modifies x0, y0
    ensures Closed(Snapshot(U), U)
    ensures Snapshot(U) == Link(old(Snapshot(U)), x0, y0)
  {
    var x, y := x0, y0;
    if x.rank < y.rank {
      x, y := y, x;
    }
    y.parent := Var(x);
    if x.rank == y.rank {
      x.rank := x.rank + 1;
    }
  }

  /** `TVar.unify`, after its test for identity. */
  method UnifyVar(v: TVar, other: Type, depth: nat, ghost U: set<TVar>) returns (r: Outcome)
    requires Closed(Snapshot(U), U) && Inv(Snapshot(U)) && v in U && In(other, U)
    requires depth > 0 && other != Var(v)
    modifies U
    ensures Closed(Snapshot(U), U)
    ensures r == Unify(old(Snapshot(U)), Var(v), other, depth).0
    ensures Snapshot(U) == Unify(old(Snapshot(U)), Var(v), other, depth).1
    decreases depth, 0, 0
  {
    ghost var S := Snapshot(U);
    var x := other;
    ghost var steps: nat;
    if other.Var? {
      x, steps := other.v.Find(U);
    }
    var y: Type;
    y, steps := v.Find(U);
    assert x == FindType(S, other) && y == Find(S, v);
    if x == y {
      return Ok;
    }
    if y.Var? {
      assert Unbound(S, y.v);
      if x.Var? {
        assert Unbound(S, x.v);
        JoinVars(x.v, y.v, U);
      } else {
        y.v.parent := x;
        assert Snapshot(U) == Bind(S, y.v, x);
      }
      r := Ok;
    } else {
      r := y.UnifyWith(x, depth - 1, U);
    }
  }

  /** The loop over parameters or elements; an exception leaves it at once. */
  method UnifyParts(xs: seq<Type>, ys: seq<Type>, depth: nat, ghost U: set<TVar>) returns (r: Outcome)
    requires Closed(Snapshot(U), U) && Inv(Snapshot(U)) && |xs| == |ys|
    requires forall i | 0 <= i < |xs| :: In(xs[i], U) && In(ys[i], U)
    modifies U
    ensures Closed(Snapshot(U), U)
    ensures r == UnifyAll(old(Snapshot(U)), xs, ys, depth).0
    ensures Snapshot(U) == UnifyAll(old(Snapshot(U)), xs, ys, depth).1
    decreases depth, 1
  {
    ghost var S := Snapshot(U);
    for i := 0 to |xs|
      invariant Closed(Snapshot(U), U) && Inv(Snapshot(U))
      invariant UnifyAll(S, xs, ys, depth) == UnifyAll(Snapshot(U), xs[i..], ys[i..], depth)
    {
      r := xs[i].UnifyWith(ys[i], depth, U);
      assert xs[i..][1..] == xs[i + 1..] && ys[i..][1..] == ys[i + 1..];
      if r != Ok {
        return;
      }
    }
    r := Ok;
  }

  /** All variables of `t` belong to `U`. */
  ghost predicate In(t: Type, U: set<TVar>) {
    match t
    case Var(v) => v in U
    case Mono(_, _, _, args) => forall i | 0 <= i < |args| :: In(args[i], U)
    case Tuple(_, elts) => forall i | 0 <= i < |elts| :: In(elts[i], U)
    case Value(_, _) => true
  }

  ghost predicate Closed(S: Store, U: set<TVar>) {
    forall v | v in S :: In(S[v].parent, U)
  }

  ghost function Snapshot(U: set<TVar>): Store
    reads U
  {
    map v | v in U :: Cell(v.parent, v.rank)
  }

  datatype Cell = Cell(parent: Type, rank: nat)
  type Store = map<TVar, Cell>

  datatype Outcome = Ok | UnificationError | AssertionError | RecursionError

  /** A variable that the store does not mention is untouched: its own parent, of rank 0. */
  ghost function Parent(S: Store, v: TVar): Type {
    if v in S then S[v].parent else Var(v)
  }

  ghost function Rank(S: Store, v: TVar): nat {
    if v in S then S[v].rank else 0
  }

  /** `v` is linked to another variable. */
  ghost predicate Linked(S: Store, v: TVar) {
    Parent(S, v).Var? && Parent(S, v).v != v
  }

  ghost predicate Unbound(S: Store, v: TVar) {
    Parent(S, v) == Var(v)
  }

  /** What every unification keeps: ranks strictly increase along links from variable to
      variable, so the links are acyclic. */
  ghost predicate Inv(S: Store) {
    forall v | v in S && Linked(S, v) :: Rank(S, v) < Rank(S, S[v].parent.v)
  }

  // ----- find -----

  /** The variables of higher rank than `v`: a termination measure for walks along links. */
  ghost function Above(S: Store, v: TVar): set<TVar> {
    set w | w in S && S[w].rank > Rank(S, v)
  }

  lemma AboveShrinks(S: Store, v: TVar)
    requires Inv(S) && Linked(S, v)
    ensures Above(S, Parent(S, v).v) < Above(S, v)
  {
    var p := Parent(S, v).v;
    assert p in Above(S, v) && p !in Above(S, p);
  }

  /** The last variable on the chain of links that starts in `v`. */
  ghost function Top(S: Store, v: TVar): (t: TVar)
    requires Inv(S)
    ensures !Linked(S, t)
    decreases Above(S, v)
  {
    if Linked(S, v) then
      AboveShrinks(S, v);
      Top(S, Parent(S, v).v)
    else v
  }

  /** `TVar.find`: the unbound variable or the type at the end of the chain. */
  ghost function Find(S: Store, v: TVar): (t: Type)
    requires Inv(S)
    ensures t.Var? ==> Unbound(S, t.v)
  {
    Parent(S, Top(S, v))
  }

  /** `find` on any type: only variables have somewhere to go. */
  ghost function FindType(S: Store, t: Type): (r: Type)
    requires Inv(S)
    ensures r.Var? ==> Unbound(S, r.v)
  {
    if t.Var? then Find(S, t.v) else t
  }

  /** The number of iterations of the loop in `TVar.find`. */
  ghost function Steps(S: Store, v: TVar): nat
    requires Inv(S)
    decreases Above(S, v)
  {
    if Linked(S, v) then
      AboveShrinks(S, v);
      1 + Steps(S, Parent(S, v).v)
    else 0
  }

  // ----- unify -----

  /** The unbound variable `y` gets the type `x` as its parent. */
  ghost function Bind(S: Store, y: TVar, x: Type): (S': Store)
    requires Inv(S) && Unbound(S, y) && !x.Var?
    ensures Inv(S')
  {
    S[y := Cell(x, Rank(S, y))]
  }

  /** Two distinct unbound variables are joined, the one of lower rank below the other. */
  ghost function Link(S: Store, x: TVar, y: TVar): (S': Store)
    requires Inv(S) && x != y && Unbound(S, x) && Unbound(S, y)
    ensures Inv(S')
  {
    var (x, y) := if Rank(S, x) < Rank(S, y) then (y, x) else (x, y);
    S[y := Cell(Var(x), Rank(S, y))]
     [x := Cell(Var(x), if Rank(S, x) == Rank(S, y) then Rank(S, x) + 1 else Rank(S, x))]
  }

  /** `unify` on a snapshot: the outcome, and the snapshot it leaves behind also when it raises.
      `depth` is the number of nested calls that the interpreter still allows. */
  ghost function Unify(S: Store, a: Type, b: Type, depth: nat): (res: (Outcome, Store))
    requires Inv(S)
    ensures Inv(res.1)
    decreases depth, 0
  {
    if depth == 0 then (RecursionError, S)
    else if a == b then (Ok, S)
    else match a
      case Var(v) =>
        var x := FindType(S, b);
        var y := Find(S, v);
        if x == y then (Ok, S)
        else if y.Var? then
          if x.Var? then (Ok, Link(S, x.v, y.v)) else (Ok, Bind(S, y.v, x))
        else Unify(S, y, x, depth - 1)
      case Mono(_, name, keys, args) =>
        if b.Mono? && b.name == name then
          if b.keys == keys && |b.args| == |args| then UnifyAll(S, args, b.args, depth - 1)
          else (AssertionError, S)
        else if b.Var? then Unify(S, b, a, depth - 1)
        else (UnificationError, S)
      case Tuple(_, elts) =>
        if b.Tuple? && |b.elts| == |elts| then UnifyAll(S, elts, b.elts, depth - 1)
        else if b.Var? then Unify(S, b, a, depth - 1)
        else (UnificationError, S)
      case Value(_, value) =>
        if b.Var? then Unify(S, b, a, depth - 1)
        else if b.Value? && b.value == value then (Ok, S)
        else (UnificationError, S)
  }

  /** The loop over parameters or elements; an exception leaves it at once. */
  ghost function UnifyAll(S: Store, xs: seq<Type>, ys: seq<Type>, depth: nat): (res: (Outcome, Store))
    requires Inv(S) && |xs| == |ys|
    ensures Inv(res.1)
    decreases depth, 1 + |xs|
  {
    if xs == [] then (Ok, S)
    else
      var (r, S1) := Unify(S, xs[0], ys[0], depth);
      if r == Ok then UnifyAll(S1, xs[1..], ys[1..], depth) else (r, S1)
  }

  // ----- equality -----

  datatype Verdict = Yes | No | TooDeep

  /** `__eq__` through `find`, as lists and dictionaries compare their elements: identical
      objects are equal, unbound variables are equal only if identical, and the other types are
      compared by name and by the representatives of their parts. */
  ghost function EqThroughFind(S: Store, a: Type, b: Type, depth: nat): Verdict
    requires Inv(S)
    decreases depth, 0
  {
    var x, y := FindType(S, a), FindType(S, b);
    if x == y then Yes
    else if depth == 0 then TooDeep
    else match (x, y)
      case (Mono(_, m, ks, xs), Mono(_, n, ls, ys)) =>
        if m == n && ks == ls && |xs| == |ys| then EqAll(S, xs, ys, depth - 1) else No
      case (Tuple(_, xs), Tuple(_, ys)) =>
        if |xs| == |ys| then EqAll(S, xs, ys, depth - 1) else No
      case (Value(_, m), Value(_, n)) => if m == n then Yes else No
      case _ => No
  }

  ghost function EqAll(S: Store, xs: seq<Type>, ys: seq<Type>, depth: nat): Verdict
    requires Inv(S) && |xs| == |ys|
    decreases depth, 1 + |xs|
  {
    if xs == [] then Yes
    else
      var v := EqThroughFind(S, xs[0], ys[0], depth);
      if v == Yes then EqAll(S, xs[1..], ys[1..], depth) else v
  }

  // ----- meaning -----

  /** Finite trees without variables: the solutions that unification looks for. */
  datatype Label = LMono(name: string, keys: seq<string>) | LTuple | LValue(value: int)
  datatype Tree = Node(tag: Label, kids: seq<Tree>)

  type Assignment = TVar -> Tree

  ghost function Eval(s: Assignment, t: Type): Tree
    decreases t
  {
    match t
    case Var(v) => s(v)
    case Mono(_, name, keys, args) =>
      Node(LMono(name, keys), seq(|args|, i requires 0 <= i < |args| => Eval(s, args[i])))
    case Tuple(_, elts) =>
      Node(LTuple, seq(|elts|, i requires 0 <= i < |elts| => Eval(s, elts[i])))
    case Value(_, value) => Node(LValue(value), [])
  }

  /** `s` solves the equations that the bindings of the store stand for. */
  ghost predicate Solves(s: Assignment, S: Store) {
    forall v | v in S :: s(v) == Eval(s, S[v].parent)
  }

  ghost predicate EvalsEqual(s: Assignment, xs: seq<Type>, ys: seq<Type>)
    requires |xs| == |ys|
  {
    forall i | 0 <= i < |xs| :: Eval(s, xs[i]) == Eval(s, ys[i])
  }

  ghost function Height(t: Tree): (h: nat)
    ensures h >= 1
  {
    1 + MaxHeight(t.kids)
  }

  ghost function MaxHeight(ts: seq<Tree>): nat
  {
    if ts == [] then 0
    else
      var h, m := Height(ts[0]), MaxHeight(ts[1..]);
      if h > m then h else m
  }
}
