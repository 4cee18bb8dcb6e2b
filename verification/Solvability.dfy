/**
Exactly when bindings have a solution by finite trees.  Unification makes no occurs check, so it can
succeed and leave bindings that have none; this says when that happens, in terms of which variables
the bindings mention.
*/
module Solvability {
  import opened Types
  import opened UnionFind
  import opened Unification

  ghost function Vars(t: Type): set<TVar> {
    match t
    case Var(v) => {v}
    case Mono(_, _, _, args) => set i, w | 0 <= i < |args| && w in Vars(args[i]) :: w
    case Tuple(_, elts) => set i, w | 0 <= i < |elts| && w in Vars(elts[i]) :: w
    case Value(_, _) => {}
  }

  type Level = TVar -> nat

  /** Levels never rise along links, and fall from a bound variable to the variables in its type. */
  ghost predicate Falls(level: Level, v: TVar, t: Type) {
    forall w | w in Vars(t) :: if t.Var? then level(w) <= level(v) else level(w) < level(v)
  }

  ghost predicate Layered(S: Store, level: Level) {
    forall v | v in S :: Falls(level, v, S[v].parent)
  }

  // ----- a solution gives levels -----

  lemma {:induction false} PartHeight(s: Assignment, t: Type, w: TVar)
    requires w in Vars(t)
    ensures Height(s(w)) <= Height(Eval(s, t))
    ensures !t.Var? ==> Height(s(w)) < Height(Eval(s, t))
    decreases t
  {
    if t.Mono? {
      var i :| 0 <= i < |t.args| && w in Vars(t.args[i]);
      PartHeight(s, t.args[i], w);
      KidHeight(Eval(s, t).kids, i);
    } else if t.Tuple? {
      var i :| 0 <= i < |t.elts| && w in Vars(t.elts[i]);
      PartHeight(s, t.elts[i], w);
      KidHeight(Eval(s, t).kids, i);
    }
  }

  lemma HeightsAreLevels(s: Assignment, S: Store) returns (level: Level)
    requires Solves(s, S)
    ensures Layered(S, level)
  {
    level := v => Height(s(v));
    forall v, w | v in S && w in Vars(S[v].parent)
      ensures if S[v].parent.Var? then level(w) <= level(v) else level(w) < level(v)
    {
      PartHeight(s, S[v].parent, w);
    }
  }

  // ----- levels give a solution -----

  /** The tree of a variable: unbound variables become leaves. */
  ghost function Build(S: Store, level: Level, v: TVar): Tree
    requires Inv(S) && Layered(S, level)
    decreases level(v), 1, Above(S, v)
  {
    if Linked(S, v) then
      AboveShrinks(S, v);
      assert Falls(level, v, S[v].parent);
      Build(S, level, Parent(S, v).v)
    else if Unbound(S, v) then Node(LTuple, [])
    else
      assert Falls(level, v, S[v].parent);
      BuildType(S, level, S[v].parent, level(v))
  }

  ghost function BuildType(S: Store, level: Level, t: Type, n: nat): Tree
    requires Inv(S) && Layered(S, level) && forall w | w in Vars(t) :: level(w) < n
    decreases n, 0, t
  {
    match t
    case Var(v) => Build(S, level, v)
    case Mono(_, name, keys, args) =>
      Node(LMono(name, keys), seq(|args|, i requires 0 <= i < |args| => BuildType(S, level, args[i], n)))
    case Tuple(_, elts) =>
      Node(LTuple, seq(|elts|, i requires 0 <= i < |elts| => BuildType(S, level, elts[i], n)))
    case Value(_, value) => Node(LValue(value), [])
  }

  lemma {:induction false} BuildTypeEvals(S: Store, level: Level, s: Assignment, t: Type, n: nat)
    requires Inv(S) && Layered(S, level) && (forall w | w in Vars(t) :: level(w) < n)
    requires forall v :: s(v) == Build(S, level, v)
    ensures BuildType(S, level, t, n) == Eval(s, t)
    decreases t
  {
    if t.Mono? {
      forall i | 0 <= i < |t.args| ensures BuildType(S, level, t.args[i], n) == Eval(s, t.args[i]) {
        BuildTypeEvals(S, level, s, t.args[i], n);
      }
    } else if t.Tuple? {
      forall i | 0 <= i < |t.elts| ensures BuildType(S, level, t.elts[i], n) == Eval(s, t.elts[i]) {
        BuildTypeEvals(S, level, s, t.elts[i], n);
      }
    }
  }

  lemma LevelsAreSolvable(S: Store, level: Level)
    requires Inv(S) && Layered(S, level)
    ensures (exists s: Assignment :: Solves(s, S))
  {
    var s: Assignment := (v: TVar) => Build(S, level, v);
    forall v | v in S ensures s(v) == Eval(s, S[v].parent) {
      if !Linked(S, v) && !Unbound(S, v) {
        assert Falls(level, v, S[v].parent);
        BuildTypeEvals(S, level, s, S[v].parent, level(v));
      }
    }
    assert Solves(s, S);
  }

  /** Bindings have a solution if and only if their variables can be put in layers. */
  lemma SolvableIffLayered(S: Store)
    requires Inv(S)
    ensures (exists s: Assignment :: Solves(s, S)) <==> exists level: Level :: Layered(S, level)
  {
    if (exists s: Assignment :: Solves(s, S)) {
      var s: Assignment :| Solves(s, S);
      var level := HeightsAreLevels(s, S);
    }
    if level: Level :| Layered(S, level) {
      LevelsAreSolvable(S, level);
    }
  }

  // ----- the occurs check -----

  /** The variables that the bindings mention. */
  ghost function Mentioned(S: Store): set<TVar> {
    set v, w | v in S && w in Vars(S[v].parent) :: w
  }

  ghost function Next(S: Store, seen: set<TVar>): set<TVar> {
    seen + set v, w | v in seen && v in S && w in Vars(S[v].parent) :: w
  }

  /** The variables that can be reached from some through the bindings: the search of an occurs check. */
  ghost function Reach(S: Store, seen: set<TVar>): (all: set<TVar>)
    ensures seen <= all && Next(S, all) == all
    decreases Mentioned(S) - seen
  {
    if Next(S, seen) == seen then seen
    else
      assert Mentioned(S) - Next(S, seen) < Mentioned(S) - seen by {
        var w :| w in Next(S, seen) && w !in seen;
        assert w in Mentioned(S);
      }
      Reach(S, Next(S, seen))
  }

  lemma {:induction false} Bounded(level: Level, vs: set<TVar>) returns (bound: nat)
    ensures forall v | v in vs :: level(v) < bound
    decreases vs
  {
    if vs == {} {
      bound := 0;
    } else {
      var v :| v in vs;
      var rest := Bounded(level, vs - {v});
      bound := if level(v) < rest then rest else level(v) + 1;
    }
  }

  /** What can be reached stays where it is, and everything else is lifted above it. */
  lemma LiftedIsLayered(S: Store, level: Level, y: TVar, x: Type, low: set<TVar>)
    requires Inv(S) && Unbound(S, y) && !x.Var? && Layered(S, level)
    requires Vars(x) <= low && Next(S, low) == low && y !in low
    ensures (exists s: Assignment :: Solves(s, Bind(S, y, x)))
  {
    var bound := Bounded(level, low);
    var lifted: Level := v => if v in low then level(v) else level(v) + bound;
    var S' := Bind(S, y, x);
    forall v | v in S' ensures Falls(lifted, v, S'[v].parent) {
      if v != y {
        assert S'[v] == S[v] && Falls(level, v, S[v].parent);
        if v in low {
          assert forall w | w in Vars(S[v].parent) :: w in Next(S, low);
        }
      }
    }
    LevelsAreSolvable(S', lifted);
  }

  lemma {:induction false} ReachIsBelow(S: Store, level: Level, y: TVar, x: Type, seen: set<TVar>)
    requires Inv(S) && Unbound(S, y) && !x.Var? && Layered(Bind(S, y, x), level)
    requires forall v | v in seen :: level(v) < level(y)
    ensures y !in Reach(S, seen)
    decreases Mentioned(S) - seen
  {
    var next := Next(S, seen);
    if next != seen {
      forall w | w in next ensures level(w) < level(y) {
        if w !in seen {
          var v :| v in seen && v in S && w in Vars(S[v].parent);
          assert v != y && Bind(S, y, x)[v] == S[v];
          assert Falls(level, v, S[v].parent);
        }
      }
      assert Mentioned(S) - next < Mentioned(S) - seen by {
        var w :| w in next && w !in seen;
        assert w in Mentioned(S);
      }
      ReachIsBelow(S, level, y, x, next);
    }
  }

  /** Binding a variable keeps the bindings solvable if and only if the variable cannot be reached from
      the type: the test that the code leaves out. */
  lemma BindIsSolvableIffOccursChecked(S: Store, y: TVar, x: Type)
    requires Inv(S) && Unbound(S, y) && !x.Var? && (exists s: Assignment :: Solves(s, S))
    ensures (exists s: Assignment :: Solves(s, Bind(S, y, x))) <==> y !in Reach(S, Vars(x))
  {
    SolvableIffLayered(S);
    SolvableIffLayered(Bind(S, y, x));
    if y !in Reach(S, Vars(x)) {
      var level: Level :| Layered(S, level);
      LiftedIsLayered(S, level, y, x, Reach(S, Vars(x)));
    }
    if (exists s: Assignment :: Solves(s, Bind(S, y, x))) {
      var level: Level :| Layered(Bind(S, y, x), level);
      assert Bind(S, y, x)[y].parent == x;
      assert Falls(level, y, x);
      ReachIsBelow(S, level, y, x, Vars(x));
    }
  }

  /** Joining two unbound variables never needs the test. */
  lemma LinkIsSolvable(S: Store, x: TVar, y: TVar)
    requires Inv(S) && x != y && Unbound(S, x) && Unbound(S, y) && (exists s: Assignment :: Solves(s, S))
    ensures (exists s: Assignment :: Solves(s, Link(S, x, y)))
  {
    SolvableIffLayered(S);
    var level: Level :| Layered(S, level);
    var top := Upper(S, x, y);
    var lowered: Level := v => if v == top then 0 else level(v);
    var S' := Link(S, x, y);
    forall v | v in S' ensures Falls(lowered, v, S'[v].parent) {
      if v != x && v != y {
        assert S'[v] == S[v] && Falls(level, v, S[v].parent);
      }
    }
    LevelsAreSolvable(S', lowered);
  }

  /** Every binding among some steps passes the occurs check. */
  ghost predicate OccursChecked(S: Store, steps: seq<Step>)
    requires Inv(S)
    decreases |steps|
  {
    steps != [] && Enabled(S, steps[0]) ==>
      && (steps[0].SBind? ==> steps[0].y !in Reach(S, Vars(steps[0].x)))
      && OccursChecked(Take(S, steps[0]), steps[1..])
  }

  lemma StepOnlyRemoves(S: Store, st: Step)
    requires Inv(S) && Enabled(S, st) && (exists s: Assignment :: Solves(s, Take(S, st)))
    ensures (exists s: Assignment :: Solves(s, S))
  {
    var s: Assignment :| Solves(s, Take(S, st));
    if st.SBind? {
      BindSolves(s, S, st.y, st.x);
    } else {
      LinkSolves(s, S, st.x', st.y);
    }
  }

  lemma {:induction false} StepsOnlyRemove(S: Store, steps: seq<Step>, S': Store)
    requires Inv(S) && Inv(S') && Leads(S, steps, S') && (exists s: Assignment :: Solves(s, S'))
    ensures (exists s: Assignment :: Solves(s, S))
    decreases |steps|
  {
    if steps != [] {
      StepsOnlyRemove(Take(S, steps[0]), steps[1..], S');
      StepOnlyRemoves(S, steps[0]);
    }
  }

  /** Any sequence of steps keeps the bindings solvable if and only if each of its bindings passes the
      occurs check. */
  lemma {:induction false} StepsAreSolvableIffOccursChecked(S: Store, steps: seq<Step>, S': Store)
    requires Inv(S) && Inv(S') && Leads(S, steps, S') && (exists s: Assignment :: Solves(s, S))
    ensures (exists s: Assignment :: Solves(s, S')) <==> OccursChecked(S, steps)
    decreases |steps|
  {
    if steps != [] {
      var st := steps[0];
      var S1 := Take(S, st);
      if st.SBind? {
        BindIsSolvableIffOccursChecked(S, st.y, st.x);
      } else {
        LinkIsSolvable(S, st.x', st.y);
      }
      if (exists s: Assignment :: Solves(s, S1)) {
        StepsAreSolvableIffOccursChecked(S1, steps[1..], S');
      } else if (exists s: Assignment :: Solves(s, S')) {
        StepsOnlyRemove(S1, steps[1..], S');
      }
    }
  }

  /** Equating a variable that has no type yet with a type always succeeds; the bindings have a solution
      afterwards if and only if the variable cannot be reached from the type. */
  lemma VariableNeedsOccursCheck(S: Store, v: TVar, t: Type, depth: nat)
    requires Inv(S) && (exists s: Assignment :: Solves(s, S)) && Find(S, v).Var? && !t.Var? && depth > 0
    ensures Unify(S, Var(v), t, depth).0 == Ok
    ensures (exists s: Assignment :: Solves(s, Unify(S, Var(v), t, depth).1)) <==> Find(S, v).v !in Reach(S, Vars(t))
  {
    var y := Find(S, v).v;
    assert Unify(S, Var(v), t, depth) == (Ok, Bind(S, y, t));
    BindIsSolvableIffOccursChecked(S, y, t);
  }

  /** Over any run of unifications, successful or not: bindings that had a solution still have one if and
      only if every binding that the run made passes the occurs check at its time. */
  lemma RunIsSolvableIffOccursChecked(S: Store, eqs: seq<Equation>) returns (S': Store, steps: seq<Step>)
    requires Inv(S) && (exists s: Assignment :: Solves(s, S))
    ensures S' == Run(S, eqs) && Leads(S, steps, S')
    ensures (exists s: Assignment :: Solves(s, S')) <==> OccursChecked(S, steps)
  {
    S' := Run(S, eqs);
    steps := RunLeads(S, eqs);
    StepsAreSolvableIffOccursChecked(S, steps, S');
  }
}
