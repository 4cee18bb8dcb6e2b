/**
What unification achieves: it is sound and most general, terminates when a solution exists,
never separates equal types, and keeps the union-find forest shallow.
*/
module Unification {
  import opened Types
  import opened UnionFind

  // ----- solutions -----

  /** Walking to the representative does not change the meaning under a solution. */
  lemma {:induction false} TopSolved(s: Assignment, S: Store, v: TVar)
    requires Inv(S) && Solves(s, S)
    ensures s(Top(S, v)) == s(v)
    decreases Above(S, v)
  {
    if Linked(S, v) {
      AboveShrinks(S, v);
      TopSolved(s, S, Parent(S, v).v);
    }
  }

  lemma FindSolved(s: Assignment, S: Store, t: Type)
    requires Inv(S) && Solves(s, S)
    ensures Eval(s, FindType(S, t)) == Eval(s, t)
  {
    if t.Var? {
      TopSolved(s, S, t.v);
    }
  }

  /** Equal trees have equal labels and pairwise equal parts. */
  lemma EvalParts(s: Assignment, a: Type, b: Type)
    requires !a.Var? && !b.Var?
    ensures a.Mono? && b.Mono? && a.name == b.name && a.keys == b.keys && |a.args| == |b.args| ==>
              (Eval(s, a) == Eval(s, b) <==> EvalsEqual(s, a.args, b.args))
    ensures a.Tuple? && b.Tuple? && |a.elts| == |b.elts| ==>
              (Eval(s, a) == Eval(s, b) <==> EvalsEqual(s, a.elts, b.elts))
    ensures Eval(s, a) == Eval(s, b) ==>
              || (a.Mono? && b.Mono? && a.name == b.name && a.keys == b.keys && |a.args| == |b.args|)
              || (a.Tuple? && b.Tuple? && |a.elts| == |b.elts|)
              || (a.Value? && b.Value? && a.value == b.value)
  {
    var x, y := Eval(s, a), Eval(s, b);
    if a.Mono? {
      assert forall i | 0 <= i < |a.args| :: x.kids[i] == Eval(s, a.args[i]);
      if b.Mono? {
        assert forall i | 0 <= i < |b.args| :: y.kids[i] == Eval(s, b.args[i]);
      }
    } else if a.Tuple? {
      assert forall i | 0 <= i < |a.elts| :: x.kids[i] == Eval(s, a.elts[i]);
      if b.Tuple? {
        assert forall i | 0 <= i < |b.elts| :: y.kids[i] == Eval(s, b.elts[i]);
      }
    }
  }

  /** Heights of parts, for the number of nested calls. */
  lemma {:induction false} KidHeight(ts: seq<Tree>, i: nat)
    requires i < |ts|
    ensures Height(ts[i]) <= MaxHeight(ts)
  {
    if i > 0 {
      KidHeight(ts[1..], i - 1);
    }
  }

  /** Nested calls that unifying two types of height `h` can take. */
  ghost function Need(a: Type, b: Type, h: nat): int
  {
    if a.Var? && b.Var? then 3 * h
    else if b.Var? then 3 * h
    else if a.Var? then 3 * h - 1
    else 3 * h - 2
  }

  ghost predicate Harmless(r: Outcome) {
    r == Ok || r == RecursionError
  }

  /** A bound type against an unbound variable: two calls, which bind it. */
  lemma UnifyWithUnbound(S: Store, y: Type, x: TVar, depth: nat)
    requires Inv(S) && !y.Var?
    requires Unbound(S, x)
    ensures Unify(S, y, Var(x), depth) == (if depth >= 2 then (Ok, Bind(S, x, y)) else (RecursionError, S))
  {
    assert Top(S, x) == x;
  }

  /** What a run of unification on a store `S` that ends in `r` and `S'` owes to an assignment:
      `eq` says that the assignment satisfies the equation, `enough` that the stack suffices. */
  ghost predicate Exact(s: Assignment, S: Store, eq: bool, enough: bool, res: (Outcome, Store))
  {
    var (r, S') := res;
    && (Solves(s, S') ==> Solves(s, S))
    && (Solves(s, S) && eq ==> Solves(s, S') && Harmless(r))
    && (Solves(s, S') && r == Ok ==> eq)
    && (Solves(s, S) && eq && enough ==> r == Ok)
  }

  /** The central theorem, for every assignment and every depth:
      no solution is gained or lost, an error other than running out of stack means that there is
      no solution, and enough stack means that a solvable equation succeeds. */
  lemma {:induction false} UnifyMostGeneral(s: Assignment, S: Store, a: Type, b: Type, depth: nat)
    requires Inv(S)
    ensures Exact(s, S, Eval(s, a) == Eval(s, b), depth >= Need(a, b, Height(Eval(s, a))),
                  Unify(S, a, b, depth))
    decreases depth, 0
  {
    if depth == 0 || a == b {
    } else if a.Var? {
      UnifyVarMostGeneral(s, S, a, b, depth);
    } else if b.Var? {
      UnifyMostGeneral(s, S, b, a, depth - 1);
      ExactOf(s, S, Eval(s, b) == Eval(s, a), depth - 1 >= Need(b, a, Height(Eval(s, b))),
              Eval(s, a) == Eval(s, b), depth >= Need(a, b, Height(Eval(s, a))), Unify(S, b, a, depth - 1));
      UnifyFlips(S, a, b, depth);
    } else {
      UnifyBoundMostGeneral(s, S, a, b, depth);
    }
  }

  /** Two bound types: by their parts. */
  lemma {:induction false} UnifyBoundMostGeneral(s: Assignment, S: Store, a: Type, b: Type, depth: nat)
    requires Inv(S)
    requires !a.Var? && !b.Var? && a != b && depth > 0
    ensures Exact(s, S, Eval(s, a) == Eval(s, b), depth >= Need(a, b, Height(Eval(s, a))),
                  Unify(S, a, b, depth))
    decreases depth, 0, 0
  {
    EvalParts(s, a, b);
    if a.Mono? && b.Mono? && a.name == b.name && a.keys == b.keys && |a.args| == |b.args| {
      UnifyAllMostGeneral(s, S, a.args, b.args, depth - 1, Eval(s, a).kids);
    } else if a.Tuple? && b.Tuple? && |a.elts| == |b.elts| {
      UnifyAllMostGeneral(s, S, a.elts, b.elts, depth - 1, Eval(s, a).kids);
    }
  }

  /** A variable against anything: by the representatives. */
  lemma {:induction false} UnifyVarMostGeneral(s: Assignment, S: Store, a: Type, b: Type, depth: nat)
    requires Inv(S)
    requires a.Var? && a != b && depth > 0
    ensures Exact(s, S, Eval(s, a) == Eval(s, b), depth >= Need(a, b, Height(Eval(s, a))),
                  Unify(S, a, b, depth))
    decreases depth, 0, 0
  {
    var x, y := FindType(S, b), Find(S, a.v);
    if x != y && !x.Var? && !y.Var? {
      FindsIfSolved(s, S, a, b);
      UnifyMostGeneral(s, S, y, x, depth - 1);
      ExactOf(s, S, Eval(s, y) == Eval(s, x), depth - 1 >= Need(y, x, Height(Eval(s, y))),
              Eval(s, a) == Eval(s, b), depth >= Need(a, b, Height(Eval(s, a))),
              Unify(S, y, x, depth - 1));
      UnifyClimbs(S, a, b, x, y, depth);
    } else {
      UnifyUnboundMostGeneral(s, S, a, b, x, y, depth);
    }
  }

  /** Identical representatives, or one that is an unbound variable. */
  lemma UnifyUnboundMostGeneral(s: Assignment, S: Store, a: Type, b: Type, x: Type, y: Type, depth: nat)
    requires Inv(S)
    requires a.Var? && a != b && depth > 0
    requires x == FindType(S, b) && y == Find(S, a.v) && (x == y || x.Var? || y.Var?)
    ensures Exact(s, S, Eval(s, a) == Eval(s, b), depth >= Need(a, b, Height(Eval(s, a))),
                  Unify(S, a, b, depth))
  {
    FindsIfSolved(s, S, a, b);
    if x == y {
    } else if y.Var? {
      if x.Var? {
        LinkSolves(s, S, x.v, y.v);
      } else {
        BindSolves(s, S, y.v, x);
      }
    } else {
      UnifyWithUnbound(S, y, x.v, depth - 1);
      BindSolves(s, S, x.v, y);
    }
  }

  /** The same run, for an equation with the same solutions. */
  lemma ExactOf(s: Assignment, S: Store, eq: bool, enough: bool, eq': bool, enough': bool, res: (Outcome, Store))
    requires Exact(s, S, eq, enough, res)
    requires Solves(s, S) ==> eq == eq'
    requires Solves(s, S) && eq' && enough' ==> enough
    ensures Exact(s, S, eq', enough', res)
  {
  }

  lemma UnifyFlips(S: Store, a: Type, b: Type, depth: nat)
    requires Inv(S) && !a.Var? && b.Var? && depth > 0
    ensures Unify(S, a, b, depth) == Unify(S, b, a, depth - 1)
  {
  }

  lemma UnifyClimbs(S: Store, a: Type, b: Type, x: Type, y: Type, depth: nat)
    requires Inv(S) && a.Var? && a != b && depth > 0
    requires x == FindType(S, b) && y == Find(S, a.v) && x != y && !y.Var?
    ensures Unify(S, a, b, depth) == Unify(S, y, x, depth - 1)
  {
  }

  /** A solution of the new store solves the old one, so it agrees on representatives. */
  lemma FindsIfSolved(s: Assignment, S: Store, a: Type, b: Type)
    requires Inv(S)
    ensures Solves(s, S) ==> Eval(s, FindType(S, a)) == Eval(s, a) && Eval(s, FindType(S, b)) == Eval(s, b)
  {
    if Solves(s, S) {
      FindSolved(s, S, a);
      FindSolved(s, S, b);
    }
  }

  lemma BindSolves(s: Assignment, S: Store, y: TVar, x: Type)
    requires Inv(S) && Unbound(S, y) && !x.Var?
    ensures Solves(s, Bind(S, y, x)) <==> Solves(s, S) && s(y) == Eval(s, x)
  {
    var S' := Bind(S, y, x);
    assert forall v | v in S && v != y :: S'[v] == S[v];
    if Solves(s, S') {
      assert s(y) == Eval(s, S'[y].parent);
      forall v | v in S ensures s(v) == Eval(s, S[v].parent) {
        assert v != y ==> S'[v] == S[v];
      }
    }
  }

  lemma LinkSolves(s: Assignment, S: Store, x: TVar, y: TVar)
    requires Inv(S) && x != y && Unbound(S, x) && Unbound(S, y)
    ensures Solves(s, Link(S, x, y)) <==> Solves(s, S) && s(x) == s(y)
  {
    var S' := Link(S, x, y);
    assert forall v | v in S && v != x && v != y :: S'[v] == S[v];
    if Solves(s, S') {
      assert s(x) == Eval(s, S'[x].parent) && s(y) == Eval(s, S'[y].parent);
      forall v | v in S ensures s(v) == Eval(s, S[v].parent) {
        assert v != x && v != y ==> S'[v] == S[v];
      }
    }
  }

  lemma {:induction false} UnifyAllMostGeneral(
      s: Assignment, S: Store, xs: seq<Type>, ys: seq<Type>, depth: nat, kids: seq<Tree>)
    requires Inv(S) && |xs| == |ys| == |kids|
    requires forall i | 0 <= i < |xs| :: kids[i] == Eval(s, xs[i])
    ensures Exact(s, S, EvalsEqual(s, xs, ys), depth >= 3 * MaxHeight(kids),
                  UnifyAll(S, xs, ys, depth))
    decreases depth, 1 + |xs|
  {
    if xs != [] {
      UnifyMostGeneral(s, S, xs[0], ys[0], depth);
      KidHeight(kids, 0);
      var (r, S1) := Unify(S, xs[0], ys[0], depth);
      if r == Ok {
        UnifyAllMostGeneral(s, S1, xs[1..], ys[1..], depth, kids[1..]);
        EvalsEqualCons(s, xs, ys);
      }
    }
  }

  lemma EvalsEqualCons(s: Assignment, xs: seq<Type>, ys: seq<Type>)
    requires |xs| == |ys| && xs != []
    ensures EvalsEqual(s, xs, ys) <==> Eval(s, xs[0]) == Eval(s, ys[0]) && EvalsEqual(s, xs[1..], ys[1..])
  {
    if EvalsEqual(s, xs[1..], ys[1..]) && Eval(s, xs[0]) == Eval(s, ys[0]) {
      forall i | 0 <= i < |xs| ensures Eval(s, xs[i]) == Eval(s, ys[i]) {
        if i > 0 {
          assert xs[i] == xs[1..][i - 1] && ys[i] == ys[1..][i - 1];
        }
      }
    }
  }

  /** The same for all assignments at once: after success the new store has exactly the solutions
      of the old one that satisfy the equation; after an error there are none. */
  lemma UnifySolutions(S: Store, a: Type, b: Type, depth: nat)
    requires Inv(S)
    ensures Unify(S, a, b, depth).0 == Ok ==>
              forall s: Assignment ::
                Solves(s, Unify(S, a, b, depth).1) <==> Solves(s, S) && Eval(s, a) == Eval(s, b)
    ensures !Harmless(Unify(S, a, b, depth).0) ==>
              forall s: Assignment :: !(Solves(s, S) && Eval(s, a) == Eval(s, b))
  {
    var (r, S') := Unify(S, a, b, depth);
    forall s: Assignment
      ensures r == Ok ==> (Solves(s, S') <==> Solves(s, S) && Eval(s, a) == Eval(s, b))
      ensures !Harmless(r) ==> !(Solves(s, S) && Eval(s, a) == Eval(s, b))
    {
      UnifyMostGeneral(s, S, a, b, depth);
    }
  }

  /** One solution is enough for termination and success: the stack it takes depends only on the
      height of the solution. */
  lemma UnifySucceeds(s: Assignment, S: Store, a: Type, b: Type, depth: nat)
    requires Inv(S) && Solves(s, S) && Eval(s, a) == Eval(s, b)
    requires depth >= 3 * Height(Eval(s, a))
    ensures Unify(S, a, b, depth).0 == Ok
  {
    UnifyMostGeneral(s, S, a, b, depth);
  }

  /** There is no occurs check: equating a variable with a type that contains it succeeds, and the
      store then has no solution by finite trees at all. */
  lemma NoOccursCheck(x: TVar, oid: nat, depth: nat)
    requires depth > 0
    ensures var t := Mono(oid, "list", ["elt"], [Var(x)]);
            && Unify(map[], Var(x), t, depth) == (Ok, map[x := Cell(t, 0)])
            && forall s: Assignment :: !Solves(s, map[x := Cell(t, 0)])
  {
    var t := Mono(oid, "list", ["elt"], [Var(x)]);
    var S: Store := map[];
    assert Top(S, x) == x && Unify(S, Var(x), t, depth) == (Ok, Bind(S, x, t));
    var S' := map[x := Cell(t, 0)];
    forall s: Assignment ensures !Solves(s, S') {
      NotItsOwnPart(s(x));
      assert Eval(s, t).kids[0] == Eval(s, t.args[0]);
      assert S'[x].parent == t;
    }
  }

  lemma NotItsOwnPart(t: Tree)
    ensures forall i | 0 <= i < |t.kids| :: t.kids[i] != t
  {
    forall i | 0 <= i < |t.kids| ensures t.kids[i] != t {
      KidHeight(t.kids, i);
    }
  }

  // ----- equality -----

  /** Types that compare equal mean the same under every solution. */
  lemma {:induction false} EqualMeansSame(s: Assignment, S: Store, a: Type, b: Type, d: nat)
    requires Inv(S) && Solves(s, S) && EqThroughFind(S, a, b, d) == Yes
    ensures Eval(s, a) == Eval(s, b)
    decreases d, 0
  {
    FindSolved(s, S, a);
    FindSolved(s, S, b);
    var x, y := FindType(S, a), FindType(S, b);
    if x != y {
      EvalParts(s, x, y);
      if x.Mono? {
        AllEqualMeanSame(s, S, x.args, y.args, d - 1);
      } else if x.Tuple? {
        AllEqualMeanSame(s, S, x.elts, y.elts, d - 1);
      }
    }
  }

  lemma {:induction false} AllEqualMeanSame(s: Assignment, S: Store, xs: seq<Type>, ys: seq<Type>, d: nat)
    requires Inv(S) && Solves(s, S) && |xs| == |ys| && EqAll(S, xs, ys, d) == Yes
    ensures EvalsEqual(s, xs, ys)
    decreases d, 1 + |xs|
  {
    if xs != [] {
      EqualMeansSame(s, S, xs[0], ys[0], d);
      AllEqualMeanSame(s, S, xs[1..], ys[1..], d);
      EvalsEqualCons(s, xs, ys);
    }
  }

  /** In a solvable store the comparison ends. */
  lemma {:induction false} EqualityEnds(s: Assignment, S: Store, a: Type, b: Type, d: nat)
    requires Inv(S) && Solves(s, S) && d >= Height(Eval(s, a))
    ensures EqThroughFind(S, a, b, d) != TooDeep
    decreases d, 0
  {
    FindSolved(s, S, a);
    var x, y := FindType(S, a), FindType(S, b);
    if x == y {
    } else if x.Mono? && y.Mono? && |x.args| == |y.args| {
      AllEqualityEnds(s, S, x.args, y.args, d - 1, Eval(s, x).kids);
    } else if x.Tuple? && y.Tuple? && |x.elts| == |y.elts| {
      AllEqualityEnds(s, S, x.elts, y.elts, d - 1, Eval(s, x).kids);
    }
  }

  lemma {:induction false} AllEqualityEnds(
      s: Assignment, S: Store, xs: seq<Type>, ys: seq<Type>, d: nat, kids: seq<Tree>)
    requires Inv(S) && Solves(s, S) && |xs| == |ys| == |kids| && d >= MaxHeight(kids)
    requires forall i | 0 <= i < |xs| :: kids[i] == Eval(s, xs[i])
    ensures EqAll(S, xs, ys, d) != TooDeep
    decreases d, 1 + |xs|
  {
    if xs != [] {
      KidHeight(kids, 0);
      EqualityEnds(s, S, xs[0], ys[0], d);
      AllEqualityEnds(s, S, xs[1..], ys[1..], d, kids[1..]);
    }
  }

  /** After success the two sides never compare unequal, and they compare equal as soon as the
      store has a solution of no more than the allowed height. */
  lemma UnifyMakesEqual(S: Store, a: Type, b: Type, depth: nat, d: nat)
    requires Inv(S) && Unify(S, a, b, depth).0 == Ok
    ensures EqThroughFind(Unify(S, a, b, depth).1, a, b, d) != No
    ensures forall s: Assignment :: Solves(s, Unify(S, a, b, depth).1) && d >= Height(Eval(s, a)) ==>
              EqThroughFind(Unify(S, a, b, depth).1, a, b, d) == Yes
  {
    var S' := Unify(S, a, b, depth).1;
    UnifyMakesAgree(S, a, b, depth, d);
    AgreeIsNotNo(S', a, b, d);
    forall s: Assignment | Solves(s, S') && d >= Height(Eval(s, a)) ensures EqThroughFind(S', a, b, d) == Yes {
      EqualityEnds(s, S', a, b, d);
    }
  }

  // ----- runs -----

  /** One call of `unify`; what it raises is caught by the caller, which goes on. */
  datatype Equation = Equation(lhs: Type, rhs: Type, depth: nat)

  ghost function Run(S: Store, eqs: seq<Equation>): (S': Store)
    requires Inv(S)
    ensures Inv(S')
    decreases |eqs|
  {
    if eqs == [] then S
    else Run(Unify(S, eqs[0].lhs, eqs[0].rhs, eqs[0].depth).1, eqs[1..])
  }

  ghost predicate Satisfies(s: Assignment, eqs: seq<Equation>) {
    forall i | 0 <= i < |eqs| :: Eval(s, eqs[i].lhs) == Eval(s, eqs[i].rhs)
  }

  lemma {:induction false} RunLeads(S: Store, eqs: seq<Equation>) returns (steps: seq<Step>)
    requires Inv(S)
    ensures Leads(S, steps, Run(S, eqs))
    decreases |eqs|
  {
    steps := [];
    if eqs != [] {
      var e := eqs[0];
      var S1 := Unify(S, e.lhs, e.rhs, e.depth).1;
      var first := UnifyLeads(S, e.lhs, e.rhs, e.depth);
      var rest := RunLeads(S1, eqs[1..]);
      LeadsConcat(S, first, S1, rest, Run(S, eqs));
      steps := first + rest;
    }
  }

  /** Over any run from fresh variables: links are acyclic and climb in rank, a representative of
      rank k stands for at least 2^k variables, and a walk takes at most log2 of their number. */
  lemma RunKeepsForestShallow(eqs: seq<Equation>)
    ensures Inv(Run(map[], eqs)) && Sized(Run(map[], eqs))
    ensures forall v | v in Run(map[], eqs) :: Pow2(Steps(Run(map[], eqs), v)) <= |Run(map[], eqs)|
  {
    var S: Store := map[];
    var S' := Run(S, eqs);
    var steps := RunLeads(S, eqs);
    SizedAfter(S, steps, S');
    forall v | v in S' ensures Pow2(Steps(S', v)) <= |S'| {
      FindIsLogarithmic(S', v);
    }
  }

  /** Over any run: no equality is lost, and representatives only move forward. */
  lemma RunKeepsEqual(S: Store, eqs: seq<Equation>, a: Type, b: Type, d: nat)
    requires Inv(S) && EqThroughFind(S, a, b, d) == Yes
    ensures EqThroughFind(Run(S, eqs), a, b, d) == Yes
    ensures FindType(Run(S, eqs), FindType(S, a)) == FindType(Run(S, eqs), a)
  {
    var steps := RunLeads(S, eqs);
    EqualForever(S, steps, Run(S, eqs), a, b, d);
    FindAfter(S, steps, Run(S, eqs), a);
  }

  /** Every call of the run returns. */
  ghost predicate Succeeds(S: Store, eqs: seq<Equation>)
    requires Inv(S)
    decreases |eqs|
  {
    eqs != [] ==>
      && Unify(S, eqs[0].lhs, eqs[0].rhs, eqs[0].depth).0 == Ok
      && Succeeds(Unify(S, eqs[0].lhs, eqs[0].rhs, eqs[0].depth).1, eqs[1..])
  }

  /** Over any run: the solutions left lie between those of the start and those that also satisfy
      every equation; if every call succeeds, they are the latter. */
  lemma {:induction false} RunSolutions(s: Assignment, S: Store, eqs: seq<Equation>)
    requires Inv(S)
    ensures Solves(s, Run(S, eqs)) ==> Solves(s, S)
    ensures Solves(s, S) && Satisfies(s, eqs) ==> Solves(s, Run(S, eqs))
    ensures Succeeds(S, eqs) ==> (Solves(s, Run(S, eqs)) <==> Solves(s, S) && Satisfies(s, eqs))
    decreases |eqs|
  {
    if eqs != [] {
      var e := eqs[0];
      UnifyMostGeneral(s, S, e.lhs, e.rhs, e.depth);
      RunSolutions(s, Unify(S, e.lhs, e.rhs, e.depth).1, eqs[1..]);
      assert Satisfies(s, eqs) <==> Eval(s, e.lhs) == Eval(s, e.rhs) && Satisfies(s, eqs[1..]) by {
        assert forall i | 0 < i < |eqs| :: eqs[i] == eqs[1..][i - 1];
      }
    }
  }
}
