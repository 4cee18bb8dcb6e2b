/**
What any sequence of unifications does to the forest of type variables.  Every change is one of
two steps, binding an unbound variable to a type or linking two unbound variables; the
properties below hold of all sequences of such steps and so of all runs.
*/
module UnionFind {
  import opened Types

  datatype Step = SBind(y: TVar, x: Type) | SLink(x': TVar, y: TVar)

  ghost predicate Enabled(S: Store, st: Step)
  {
    match st
    case SBind(y, x) => Unbound(S, y) && !x.Var?
    case SLink(x, y) => x != y && Unbound(S, x) && Unbound(S, y)
  }

  ghost function Take(S: Store, st: Step): (S': Store)
    requires Inv(S) && Enabled(S, st)
    ensures Inv(S')
  {
    match st
    case SBind(y, x) => Bind(S, y, x)
    case SLink(x, y) => Link(S, x, y)
  }

  /** `steps` leads from `S` to `S'`. */
  ghost predicate Leads(S: Store, steps: seq<Step>, S': Store)
    requires Inv(S)
    decreases |steps|
  {
    if steps == [] then S == S'
    else Enabled(S, steps[0]) && Leads(Take(S, steps[0]), steps[1..], S')
  }

  lemma LeadsCons(S: Store, st: Step, steps: seq<Step>, S': Store)
    requires Inv(S) && Enabled(S, st) && Leads(Take(S, st), steps, S')
    ensures Leads(S, [st] + steps, S')
  {
    assert ([st] + steps)[1..] == steps;
  }

  lemma ConsConcat<T>(xs: seq<T>, ys: seq<T>)
    requires xs != []
    ensures [xs[0]] + (xs[1..] + ys) == xs + ys
  {
  }

  lemma {:induction false} LeadsConcat(S: Store, xs: seq<Step>, S1: Store, ys: seq<Step>, S2: Store)
    requires Inv(S) && Inv(S1) && Leads(S, xs, S1) && Leads(S1, ys, S2)
    ensures Leads(S, xs + ys, S2)
    decreases |xs|
  {
    if xs == [] {
      assert xs + ys == ys;
    } else {
      LeadsConcat(Take(S, xs[0]), xs[1..], S1, ys, S2);
      LeadsCons(S, xs[0], xs[1..] + ys, S2);
      ConsConcat(xs, ys);
    }
  }

  /** Every unification, successful or not, is a sequence of steps. */
  lemma {:induction false} UnifyLeads(S: Store, a: Type, b: Type, depth: nat) returns (steps: seq<Step>)
    requires Inv(S)
    ensures Leads(S, steps, Unify(S, a, b, depth).1)
    decreases depth, 0
  {
    steps := [];
    if depth == 0 || a == b {
    } else if a.Var? {
      var x, y := FindType(S, b), Find(S, a.v);
      if x == y {
      } else if y.Var? {
        steps := [if x.Var? then SLink(x.v, y.v) else SBind(y.v, x)];
      } else {
        steps := UnifyLeads(S, y, x, depth - 1);
      }
    } else if b.Var? {
      steps := UnifyLeads(S, b, a, depth - 1);
    } else if a.Mono? && b.Mono? && a.name == b.name && a.keys == b.keys && |a.args| == |b.args| {
      steps := UnifyAllLeads(S, a.args, b.args, depth - 1);
    } else if a.Tuple? && b.Tuple? && |a.elts| == |b.elts| {
      steps := UnifyAllLeads(S, a.elts, b.elts, depth - 1);
    }
  }

  lemma {:induction false} UnifyAllLeads(S: Store, xs: seq<Type>, ys: seq<Type>, depth: nat) returns (steps: seq<Step>)
    requires Inv(S) && |xs| == |ys|
    ensures Leads(S, steps, UnifyAll(S, xs, ys, depth).1)
    decreases depth, 1 + |xs|
  {
    steps := [];
    if xs != [] {
      steps := UnifyLeads(S, xs[0], ys[0], depth);
      var (r, S1) := Unify(S, xs[0], ys[0], depth);
      if r == Ok {
        var rest := UnifyAllLeads(S1, xs[1..], ys[1..], depth);
        LeadsConcat(S, steps, S1, rest, UnifyAll(S1, xs[1..], ys[1..], depth).1);
        steps := steps + rest;
      }
    }
  }

  // ----- representatives -----

  /** The variable that ends up below the other one in a link. */
  ghost function Lower(S: Store, x: TVar, y: TVar): TVar {
    if Rank(S, x) < Rank(S, y) then x else y
  }

  ghost function Upper(S: Store, x: TVar, y: TVar): TVar {
    if Rank(S, x) < Rank(S, y) then y else x
  }

  /** A step sends the chains that ended in the lower variable on to the upper one, and leaves
      all other chains alone. */
  lemma {:induction false} TopAfter(S: Store, st: Step, v: TVar)
    requires Inv(S) && Enabled(S, st)
    ensures st.SBind? ==> Top(Take(S, st), v) == Top(S, v)
    ensures st.SLink? ==>
              Top(Take(S, st), v) ==
              if Top(S, v) == Lower(S, st.x', st.y) then Upper(S, st.x', st.y) else Top(S, v)
    decreases Above(S, v)
  {
    var S' := Take(S, st);
    if Linked(S, v) {
      AboveShrinks(S, v);
      TopAfter(S, st, Parent(S, v).v);
      assert Parent(S', v) == Parent(S, v);
    } else if st.SLink? {
      var lo, hi := Lower(S, st.x', st.y), Upper(S, st.x', st.y);
      assert !Linked(S', hi) && Parent(S', lo) == Var(hi);
      assert Top(S', hi) == hi;
    }
  }

  /** The representative of a former representative is the representative. */
  lemma FindAfterStep(S: Store, st: Step, t: Type)
    requires Inv(S) && Enabled(S, st)
    ensures FindType(Take(S, st), FindType(S, t)) == FindType(Take(S, st), t)
    ensures !FindType(S, t).Var? ==> FindType(Take(S, st), t) == FindType(S, t)
  {
    if t.Var? {
      TopAfter(S, st, t.v);
      var r := FindType(S, t);
      if r.Var? {
        TopAfter(S, st, r.v);
        assert Top(S, r.v) == r.v;
      }
    }
  }

  lemma {:induction false} FindAfter(S: Store, steps: seq<Step>, S': Store, t: Type)
    requires Inv(S) && Inv(S') && Leads(S, steps, S')
    ensures FindType(S', FindType(S, t)) == FindType(S', t)
    ensures !FindType(S, t).Var? ==> FindType(S', t) == FindType(S, t)
    decreases |steps|
  {
    if steps != [] {
      var S1 := Take(S, steps[0]);
      FindAfterStep(S, steps[0], t);
      FindAfter(S1, steps[1..], S', t);
      FindAfter(S1, steps[1..], S', FindType(S, t));
    } else if t.Var? && FindType(S, t).Var? {
      assert Top(S, FindType(S, t).v) == FindType(S, t).v;
    }
  }

  // ----- equality never gets lost -----

  /** Types that compare equal go on comparing equal, whatever is unified later. */
  lemma {:induction false} EqualForever(S: Store, steps: seq<Step>, S': Store, a: Type, b: Type, d: nat)
    requires Inv(S) && Inv(S') && Leads(S, steps, S')
    requires EqThroughFind(S, a, b, d) == Yes
    ensures EqThroughFind(S', a, b, d) == Yes
    decreases d, 0
  {
    FindAfter(S, steps, S', a);
    FindAfter(S, steps, S', b);
    var x, y := FindType(S, a), FindType(S, b);
    if x == y || d == 0 {
    } else if x.Mono? {
      AllEqualForever(S, steps, S', x.args, y.args, d - 1);
    } else if x.Tuple? {
      AllEqualForever(S, steps, S', x.elts, y.elts, d - 1);
    }
  }

  lemma {:induction false} AllEqualForever(S: Store, steps: seq<Step>, S': Store, xs: seq<Type>, ys: seq<Type>, d: nat)
    requires Inv(S) && Inv(S') && Leads(S, steps, S') && |xs| == |ys|
    requires EqAll(S, xs, ys, d) == Yes
    ensures EqAll(S', xs, ys, d) == Yes
    decreases d, 1 + |xs|
  {
    if xs != [] {
      EqualForever(S, steps, S', xs[0], ys[0], d);
      AllEqualForever(S, steps, S', xs[1..], ys[1..], d);
    }
  }

  /** No comparison of parts within `d` levels finds a difference.  This also speaks of the
      cyclic types that unification without an occurs check can build. */
  ghost predicate Agree(S: Store, a: Type, b: Type, d: nat)
    requires Inv(S)
    decreases d, 0
  {
    var x, y := FindType(S, a), FindType(S, b);
    || x == y
    || d == 0
    || (x.Mono? && y.Mono? && x.name == y.name && x.keys == y.keys && AllAgree(S, x.args, y.args, d - 1))
    || (x.Tuple? && y.Tuple? && AllAgree(S, x.elts, y.elts, d - 1))
    || (x.Value? && y.Value? && x.value == y.value)
  }

  ghost predicate AllAgree(S: Store, xs: seq<Type>, ys: seq<Type>, d: nat)
    requires Inv(S)
    decreases d, 1
  {
    |xs| == |ys| && forall i | 0 <= i < |xs| :: Agree(S, xs[i], ys[i], d)
  }

  lemma {:induction false} AgreeForever(S: Store, steps: seq<Step>, S': Store, a: Type, b: Type, d: nat)
    requires Inv(S) && Inv(S') && Leads(S, steps, S') && Agree(S, a, b, d)
    ensures Agree(S', a, b, d)
    decreases d, 0
  {
    FindAfter(S, steps, S', a);
    FindAfter(S, steps, S', b);
    var x, y := FindType(S, a), FindType(S, b);
    if x == y || d == 0 {
    } else if x.Mono? {
      AllAgreeForever(S, steps, S', x.args, y.args, d - 1);
    } else if x.Tuple? {
      AllAgreeForever(S, steps, S', x.elts, y.elts, d - 1);
    }
  }

  lemma {:induction false} AllAgreeForever(S: Store, steps: seq<Step>, S': Store, xs: seq<Type>, ys: seq<Type>, d: nat)
    requires Inv(S) && Inv(S') && Leads(S, steps, S') && AllAgree(S, xs, ys, d)
    ensures AllAgree(S', xs, ys, d)
    decreases d, 1
  {
    forall i | 0 <= i < |xs| ensures Agree(S', xs[i], ys[i], d) {
      AgreeForever(S, steps, S', xs[i], ys[i], d);
    }
  }

  /** Types that agree never compare unequal. */
  lemma {:induction false} AgreeIsNotNo(S: Store, a: Type, b: Type, d: nat)
    requires Inv(S) && Agree(S, a, b, d)
    ensures EqThroughFind(S, a, b, d) != No
    decreases d, 0
  {
    var x, y := FindType(S, a), FindType(S, b);
    if x == y || d == 0 {
    } else if x.Mono? {
      AllAgreeIsNotNo(S, x.args, y.args, d - 1);
    } else if x.Tuple? {
      AllAgreeIsNotNo(S, x.elts, y.elts, d - 1);
    }
  }

  lemma {:induction false} AllAgreeIsNotNo(S: Store, xs: seq<Type>, ys: seq<Type>, d: nat)
    requires Inv(S) && AllAgree(S, xs, ys, d)
    ensures EqAll(S, xs, ys, d) != No
    decreases d, 1 + |xs|
  {
    if xs != [] {
      AgreeIsNotNo(S, xs[0], ys[0], d);
      AllAgreeIsNotNo(S, xs[1..], ys[1..], d);
    }
  }

  /** After a successful unification the two sides agree at every depth. */
  lemma {:induction false} UnifyMakesAgree(S: Store, a: Type, b: Type, depth: nat, d: nat)
    requires Inv(S) && Unify(S, a, b, depth).0 == Ok
    ensures Agree(Unify(S, a, b, depth).1, a, b, d)
    decreases depth, 0
  {
    var S' := Unify(S, a, b, depth).1;
    if a == b || d == 0 {
    } else if a.Var? {
      UnifyVarMakesAgree(S, a, b, depth, d);
    } else if b.Var? {
      UnifyMakesAgree(S, b, a, depth - 1, d);
      AgreeSymmetric(S', b, a, d);
    } else if a.Mono? {
      UnifyAllMakesAgree(S, a.args, b.args, depth - 1, d - 1);
    } else if a.Tuple? {
      UnifyAllMakesAgree(S, a.elts, b.elts, depth - 1, d - 1);
    }
  }

  lemma {:induction false} UnifyVarMakesAgree(S: Store, a: Type, b: Type, depth: nat, d: nat)
    requires Inv(S) && a.Var? && a != b && Unify(S, a, b, depth).0 == Ok
    ensures Agree(Unify(S, a, b, depth).1, a, b, d)
    decreases depth, 0, 0
  {
    var S' := Unify(S, a, b, depth).1;
    var x, y := FindType(S, b), Find(S, a.v);
    var steps := UnifyLeads(S, a, b, depth);
    FindAfter(S, steps, S', a);
    FindAfter(S, steps, S', b);
    if x == y {
    } else if y.Var? {
      if !x.Var? {
        assert Find(S', y.v) == x;
      } else {
        TopAfter(S, SLink(x.v, y.v), x.v);
        TopAfter(S, SLink(x.v, y.v), y.v);
      }
    } else {
      UnifyMakesAgree(S, y, x, depth - 1, d);
    }
  }

  lemma {:induction false} UnifyAllMakesAgree(S: Store, xs: seq<Type>, ys: seq<Type>, depth: nat, d: nat)
    requires Inv(S) && |xs| == |ys| && UnifyAll(S, xs, ys, depth).0 == Ok
    ensures AllAgree(UnifyAll(S, xs, ys, depth).1, xs, ys, d)
    decreases depth, 1 + |xs|
  {
    if xs != [] {
      var S1 := Unify(S, xs[0], ys[0], depth).1;
      var S2 := UnifyAll(S, xs, ys, depth).1;
      UnifyMakesAgree(S, xs[0], ys[0], depth, d);
      var steps := UnifyAllLeads(S1, xs[1..], ys[1..], depth);
      AgreeForever(S1, steps, S2, xs[0], ys[0], d);
      UnifyAllMakesAgree(S1, xs[1..], ys[1..], depth, d);
      forall i | 0 <= i < |xs| ensures Agree(S2, xs[i], ys[i], d) {
        assert i > 0 ==> xs[i] == xs[1..][i - 1] && ys[i] == ys[1..][i - 1];
      }
    }
  }

  lemma {:induction false} AgreeSymmetric(S: Store, a: Type, b: Type, d: nat)
    requires Inv(S) && Agree(S, a, b, d)
    ensures Agree(S, b, a, d)
    decreases d
  {
    var x, y := FindType(S, a), FindType(S, b);
    if x == y || d == 0 {
    } else if x.Mono? {
      forall i | 0 <= i < |x.args| ensures Agree(S, y.args[i], x.args[i], d - 1) {
        AgreeSymmetric(S, x.args[i], y.args[i], d - 1);
      }
    } else if x.Tuple? {
      forall i | 0 <= i < |x.elts| ensures Agree(S, y.elts[i], x.elts[i], d - 1) {
        AgreeSymmetric(S, x.elts[i], y.elts[i], d - 1);
      }
    }
  }

  // ----- ranks and sizes -----

  ghost function Pow2(n: nat): (p: nat)
    ensures p >= 1
  {
    if n == 0 then 1 else 2 * Pow2(n - 1)
  }

  lemma {:induction false} Pow2Monotone(m: nat, n: nat)
    requires m <= n
    ensures Pow2(m) <= Pow2(n)
  {
    if m < n {
      Pow2Monotone(m, n - 1);
    }
  }

  /** The variables represented by `r`. */
  ghost function Class(S: Store, r: TVar): set<TVar>
    requires Inv(S)
  {
    set v | v in S.Keys + {r} && Top(S, v) == r
  }

  /** A variable of rank k at the end of its chain stands for at least 2^k variables. */
  ghost predicate Sized(S: Store)
    requires Inv(S)
  {
    forall r | r in S && !Linked(S, r) :: |Class(S, r)| >= Pow2(S[r].rank)
  }

  lemma SizedAt(S: Store, r: TVar)
    requires Inv(S) && Sized(S) && !Linked(S, r)
    ensures |Class(S, r)| >= Pow2(Rank(S, r))
  {
    if r !in S {
      assert Class(S, r) >= {r};
      Cardinality({r}, Class(S, r));
    }
  }

  lemma {:induction false} Cardinality<T>(a: set<T>, b: set<T>)
    requires a <= b
    ensures |a| <= |b|
  {
    if a != {} {
      var x :| x in a;
      Cardinality(a - {x}, b - {x});
    }
  }

  lemma SizedAfterBind(S: Store, y: TVar, x: Type)
    requires Inv(S) && Sized(S) && Unbound(S, y) && !x.Var?
    ensures Sized(Bind(S, y, x))
  {
    var S' := Bind(S, y, x);
    forall r | r in S' && !Linked(S', r) ensures |Class(S', r)| >= Pow2(S'[r].rank) {
      forall v ensures Top(S', v) == Top(S, v) {
        TopAfter(S, SBind(y, x), v);
      }
      SizedAt(S, r);
      Cardinality(Class(S, r), Class(S', r));
    }
  }

  /** The class of the upper variable swallows the class of the lower one. */
  lemma ClassAfterLink(S: Store, x: TVar, y: TVar, r: TVar)
    requires Inv(S) && x != y && Unbound(S, x) && Unbound(S, y)
    ensures r != Lower(S, x, y) ==> Class(S, r) <= Class(Link(S, x, y), r)
    ensures Class(S, Lower(S, x, y)) <= Class(Link(S, x, y), Upper(S, x, y))
  {
    var S' := Link(S, x, y);
    forall v ensures Top(S', v) == if Top(S, v) == Lower(S, x, y) then Upper(S, x, y) else Top(S, v) {
      TopAfter(S, SLink(x, y), v);
    }
    assert S'.Keys == S.Keys + {x, y};
  }

  lemma SizedAfterLink(S: Store, x: TVar, y: TVar)
    requires Inv(S) && Sized(S) && x != y && Unbound(S, x) && Unbound(S, y)
    ensures Sized(Link(S, x, y))
  {
    var S' := Link(S, x, y);
    var lo, hi := Lower(S, x, y), Upper(S, x, y);
    SizedAt(S, lo);
    SizedAt(S, hi);
    var both := Class(S, lo) + Class(S, hi);
    assert Class(S, lo) !! Class(S, hi);
    assert |both| == |Class(S, lo)| + |Class(S, hi)|;
    ClassAfterLink(S, x, y, hi);
    Cardinality(both, Class(S', hi));
    forall r | r in S' && !Linked(S', r) ensures |Class(S', r)| >= Pow2(S'[r].rank) {
      assert r != lo;
      if r != hi {
        SizedAt(S, r);
        ClassAfterLink(S, x, y, r);
        Cardinality(Class(S, r), Class(S', r));
      }
    }
  }

  lemma {:induction false} SizedAfter(S: Store, steps: seq<Step>, S': Store)
    requires Inv(S) && Inv(S') && Sized(S) && Leads(S, steps, S')
    ensures Sized(S')
    decreases |steps|
  {
    if steps != [] {
      if steps[0].SBind? {
        SizedAfterBind(S, steps[0].y, steps[0].x);
      } else {
        SizedAfterLink(S, steps[0].x', steps[0].y);
      }
      SizedAfter(Take(S, steps[0]), steps[1..], S');
    }
  }

  /** Each link climbs at least one rank. */
  lemma {:induction false} StepsClimb(S: Store, v: TVar)
    requires Inv(S)
    ensures Rank(S, v) + Steps(S, v) <= Rank(S, Top(S, v))
    decreases Above(S, v)
  {
    if Linked(S, v) {
      AboveShrinks(S, v);
      StepsClimb(S, Parent(S, v).v);
    }
  }

  /** The walk of `find` over n variables takes at most log2(n) steps. */
  lemma FindIsLogarithmic(S: Store, v: TVar)
    requires Inv(S) && Sized(S) && v in S
    ensures Pow2(Steps(S, v)) <= |S|
  {
    var t := Top(S, v);
    StepsClimb(S, v);
    TopIsStored(S, v);
    SizedAt(S, t);
    Pow2Monotone(Steps(S, v), Rank(S, t));
    Cardinality(Class(S, t), S.Keys);
  }

  lemma {:induction false} TopIsStored(S: Store, v: TVar)
    requires Inv(S) && v in S
    ensures Top(S, v) in S
    decreases Above(S, v)
  {
    if Linked(S, v) {
      AboveShrinks(S, v);
      TopIsStored(S, Parent(S, v).v);
    }
  }
}
