/**
Which error unification reports: a clash of two types is a `UnificationError`, parameters of one type
with different names are an `AssertionError`, and `RecursionError` means that the stack did not suffice
or that the bindings have become cyclic.
*/
module UnificationErrors {
  import opened Types
  import opened Unification

  // ----- two types that meet -----

  /** What two bound types must have in common before their parts are compared. */
  datatype Head = HMono(name: string) | HTuple(length: nat) | HValue(value: int)

  ghost function HeadOf(t: Type): Head
    requires !t.Var?
  {
    match t
    case Mono(_, name, _, _) => HMono(name)
    case Tuple(_, elts) => HTuple(|elts|)
    case Value(_, value) => HValue(value)
  }

  /** Types of one name that disagree about their parameters. */
  ghost predicate BadKeys(x: Type, y: Type) {
    x.Mono? && y.Mono? && x.name == y.name && !(x.keys == y.keys && |x.args| == |y.args|)
  }

  /** Types with different heads raise `UnificationError`, and types of one name with different
      parameters `AssertionError`; nothing is bound. */
  lemma ClashIsReported(S: Store, a: Type, b: Type, depth: nat)
    requires Inv(S) && depth >= 3
    requires !FindType(S, a).Var? && !FindType(S, b).Var?
    ensures HeadOf(FindType(S, a)) != HeadOf(FindType(S, b)) ==> Unify(S, a, b, depth) == (UnificationError, S)
    ensures BadKeys(FindType(S, a), FindType(S, b)) ==> Unify(S, a, b, depth) == (AssertionError, S)
  {
    var x, y := FindType(S, a), FindType(S, b);
    if HeadOf(x) != HeadOf(y) || BadKeys(x, y) {
      BoundClash(S, x, y, depth - 2);
      BoundClash(S, x, y, depth - 1);
      BoundClash(S, x, y, depth);
      if a.Var? {
        assert Unify(S, a, b, depth) == Unify(S, x, y, depth - 1);
      } else if b.Var? {
        BoundClash(S, y, x, depth - 2);
        assert Unify(S, b, a, depth - 1) == Unify(S, y, x, depth - 2);
        UnifyFlips(S, a, b, depth);
      }
    }
  }

  lemma BoundClash(S: Store, x: Type, y: Type, depth: nat)
    requires Inv(S) && !x.Var? && !y.Var? && depth >= 1
    ensures HeadOf(x) != HeadOf(y) ==> Unify(S, x, y, depth) == (UnificationError, S)
    ensures BadKeys(x, y) ==> Unify(S, x, y, depth) == (AssertionError, S)
  {
  }

  // ----- parameters -----

  /** The parameters that each name has: what the constructors of the type classes give it. */
  type Signature = map<string, seq<string>>

  ghost predicate Keyed(sig: Signature, t: Type) {
    match t
    case Var(_) => true
    case Mono(_, name, keys, args) =>
      && name in sig && keys == sig[name] && |args| == |keys|
      && forall i | 0 <= i < |args| :: Keyed(sig, args[i])
    case Tuple(_, elts) => forall i | 0 <= i < |elts| :: Keyed(sig, elts[i])
    case Value(_, _) => true
  }

  ghost predicate AllKeyed(sig: Signature, ts: seq<Type>) {
    forall i | 0 <= i < |ts| :: Keyed(sig, ts[i])
  }

  ghost predicate KeyedStore(sig: Signature, S: Store) {
    forall v | v in S :: Keyed(sig, S[v].parent)
  }

  lemma FindIsKeyed(sig: Signature, S: Store, t: Type)
    requires Inv(S) && KeyedStore(sig, S) && Keyed(sig, t)
    ensures Keyed(sig, FindType(S, t))
  {
  }

  /** Where equal names have equal parameters the assertion never fails, and it stays that way. */
  lemma {:induction false} NoAssertionError(sig: Signature, S: Store, a: Type, b: Type, depth: nat)
    requires Inv(S) && KeyedStore(sig, S) && Keyed(sig, a) && Keyed(sig, b)
    ensures Unify(S, a, b, depth).0 != AssertionError && KeyedStore(sig, Unify(S, a, b, depth).1)
    decreases depth, 0
  {
    if depth == 0 || a == b {
    } else if a.Var? {
      VarNoAssertionError(sig, S, a, b, depth);
    } else if b.Var? {
      NoAssertionError(sig, S, b, a, depth - 1);
      UnifyFlips(S, a, b, depth);
    } else if a.Mono? && b.Mono? && a.name == b.name {
      NoAssertionErrors(sig, S, a.args, b.args, depth - 1);
    } else if a.Tuple? && b.Tuple? && |a.elts| == |b.elts| {
      NoAssertionErrors(sig, S, a.elts, b.elts, depth - 1);
    }
  }

  lemma {:induction false} VarNoAssertionError(sig: Signature, S: Store, a: Type, b: Type, depth: nat)
    requires Inv(S) && KeyedStore(sig, S) && Keyed(sig, a) && Keyed(sig, b) && a.Var? && a != b && depth > 0
    ensures Unify(S, a, b, depth).0 != AssertionError && KeyedStore(sig, Unify(S, a, b, depth).1)
    decreases depth, 0, 0
  {
    FindIsKeyed(sig, S, a);
    FindIsKeyed(sig, S, b);
    var x, y := FindType(S, b), Find(S, a.v);
    if x != y && !y.Var? {
      NoAssertionError(sig, S, y, x, depth - 1);
    }
  }

  lemma {:induction false} NoAssertionErrors(sig: Signature, S: Store, xs: seq<Type>, ys: seq<Type>, depth: nat)
    requires Inv(S) && KeyedStore(sig, S) && |xs| == |ys| && AllKeyed(sig, xs) && AllKeyed(sig, ys)
    ensures UnifyAll(S, xs, ys, depth).0 != AssertionError && KeyedStore(sig, UnifyAll(S, xs, ys, depth).1)
    decreases depth, 1 + |xs|
  {
    if xs != [] {
      NoAssertionError(sig, S, xs[0], ys[0], depth);
      var (r, S1) := Unify(S, xs[0], ys[0], depth);
      if r == Ok {
        NoAssertionErrors(sig, S1, xs[1..], ys[1..], depth);
      }
    }
  }

  // ----- running out of stack -----

  ghost function Larger(m: nat, n: nat): nat {
    if m >= n then m else n
  }

  /** If the bindings that a call leaves still have a solution, the call has not run out of a stack of
      three times the height of either side, whether or not the two sides are equal. */
  lemma {:induction false} EndsInTime(s: Assignment, S: Store, a: Type, b: Type, depth: nat, h: nat)
    requires Inv(S) && Solves(s, Unify(S, a, b, depth).1)
    requires h >= Height(Eval(s, a)) && h >= Height(Eval(s, b)) && depth >= Need(a, b, h)
    ensures Unify(S, a, b, depth).0 != RecursionError
    decreases depth, 0
  {
    UnifyMostGeneral(s, S, a, b, depth);
    if a == b {
    } else if a.Var? {
      VarEndsInTime(s, S, a, b, depth, h);
    } else if b.Var? {
      UnifyFlips(S, a, b, depth);
      EndsInTime(s, S, b, a, depth - 1, h);
    } else {
      BoundEndsInTime(s, S, a, b, depth, h);
    }
  }

  lemma {:induction false} VarEndsInTime(s: Assignment, S: Store, a: Type, b: Type, depth: nat, h: nat)
    requires Inv(S) && Solves(s, S) && Solves(s, Unify(S, a, b, depth).1) && a.Var? && a != b
    requires h >= Height(Eval(s, a)) && h >= Height(Eval(s, b)) && depth >= Need(a, b, h)
    ensures Unify(S, a, b, depth).0 != RecursionError
    decreases depth, 0, 0
  {
    FindSolved(s, S, a);
    FindSolved(s, S, b);
    var x, y := FindType(S, b), Find(S, a.v);
    if x != y && !y.Var? {
      UnifyClimbs(S, a, b, x, y, depth);
      if x.Var? {
        UnifyWithUnbound(S, y, x.v, depth - 1);
      } else {
        EndsInTime(s, S, y, x, depth - 1, h);
      }
    }
  }

  lemma {:induction false} BoundEndsInTime(s: Assignment, S: Store, a: Type, b: Type, depth: nat, h: nat)
    requires Inv(S) && Solves(s, Unify(S, a, b, depth).1) && !a.Var? && !b.Var? && a != b
    requires h >= Height(Eval(s, a)) && h >= Height(Eval(s, b)) && depth >= 3 * h - 2
    ensures Unify(S, a, b, depth).0 != RecursionError
    decreases depth, 0, 0
  {
    if a.Mono? && b.Mono? && a.name == b.name && a.keys == b.keys && |a.args| == |b.args| {
      PartsBelow(s, a, a.args, h);
      PartsBelow(s, b, b.args, h);
      AllEndInTime(s, S, a.args, b.args, depth - 1, h - 1);
    } else if a.Tuple? && b.Tuple? && |a.elts| == |b.elts| {
      PartsBelow(s, a, a.elts, h);
      PartsBelow(s, b, b.elts, h);
      AllEndInTime(s, S, a.elts, b.elts, depth - 1, h - 1);
    }
  }

  ghost predicate Below(s: Assignment, ts: seq<Type>, h: nat) {
    forall i | 0 <= i < |ts| :: Height(Eval(s, ts[i])) <= h
  }

  lemma PartsBelow(s: Assignment, t: Type, ts: seq<Type>, h: nat)
    requires (t.Mono? && ts == t.args) || (t.Tuple? && ts == t.elts)
    requires 1 <= h && Height(Eval(s, t)) <= h
    ensures Below(s, ts, h - 1)
  {
    var kids := Eval(s, t).kids;
    forall i | 0 <= i < |ts| ensures Height(Eval(s, ts[i])) <= h - 1 {
      assert kids[i] == Eval(s, ts[i]);
      KidHeight(kids, i);
    }
  }

  lemma {:induction false} AllEndInTime(s: Assignment, S: Store, xs: seq<Type>, ys: seq<Type>, depth: nat, h: nat)
    requires Inv(S) && |xs| == |ys| && Solves(s, UnifyAll(S, xs, ys, depth).1)
    requires Below(s, xs, h) && Below(s, ys, h) && depth >= 3 * h
    ensures UnifyAll(S, xs, ys, depth).0 != RecursionError
    decreases depth, 1 + |xs|
  {
    if xs != [] {
      var (r, S1) := Unify(S, xs[0], ys[0], depth);
      if r == Ok {
        var kids := seq(|xs| - 1, i requires 0 <= i < |xs| - 1 => Eval(s, xs[1..][i]));
        UnifyAllMostGeneral(s, S1, xs[1..], ys[1..], depth, kids);
        AllEndInTime(s, S1, xs[1..], ys[1..], depth, h);
      }
      EndsInTime(s, S, xs[0], ys[0], depth, h);
    }
  }

  /** The outcome, whenever the bindings that the call leaves still have a solution: success exactly if
      that solution equates the two sides, and a type error otherwise; the error is a clash where equal
      names have equal parameters. */
  lemma OutcomeIsExact(sig: Signature, s: Assignment, S: Store, a: Type, b: Type, depth: nat)
    requires Inv(S) && Solves(s, Unify(S, a, b, depth).1)
    requires depth >= 3 * Larger(Height(Eval(s, a)), Height(Eval(s, b)))
    ensures Unify(S, a, b, depth).0 == Ok <==> Eval(s, a) == Eval(s, b)
    ensures Unify(S, a, b, depth).0 != Ok ==> Unify(S, a, b, depth).0 in {UnificationError, AssertionError}
    ensures KeyedStore(sig, S) && Keyed(sig, a) && Keyed(sig, b) && Eval(s, a) != Eval(s, b) ==>
              Unify(S, a, b, depth).0 == UnificationError
  {
    UnifyMostGeneral(s, S, a, b, depth);
    EndsInTime(s, S, a, b, depth, Larger(Height(Eval(s, a)), Height(Eval(s, b))));
    if KeyedStore(sig, S) && Keyed(sig, a) && Keyed(sig, b) {
      NoAssertionError(sig, S, a, b, depth);
    }
  }
}
