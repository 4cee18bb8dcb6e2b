/**
What `free_vars` means: the variables that occur in an expression, and so all that its value depends on.
*/
module FreeVariables {
  import opened IODelay

  ghost predicate Subterm(s: Expr, e: Expr)
    decreases e
  {
    s == e ||
    match e
    case Const(_) => false
    case Var(_) => false
    case MUToS(o, _) => Subterm(s, o)
    case SToMU(o, _) => Subterm(s, o)
    case Bin(_, l, r) => Subterm(s, l) || Subterm(s, r)
    case Max(xs) => exists i | 0 <= i < |xs| :: Subterm(s, xs[i])
  }

  /** The free variables are exactly the variables that are subterms. */
  lemma {:induction false} FreeVarsAreSubterms(e: Expr, x: string)
    ensures x in FreeVars(e) <==> Subterm(Var(x), e)
    decreases e
  {
    match e
    case Const(_) =>
    case Var(_) =>
    case MUToS(o, _) => FreeVarsAreSubterms(o, x);
    case SToMU(o, _) => FreeVarsAreSubterms(o, x);
    case Bin(_, l, r) =>
      FreeVarsAreSubterms(l, x);
      FreeVarsAreSubterms(r, x);
    case Max(xs) =>
      FreeVarsOfMember(xs, x);
      forall i | 0 <= i < |xs| ensures x in FreeVars(xs[i]) <==> Subterm(Var(x), xs[i]) {
        FreeVarsAreSubterms(xs[i], x);
      }
  }

  lemma {:induction false} FreeVarsOfMember(xs: seq<Expr>, x: string)
    ensures x in FreeVarsOf(xs) <==> exists i | 0 <= i < |xs| :: x in FreeVars(xs[i])
  {
    if xs != [] {
      var ys := xs[..|xs| - 1];
      FreeVarsOfMember(ys, x);
      assert forall i | 0 <= i < |ys| :: ys[i] == xs[i];
    }
  }

  ghost predicate AgreeOn(vs: set<string>, env: Env, env': Env) {
    forall x | x in vs :: Lookup(env, x) == Lookup(env', x)
  }

  /** Environments that agree on the free variables give an expression the same value. */
  lemma {:induction false} ValueDependsOnFreeVars(e: Expr, env: Env, env': Env)
    requires AgreeOn(FreeVars(e), env, env')
    ensures Denote(e, env) == Denote(e, env')
    decreases e, 0
  {
    match e
    case Const(_) =>
    case Var(_) =>
    case MUToS(o, _) => ValueDependsOnFreeVars(o, env, env');
    case SToMU(o, _) => ValueDependsOnFreeVars(o, env, env');
    case Bin(_, l, r) =>
      ValueDependsOnFreeVars(l, env, env');
      ValueDependsOnFreeVars(r, env, env');
    case Max(xs) => MaxDependsOnFreeVars(xs, env, env');
  }

  lemma {:induction false} MaxDependsOnFreeVars(xs: seq<Expr>, env: Env, env': Env)
    requires AgreeOn(FreeVarsOf(xs), env, env')
    ensures DenoteMax(xs, env) == DenoteMax(xs, env')
    decreases xs, 1
  {
    if xs != [] {
      var last := xs[|xs| - 1];
      ValueDependsOnFreeVars(last, env, env');
      MaxDependsOnFreeVars(xs[..|xs| - 1], env, env');
    }
  }
}
