/**
Folding without substitutes reaches a normal form in one pass, and folding never invents
variables.
*/
module FoldingNormalForms {
  import opened IODelay

  ghost predicate NoRepeats<T>(xs: seq<T>) {
    forall i, j | 0 <= i < j < |xs| :: xs[i] != xs[j]
  }

  /** No arm of `_fold_binop` applies to the two operands. */
  ghost predicate Stuck(op: Op, l: Expr, r: Expr) {
    && !(op == Add && (IsUnit(l, 0.0) || IsUnit(r, 0.0)))
    && !(op == Mul && (IsUnit(l, 1.0) || IsUnit(r, 1.0)))
    && !(op == Sub && IsUnit(r, 0.0))
    && !((op == TrueDiv || op == FloorDiv) && IsUnit(r, 1.0))
    && !(l.Const? && r.Const?)
    && !(l.MUToS? && r.MUToS?)
    && !(l.SToMU? && r.SToMU?)
  }

  /** The normal forms, described without folding. */
  ghost predicate Normal(e: Expr) {
    match e
    case Const(_) => true
    case Var(_) => true
    case MUToS(o, _) => Normal(o) && !o.Const?
    case SToMU(o, _) => Normal(o) && !o.Const?
    case Bin(op, l, r) => Normal(l) && Normal(r) && Stuck(op, l, r)
    case Max(xs) =>
      && |xs| != 1
      && NoRepeats(xs)
      && (forall i | 0 <= i < |xs| :: Normal(xs[i]) && (xs[i].Const? ==> i == |xs| - 1))
  }

  ghost predicate AllNormal(xs: seq<Expr>) {
    forall i | 0 <= i < |xs| :: Normal(xs[i])
  }

  // ----- folding reaches a normal form -----

  lemma {:induction false} FoldNormalizes(e: Expr)
    ensures Normal(Fold(e, map[]))
    decreases Size(e), 0
  {
    match e
    case Const(_) =>
    case Var(_) =>
    case MUToS(o, p) => FoldNormalizes(o);
    case SToMU(o, p) => FoldNormalizes(o);
    case Bin(op, l, r) =>
      FoldNormalizes(l);
      FoldNormalizes(r);
      FoldBinOpNormalizes(op, Fold(l, map[]), Fold(r, map[]));
    case Max(xs) =>
      FoldEachNormalizes(xs);
      FoldMaxNormalizes(FoldEach(xs, map[]));
  }

  lemma {:induction false} FoldBinOpNormalizes(op: Op, l: Expr, r: Expr)
    requires Normal(l) && Normal(r)
    ensures Normal(FoldBinOp(op, l, r))
    decreases Size(l) + Size(r), 1
  {
    if (l.MUToS? && r.MUToS?) || (l.SToMU? && r.SToMU?) {
      var inner := Bin(op, l.operand, r.operand);
      assert Size(inner) == Size(l) + Size(r) - 1;
      FoldNormalizes(if l.MUToS? then MUToS(inner, l.period) else SToMU(inner, l.period));
    }
  }

  lemma {:induction false} FoldEachNormalizes(xs: seq<Expr>)
    ensures AllNormal(FoldEach(xs, map[]))
    decreases Sizes(xs), 1, |xs|
  {
    if xs != [] {
      FoldEachNormalizes(xs[..|xs| - 1]);
      FoldNormalizes(xs[|xs| - 1]);
    }
  }

  lemma {:induction false} DistinctHasNoRepeats(xs: seq<Expr>)
    ensures NoRepeats(Distinct(xs))
  {
    if xs != [] {
      DistinctHasNoRepeats(xs[..|xs| - 1]);
    }
  }

  /** Where an operand stands first. */
  ghost function FirstPlace(xs: seq<Expr>, x: Expr): (k: nat)
    requires x in xs
    ensures k < |xs| && xs[k] == x && x !in xs[..k]
  {
    var ys := xs[..|xs| - 1];
    if x in ys then
      var k := FirstPlace(ys, x);
      assert ys[..k] == xs[..k];
      k
    else |xs| - 1
  }

  /** The operands that `Max.fold` keeps stand in the order in which they first occur. */
  lemma {:induction false} DistinctKeepsOrder(xs: seq<Expr>, i: nat, j: nat)
    requires i < j < |Distinct(xs)|
    ensures Distinct(xs)[i] in xs && Distinct(xs)[j] in xs
    ensures FirstPlace(xs, Distinct(xs)[i]) < FirstPlace(xs, Distinct(xs)[j])
  {
    var ys, zs := xs[..|xs| - 1], Distinct(xs);
    assert zs[i] in zs && zs[j] in zs;
    if j < |Distinct(ys)| {
      DistinctKeepsOrder(ys, i, j);
    } else {
      assert zs[i] in Distinct(ys);
    }
  }

  lemma FoldMaxNormalizes(xs: seq<Expr>)
    requires AllNormal(xs)
    ensures Normal(FoldMax(xs))
  {
    DistinctHasNoRepeats(xs);
    var m := LargestConst(xs);
    var ys := Distinct(xs);
    assert forall y | y in ys :: Normal(y);
    var zs := ys + if m.Some? then [Const(m.value)] else [];
    forall i | 0 <= i < |zs| ensures Normal(zs[i]) && (zs[i].Const? ==> i == |zs| - 1) {
      if i < |ys| {
        assert zs[i] == ys[i] && ys[i] in ys;
      }
    }
  }

  // ----- normal forms are fixed -----

  lemma {:induction false} NormalIsFixed(e: Expr)
    requires Normal(e)
    ensures Fold(e, map[]) == e
    decreases Size(e), 0
  {
    match e
    case Const(_) =>
    case Var(_) =>
    case MUToS(o, p) => NormalIsFixed(o);
    case SToMU(o, p) => NormalIsFixed(o);
    case Bin(op, l, r) =>
      NormalIsFixed(l);
      NormalIsFixed(r);
    case Max(xs) =>
      NormalsAreFixed(xs);
      FoldMaxIsFixed(xs);
  }

  lemma {:induction false} NormalsAreFixed(xs: seq<Expr>)
    requires AllNormal(xs)
    ensures FoldEach(xs, map[]) == xs
    decreases Sizes(xs), 1, |xs|
  {
    if xs != [] {
      NormalsAreFixed(xs[..|xs| - 1]);
      NormalIsFixed(xs[|xs| - 1]);
    }
  }

  lemma {:induction false} DistinctIsFixed(xs: seq<Expr>)
    requires NoRepeats(xs) && forall i | 0 <= i < |xs| :: !xs[i].Const?
    ensures Distinct(xs) == xs
  {
    if xs != [] {
      DistinctIsFixed(xs[..|xs| - 1]);
    }
  }

  lemma FoldMaxIsFixed(xs: seq<Expr>)
    requires Normal(Max(xs))
    ensures FoldMax(xs) == Max(xs)
  {
    if xs != [] && xs[|xs| - 1].Const? {
      ConstLastIsFixed(xs);
    } else {
      NoConstIsFixed(xs);
    }
  }

  lemma ConstLastIsFixed(xs: seq<Expr>)
    requires |xs| > 1 && NoRepeats(xs) && forall i | 0 <= i < |xs| :: xs[i].Const? <==> i == |xs| - 1
    ensures FoldMax(xs) == Max(xs)
  {
    var ys, last := xs[..|xs| - 1], xs[|xs| - 1];
    DistinctIsFixed(ys);
    assert Distinct(xs) == ys;
    assert LargestConst(ys).None?;
    assert LargestConst(xs) == Some(last.value);
    assert ys + [last] == xs;
  }

  lemma NoConstIsFixed(xs: seq<Expr>)
    requires |xs| != 1 && NoRepeats(xs) && forall i | 0 <= i < |xs| :: !xs[i].Const?
    ensures FoldMax(xs) == Max(xs)
  {
    DistinctIsFixed(xs);
    assert LargestConst(xs).None?;
    assert xs + [] == xs;
  }

  /** Folding twice is folding once, for every expression. */
  lemma FoldIsIdempotent(e: Expr)
    ensures Fold(Fold(e, map[]), map[]) == Fold(e, map[])
  {
    FoldNormalizes(e);
    NormalIsFixed(Fold(e, map[]));
  }

  /** Folding leaves an expression alone exactly when it is normal. */
  lemma FixedIffNormal(e: Expr)
    ensures Fold(e, map[]) == e <==> Normal(e)
  {
    FoldNormalizes(e);
    if Normal(e) {
      NormalIsFixed(e);
    }
  }

  // ----- free variables -----

  /** The variables that may be left: those not covered, and those of the substitutes used. */
  ghost function Left(vs: set<string>, vars: Substitution): set<string> {
    (vs - vars.Keys) + (set x, y | x in vs * vars.Keys && y in FreeVars(vars[x]) :: y)
  }

  lemma LeftOfUnion(vs: set<string>, ws: set<string>, vars: Substitution)
    ensures Left(vs + ws, vars) == Left(vs, vars) + Left(ws, vars)
  {
  }

  lemma {:induction false} FreeVarsMember(xs: seq<Expr>, x: Expr)
    requires x in xs
    ensures FreeVars(x) <= FreeVarsOf(xs)
  {
    if x != xs[|xs| - 1] {
      FreeVarsMember(xs[..|xs| - 1], x);
    }
  }

  lemma {:induction false} FreeVarsWithin(xs: seq<Expr>, vs: set<string>)
    requires forall x | x in xs :: FreeVars(x) <= vs
    ensures FreeVarsOf(xs) <= vs
  {
    if xs != [] {
      FreeVarsWithin(xs[..|xs| - 1], vs);
    }
  }

  lemma {:induction false} FoldKeepsVars(e: Expr, vars: Substitution)
    ensures FreeVars(Fold(e, vars)) <= Left(FreeVars(e), vars)
    decreases if vars == map[] then 0 else 1, Size(e), 0
  {
    match e
    case Const(_) =>
    case Var(_) =>
    case MUToS(o, p) => FoldKeepsVars(o, vars);
    case SToMU(o, p) => FoldKeepsVars(o, vars);
    case Bin(op, l, r) =>
      FoldKeepsVars(l, vars);
      FoldKeepsVars(r, vars);
      FoldBinOpKeepsVars(op, Fold(l, vars), Fold(r, vars));
      LeftOfUnion(FreeVars(l), FreeVars(r), vars);
    case Max(xs) =>
      FoldEachKeepsVars(xs, vars);
      FoldMaxKeepsVars(FoldEach(xs, vars));
  }

  lemma {:induction false} FoldBinOpKeepsVars(op: Op, l: Expr, r: Expr)
    ensures FreeVars(FoldBinOp(op, l, r)) <= FreeVars(l) + FreeVars(r)
    decreases 0, Size(l) + Size(r), 1
  {
    if (l.MUToS? && r.MUToS?) || (l.SToMU? && r.SToMU?) {
      var inner := Bin(op, l.operand, r.operand);
      var merged := if l.MUToS? then MUToS(inner, l.period) else SToMU(inner, l.period);
      assert Size(inner) == Size(l) + Size(r) - 1;
      FoldKeepsVars(merged, map[]);
      assert FreeVars(merged) == FreeVars(l) + FreeVars(r);
    }
  }

  lemma {:induction false} FoldEachKeepsVars(xs: seq<Expr>, vars: Substitution)
    ensures FreeVarsOf(FoldEach(xs, vars)) <= Left(FreeVarsOf(xs), vars)
    decreases if vars == map[] then 0 else 1, Sizes(xs), 1, |xs|
  {
    if xs != [] {
      var init, last := xs[..|xs| - 1], xs[|xs| - 1];
      FoldEachKeepsVars(init, vars);
      FoldKeepsVars(last, vars);
      var ys := FoldEach(xs, vars);
      assert ys[..|ys| - 1] == FoldEach(init, vars) && ys[|ys| - 1] == Fold(last, vars);
      LeftOfUnion(FreeVarsOf(init), FreeVars(last), vars);
    }
  }

  lemma FoldMaxKeepsVars(xs: seq<Expr>)
    ensures FreeVars(FoldMax(xs)) <= FreeVarsOf(xs)
  {
    var m := LargestConst(xs);
    var zs := Distinct(xs) + if m.Some? then [Const(m.value)] else [];
    forall z | z in zs ensures FreeVars(z) <= FreeVarsOf(xs) {
      FreeVarsMember(xs, z);
    }
    FreeVarsWithin(zs, FreeVarsOf(xs));
  }
}
