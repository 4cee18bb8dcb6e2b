/**
Where folding does change a value, and by how much: merging truncating conversions in sums, and
merging conversions to seconds under any operator.
*/
module FoldingRounding {
  import opened IODelay
  import opened FoldingMeaning
  import Normal = FoldingNormalForms

  // ----- sums of durations in machine units -----

  /** A tree of sums and differences over conversions of durations to machine units. */
  ghost predicate SumTree(units: Units, period: Period, e: Expr) {
    match e
    case SToMU(o, p) => p == period && Sound(units, period, o, Seconds)
    case Bin(op, l, r) => (op == Add || op == Sub) && SumTree(units, period, l) && SumTree(units, period, r)
    case _ => false
  }

  ghost function Leaves(e: Expr): (n: nat)
    ensures n >= 1
  {
    if e.Bin? then Leaves(e.lhs) + Leaves(e.rhs) else 1
  }

  ghost predicate Within(a: real, b: real, d: int) {
    -(d as real) <= a - b <= d as real
  }

  lemma TruncBounds(x: real)
    ensures x >= 0.0 ==> 0 <= Trunc(x) && Trunc(x) as real <= x < Trunc(x) as real + 1.0
    ensures x < 0.0 ==> Trunc(x) <= 0 && Trunc(x) as real - 1.0 < x <= Trunc(x) as real
  {
  }

  /** Two truncations against one. */
  lemma TruncAdd(x: real, y: real)
    ensures -1 <= Trunc(x + y) - (Trunc(x) + Trunc(y)) <= 1
  {
  }

  lemma TruncNegates(x: real)
    ensures Trunc(-x) == -Trunc(x)
  {
  }

  lemma Quotients(op: Op, a: real, b: real, p: Period)
    requires op == Add || op == Sub
    ensures Apply(op, a, b) / p == Apply(op, a / p, b / p)
  {
  }

  lemma TruncApply(op: Op, a: real, b: real, p: Period)
    requires op == Add || op == Sub
    ensures Within(Trunc(Apply(op, a, b) / p) as real, Apply(op, Trunc(a / p) as real, Trunc(b / p) as real), 1)
  {
    Quotients(op, a, b, p);
    TruncSum(op, a / p, b / p);
  }

  lemma TruncSum(op: Op, x: real, y: real)
    requires op == Add || op == Sub
    ensures Within(Trunc(Apply(op, x, y)) as real, Apply(op, Trunc(x) as real, Trunc(y) as real), 1)
  {
    if op == Add {
      TruncAdd(x, y);
    } else {
      TruncAdd(x, -y);
      TruncNegates(y);
      assert x + -y == x - y;
    }
  }

  lemma WithinSum(op: Op, a: real, b: real, a': real, b': real, m: int, n: int)
    requires op == Add || op == Sub
    requires Within(a, a', m) && Within(b, b', n)
    ensures Within(Apply(op, a, b), Apply(op, a', b'), m + n)
  {
  }

  /** A folded sum tree that is a conversion can be merged once more. */
  ghost predicate Mergeable(units: Units, period: Period, f: Expr) {
    && !f.MUToS?
    && (f.SToMU? ==> f.period == period && Sound(units, period, f.operand, Seconds))
  }

  /** Folding a sum of n conversions is off by at most n - 1 machine units. */
  lemma {:induction false} FoldRounds(units: Units, period: Period, e: Expr, vars: Substitution, env: Env)
    requires SumTree(units, period, e) && SoundVars(units, period, vars) && Respects(units, env)
    ensures Within(Denote(Fold(e, vars), env), Denote(e, After(vars, env)), Leaves(e) - 1)
    ensures Mergeable(units, period, Fold(e, vars))
    decreases e
  {
    if e.SToMU? {
      FoldMeaning(units, period, e.operand, Seconds, vars, env);
      FoldKeepsUnits(units, period, e.operand, Seconds, vars);
      TruncatedMeaning(e.operand, After(vars, env), Fold(e.operand, vars), env, period);
      assert Fold(e, vars) == FoldSToMU(Fold(e.operand, vars), period);
    } else {
      var l, r := Fold(e.lhs, vars), Fold(e.rhs, vars);
      FoldRounds(units, period, e.lhs, vars, env);
      FoldRounds(units, period, e.rhs, vars, env);
      MergeRounds(units, period, e.op, l, r, env);
      WithinSum(e.op, Denote(l, env), Denote(r, env),
                Denote(e.lhs, After(vars, env)), Denote(e.rhs, After(vars, env)), Leaves(e.lhs) - 1, Leaves(e.rhs) - 1);
      assert Fold(e, vars) == FoldBinOp(e.op, l, r);
    }
  }

  lemma TruncatedMeaning(o: Expr, env: Env, o': Expr, env': Env, p: Period)
    requires Denote(o, env) == Denote(o', env')
    ensures Denote(SToMU(o, p), env) == Denote(FoldSToMU(o', p), env')
  {
  }

  /** One `_fold_binop` on folded sum trees costs at most one unit. */
  lemma MergeRounds(units: Units, period: Period, op: Op, l: Expr, r: Expr, env: Env)
    requires (op == Add || op == Sub) && Mergeable(units, period, l) && Mergeable(units, period, r)
    requires Respects(units, env)
    ensures Within(Denote(FoldBinOp(op, l, r), env), Apply(op, Denote(l, env), Denote(r, env)), 1)
    ensures Mergeable(units, period, FoldBinOp(op, l, r))
  {
    if l.SToMU? && r.SToMU? {
      ConversionsMerge(units, period, op, l.operand, r.operand, env);
    } else {
      UnmergedMeaning(op, l, r, env);
      UnmergedResult(op, l, r);
    }
  }

  lemma ConversionsMerge(units: Units, period: Period, op: Op, a: Expr, b: Expr, env: Env)
    requires (op == Add || op == Sub) && Respects(units, env)
    requires Sound(units, period, a, Seconds) && Sound(units, period, b, Seconds)
    ensures var l, r := SToMU(a, period), SToMU(b, period);
            && Within(Denote(FoldBinOp(op, l, r), env), Apply(op, Denote(l, env), Denote(r, env)), 1)
            && Mergeable(units, period, FoldBinOp(op, l, r))
  {
    var inner := Bin(op, a, b);
    InnerMeaning(units, period, inner, env);
    assert FoldBinOp(op, SToMU(a, period), SToMU(b, period)) == Fold(SToMU(inner, period), map[]);
    assert Fold(SToMU(inner, period), map[]) == FoldSToMU(Fold(inner, map[]), period);
    TruncApply(op, Denote(a, env), Denote(b, env), period);
    assert Denote(inner, env) == Apply(op, Denote(a, env), Denote(b, env));
  }

  /** Folding what a merged conversion converts. */
  lemma InnerMeaning(units: Units, period: Period, inner: Expr, env: Env)
    requires Sound(units, period, inner, Seconds) && Respects(units, env)
    ensures Denote(FoldSToMU(Fold(inner, map[]), period), env) == Denote(SToMU(inner, period), env)
    ensures Mergeable(units, period, FoldSToMU(Fold(inner, map[]), period))
  {
    FoldMeaning(units, period, inner, Seconds, map[], env);
    FoldKeepsUnits(units, period, inner, Seconds, map[]);
    assert After(map[], env) == env;
    TruncatedMeaning(inner, env, Fold(inner, map[]), env, period);
  }

  // ----- the bound is reached -----

  /** n conversions of the same duration `t`, added up. */
  ghost function Repeated(n: nat): Expr
    requires n >= 1
  {
    var leaf := SToMU(Var("t"), 1.0);
    if n == 1 then leaf else Bin(Add, Repeated(n - 1), leaf)
  }

  ghost function RepeatedVar(n: nat): Expr
    requires n >= 1
  {
    if n == 1 then Var("t") else Bin(Add, RepeatedVar(n - 1), Var("t"))
  }

  lemma {:induction false} RepeatedVarIsNormal(n: nat)
    requires n >= 1
    ensures Normal.Normal(RepeatedVar(n)) && !RepeatedVar(n).Const?
  {
    if n > 1 {
      RepeatedVarIsNormal(n - 1);
    }
  }

  lemma {:induction false} FoldRepeated(n: nat)
    requires n >= 1
    ensures Fold(Repeated(n), map[]) == SToMU(RepeatedVar(n), 1.0)
  {
    if n > 1 {
      FoldRepeated(n - 1);
      RepeatedVarIsNormal(n);
      Normal.NormalIsFixed(RepeatedVar(n));
      assert Fold(SToMU(Var("t"), 1.0), map[]) == SToMU(Var("t"), 1.0);
      assert FoldBinOp(Add, SToMU(RepeatedVar(n - 1), 1.0), SToMU(Var("t"), 1.0)) ==
             Fold(SToMU(RepeatedVar(n), 1.0), map[]);
    }
  }

  lemma {:induction false} RepeatedValues(n: nat, t: real)
    requires n >= 1 && 0.0 <= t < 1.0
    ensures Denote(Repeated(n), map["t" := t]) == 0.0
    ensures Denote(RepeatedVar(n), map["t" := t]) == n as real * t
    ensures Leaves(Repeated(n)) == n
  {
    var env := map["t" := t];
    LeafValue(t);
    if n > 1 {
      RepeatedValues(n - 1, t);
      OneMore(n, t);
      assert Denote(RepeatedVar(n), env) == Denote(RepeatedVar(n - 1), env) + t;
      assert Denote(Repeated(n), env) == Denote(Repeated(n - 1), env) + Denote(SToMU(Var("t"), 1.0), env);
    }
  }

  lemma LeafValue(t: real)
    requires 0.0 <= t < 1.0
    ensures Denote(SToMU(Var("t"), 1.0), map["t" := t]) == 0.0
  {
  }

  lemma OneMore(n: nat, t: real)
    ensures (n - 1) as real * t + t == n as real * t
    ensures 1 as real * t == t
  {
    assert ((n - 1) as real + 1.0) * t == (n - 1) as real * t + t;
  }

  /** For every n there is a sum of n conversions that folding changes by exactly n - 1. */
  lemma RoundingIsReached(n: nat) returns (env: Env)
    requires n >= 1
    ensures SumTree(map["t" := Seconds], 1.0, Repeated(n)) && Respects(map["t" := Seconds], env)
    ensures Leaves(Repeated(n)) == n
    ensures Denote(Fold(Repeated(n), map[]), env) - Denote(Repeated(n), env) == (n - 1) as real
  {
    var t := (n - 1) as real / n as real;
    Fraction(n - 1, n);
    env := map["t" := t];
    RepeatedIsSumTree(n);
    ReachedBy(n, t);
  }

  lemma ReachedBy(n: nat, t: real)
    requires n >= 1 && 0.0 <= t < 1.0 && n as real * t == (n - 1) as real
    ensures Leaves(Repeated(n)) == n
    ensures Denote(Fold(Repeated(n), map[]), map["t" := t]) - Denote(Repeated(n), map["t" := t]) == (n - 1) as real
  {
    RepeatedValues(n, t);
    FoldedRepeated(n, t);
  }

  lemma FoldedRepeated(n: nat, t: real)
    requires n >= 1 && 0.0 <= t < 1.0 && n as real * t == (n - 1) as real
    ensures Denote(Fold(Repeated(n), map[]), map["t" := t]) == (n - 1) as real
  {
    FoldRepeated(n);
    RepeatedValues(n, t);
    WholeTrunc(n - 1);
    TruncatedVar(RepeatedVar(n), map["t" := t], (n - 1) as real);
  }

  lemma TruncatedVar(o: Expr, env: Env, v: real)
    requires Denote(o, env) == v
    ensures Denote(SToMU(o, 1.0), env) == Trunc(v / 1.0) as real
  {
  }

  lemma Fraction(m: nat, n: nat)
    requires m < n
    ensures 0.0 <= m as real / n as real < 1.0 && n as real * (m as real / n as real) == m as real
  {
  }

  lemma WholeTrunc(m: nat)
    ensures Trunc(m as real / 1.0) == m
  {
  }

  lemma {:induction false} RepeatedIsSumTree(n: nat)
    requires n >= 1
    ensures SumTree(map["t" := Seconds], 1.0, Repeated(n))
  {
    if n > 1 {
      RepeatedIsSumTree(n - 1);
    }
  }

  // ----- exactly when the merge of conversions to seconds is right -----

  /** The periods for which an operator may be moved inside two conversions. */
  ghost predicate Movable(op: Op, p: Period, q: Period) {
    match op
    case Add => p == q
    case Sub => p == q
    case Mul => q == 1.0
    case TrueDiv => q == 1.0
    case FloorDiv => p == 1.0 && q == 1.0
  }

  /** The operator inside one conversion, as folding leaves it, and outside two, as written. */
  ghost function Inside(op: Op, p: real, q: real, x: real, y: real): real {
    Scaled(Apply(op, x, y), p)
  }

  ghost function Outside(op: Op, p: real, q: real, x: real, y: real): real {
    Apply(op, Scaled(x, p), Scaled(y, q))
  }

  lemma MovableIsRight(op: Op, p: Period, q: Period, x: real, y: real)
    requires Movable(op, p, q)
    ensures Inside(op, p, q, x, y) == Outside(op, p, q, x, y)
  {
    match op
    case Add => Distributes(op, x, y, p);
    case Sub => Distributes(op, x, y, p);
    case Mul => ProductMoves(x, y, p);
    case TrueDiv => QuotientMoves(x, y, p);
    case FloorDiv => UnitPeriod(x); UnitPeriod(y); UnitPeriod(Apply(FloorDiv, x, y));
  }

  lemma UnitPeriod(x: real)
    ensures Scaled(x, 1.0) == x
  {
  }

  lemma ProductMoves(x: real, y: real, p: real)
    ensures Scaled(x * y, p) == Scaled(x, p) * Scaled(y, 1.0)
  {
    UnitPeriod(y);
    assert (x * y) * p == (x * p) * y;
  }

  lemma QuotientMoves(x: real, y: real, p: real)
    ensures Scaled(Apply(TrueDiv, x, y), p) == Apply(TrueDiv, Scaled(x, p), Scaled(y, 1.0))
  {
  }

  lemma OtherFactor(p: real, q: real, r: real)
    requires q != 1.0 && p != 0.0 && r == p * q
    ensures r != p
  {
    assert p * q - p == p * (q - 1.0);
  }

  lemma OtherQuotient(p: Period, q: Period)
    requires q != 1.0
    ensures p / q != p
  {
    var c := p / q;
    assert p == c * q;
    OtherFactor(c, q, p);
  }

  // Whole numbers for which it is wrong.

  lemma SumWitness(op: Op, p: Period, q: Period)
    requires p != q && (op == Add || op == Sub)
    ensures Inside(op, p, q, 0.0, 1.0) != Outside(op, p, q, 0.0, 1.0)
  {
  }

  lemma MulWitness(p: Period, q: Period)
    requires q != 1.0
    ensures Inside(Mul, p, q, 1.0, 1.0) != Outside(Mul, p, q, 1.0, 1.0)
  {
    OtherFactor(p, q, p * q);
  }

  lemma DivWitness(p: Period, q: Period)
    requires q != 1.0
    ensures Inside(TrueDiv, p, q, 1.0, 1.0) != Outside(TrueDiv, p, q, 1.0, 1.0)
  {
    OtherQuotient(p, q);
  }

  lemma FloorWitness(p: Period, q: Period) returns (x: real, y: real)
    requires !(p == 1.0 && q == 1.0)
    ensures IsInt(x) && IsInt(y) && Inside(FloorDiv, p, q, x, y) != Outside(FloorDiv, p, q, x, y)
  {
    x, y := 1.0, 1.0;
    if q == 1.0 {
      if (p / q).Floor as real == p {
        y := 2.0;
        HalfPeriod(p);
      }
    } else if (p / q).Floor as real == p {
      x := -1.0;
      Negated(p, q);
      OtherQuotient(p, q);
    }
  }

  lemma HalfPeriod(p: Period)
    requires p != 1.0 && p.Floor as real == p
    ensures Inside(FloorDiv, p, 1.0, 1.0, 2.0) != Outside(FloorDiv, p, 1.0, 1.0, 2.0)
  {
    assert (1.0 / 2.0).Floor == 0;
    assert Scaled(1.0, p) == p && Scaled(2.0, 1.0) == 2.0;
    assert (p / 2.0).Floor != 0;
  }

  lemma Negated(p: real, q: Period)
    ensures Inside(FloorDiv, p, q, -1.0, 1.0) == -p
    ensures Outside(FloorDiv, p, q, -1.0, 1.0) == (-(p / q)).Floor as real
  {
    assert Scaled(-1.0, p) == -p && Scaled(1.0, q) == q;
    assert (-p) / q == -(p / q);
  }

  lemma UnmovableIsWrong(op: Op, p: Period, q: Period) returns (x: real, y: real)
    requires !Movable(op, p, q)
    ensures IsInt(x) && IsInt(y) && Inside(op, p, q, x, y) != Outside(op, p, q, x, y)
  {
    match op
    case Add => SumWitness(op, p, q); x, y := 0.0, 1.0;
    case Sub => SumWitness(op, p, q); x, y := 0.0, 1.0;
    case Mul => MulWitness(p, q); x, y := 1.0, 1.0;
    case TrueDiv => DivWitness(p, q); x, y := 1.0, 1.0;
    case FloorDiv => x, y := FloorWitness(p, q);
  }

  /** Folding an operator over two conversions keeps its meaning for all values of the converted
      variables exactly when the periods allow moving the operator inside; and whole machine units
      already tell. */
  lemma MergeIsRightIffMovable(op: Op, a: string, b: string, p: Period, q: Period)
    requires a != b
    ensures Movable(op, p, q) <==> forall env: Env :: MergesRight(op, a, b, p, q, env)
    ensures Movable(op, p, q) <==>
            forall env: Env | Respects(map[a := Machine, b := Machine], env) :: MergesRight(op, a, b, p, q, env)
  {
    if Movable(op, p, q) {
      forall env: Env ensures MergesRight(op, a, b, p, q, env) {
        BothSides(op, a, b, p, q, env);
        MovableIsRight(op, p, q, Lookup(env, a), Lookup(env, b));
      }
    } else {
      var x, y := UnmovableIsWrong(op, p, q);
      var env: Env := map[a := x, b := y];
      BothSides(op, a, b, p, q, env);
      assert Respects(map[a := Machine, b := Machine], env);
      assert !MergesRight(op, a, b, p, q, env);
    }
  }

  ghost predicate MergesRight(op: Op, a: string, b: string, p: Period, q: Period, env: Env) {
    Denote(FoldBinOp(op, MUToS(Var(a), p), MUToS(Var(b), q)), env) ==
    Denote(Bin(op, MUToS(Var(a), p), MUToS(Var(b), q)), env)
  }

  lemma BothSides(op: Op, a: string, b: string, p: Period, q: Period, env: Env)
    ensures Denote(FoldBinOp(op, MUToS(Var(a), p), MUToS(Var(b), q)), env) ==
            Inside(op, p, q, Lookup(env, a), Lookup(env, b))
    ensures Denote(Bin(op, MUToS(Var(a), p), MUToS(Var(b), q)), env) ==
            Outside(op, p, q, Lookup(env, a), Lookup(env, b))
  {
    MergedForm(op, a, b, p, q);
    InsideMeaning(op, Var(a), Var(b), p, q, env);
    OutsideMeaning(op, Var(a), Var(b), p, q, env);
  }

  lemma MergedForm(op: Op, a: string, b: string, p: Period, q: Period)
    ensures FoldBinOp(op, MUToS(Var(a), p), MUToS(Var(b), q)) == MUToS(Bin(op, Var(a), Var(b)), p)
  {
    var merged := MUToS(Bin(op, Var(a), Var(b)), p);
    assert Normal.Normal(Var(a)) && Normal.Normal(Var(b)) && Normal.Normal(Bin(op, Var(a), Var(b)));
    Normal.NormalIsFixed(merged);
  }

  lemma InsideMeaning(op: Op, a: Expr, b: Expr, p: Period, q: Period, env: Env)
    ensures Denote(MUToS(Bin(op, a, b), p), env) == Inside(op, p, q, Denote(a, env), Denote(b, env))
  {
    BinOf(op, a, b, env, Denote(a, env), Denote(b, env));
    ScaledMeaning(Bin(op, a, b), p, env);
  }

  lemma OutsideMeaning(op: Op, a: Expr, b: Expr, p: Period, q: Period, env: Env)
    ensures Denote(Bin(op, MUToS(a, p), MUToS(b, q)), env) == Outside(op, p, q, Denote(a, env), Denote(b, env))
  {
    ScaledMeaning(a, p, env);
    ScaledMeaning(b, q, env);
    BinOf(op, MUToS(a, p), MUToS(b, q), env, Scaled(Denote(a, env), p), Scaled(Denote(b, env), q));
  }
}
