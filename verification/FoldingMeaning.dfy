/**
Folding preserves the meaning of delays that respect units, and exactly which merges of
conversions do.
*/
module FoldingMeaning {
  import RealArithmetic
  import opened IODelay

  // ----- operators -----

  /** Division is exact or rounded towards minus infinity, and yields zero for a zero divisor. */
  lemma DivisionMeaning(a: real, b: real)
    ensures b == 0.0 ==> Apply(TrueDiv, a, b) == Apply(FloorDiv, a, b) == 0.0
    ensures b != 0.0 ==> Apply(TrueDiv, a, b) * b == a && IsInt(Apply(FloorDiv, a, b))
    ensures b > 0.0 ==> Apply(FloorDiv, a, b) * b <= a < (Apply(FloorDiv, a, b) + 1.0) * b
    ensures b < 0.0 ==> Apply(FloorDiv, a, b) * b >= a > (Apply(FloorDiv, a, b) + 1.0) * b
  {
    if b > 0.0 {
      FloorMeaning(a, b, (a / b).Floor);
    } else if b < 0.0 {
      assert a / b == -a / -b;
      FloorMeaning(-a, -b, (a / b).Floor);
    }
  }

  lemma FloorMeaning(a: real, b: real, k: int)
    requires b > 0.0 && k == (a / b).Floor
    ensures k as real * b <= a < (k as real + 1.0) * b
  {
    RealArithmetic.FloorAtLeast(a, b, k);
    RealArithmetic.FloorAtLeast(a, b, k + 1);
  }

  /** Machine units are truncated towards zero. */
  lemma TruncMeaning(x: real)
    ensures x >= 0.0 ==> Trunc(x) as real <= x < Trunc(x) as real + 1.0
    ensures x <= 0.0 ==> Trunc(x) as real - 1.0 < x <= Trunc(x) as real
  {
  }

  // ----- units -----

  datatype Unit = Count | Seconds | Machine

  type Units = map<string, Unit>

  ghost function UnitOf(units: Units, x: string): Unit {
    if x in units then units[x] else Count
  }

  /** Counts and machine units are whole numbers. */
  ghost predicate Respects(units: Units, env: Env) {
    forall x | x in env && UnitOf(units, x) != Seconds :: IsInt(env[x])
  }

  /** `e` is a whole number in every environment that respects the units. */
  ghost predicate Whole(units: Units, e: Expr) {
    match e
    case Const(v) => IsInt(v)
    case Var(x) => UnitOf(units, x) != Seconds
    case MUToS(_, _) => false
    case SToMU(_, _) => true
    case Bin(op, l, r) =>
      if op == TrueDiv then false else op == FloorDiv || (Whole(units, l) && Whole(units, r))
    case Max(xs) => forall i | 0 <= i < |xs| :: Whole(units, xs[i])
  }

  /** The discipline: one clock period, sums and maxima of one unit, a count in every product and as
      every divisor, and whole numbers below floor division.  Numbers and counts fit any unit, since
      folding a product with a neutral constant leaves the other operand alone. */
  ghost predicate HasUnit(units: Units, period: Period, e: Expr, u: Unit)
    decreases e
  {
    match e
    case Const(_) => true
    case Var(x) => UnitOf(units, x) == u || UnitOf(units, x) == Count
    case MUToS(o, p) => u == Seconds && p == period && HasUnit(units, period, o, Machine)
    case SToMU(o, p) => u == Machine && p == period && HasUnit(units, period, o, Seconds)
    case Bin(op, l, r) =>
      if op == Add || op == Sub then HasUnit(units, period, l, u) && HasUnit(units, period, r, u)
      else if op == Mul then
        || (HasUnit(units, period, l, Count) && HasUnit(units, period, r, u))
        || (HasUnit(units, period, l, u) && HasUnit(units, period, r, Count))
      else
        && HasUnit(units, period, l, u) && HasUnit(units, period, r, Count)
        && (op == FloorDiv ==> Whole(units, l))
    case Max(xs) => forall i | 0 <= i < |xs| :: HasUnit(units, period, xs[i], u)
  }

  /** No conversion to machine units, the one that truncates. */
  ghost predicate Exact(e: Expr) {
    match e
    case Const(_) => true
    case Var(_) => true
    case MUToS(o, _) => Exact(o)
    case SToMU(_, _) => false
    case Bin(_, l, r) => Exact(l) && Exact(r)
    case Max(xs) => forall i | 0 <= i < |xs| :: Exact(xs[i])
  }

  /** What is asked of an expression of unit `u`. */
  ghost predicate Sound(units: Units, period: Period, e: Expr, u: Unit) {
    HasUnit(units, period, e, u) && Exact(e)
  }

  /** Substitutes have the unit of the variable they replace. */
  ghost predicate SoundVars(units: Units, period: Period, vars: Substitution) {
    forall x | x in vars ::
      && Sound(units, period, vars[x], UnitOf(units, x))
      && (UnitOf(units, x) != Seconds ==> Whole(units, vars[x]))
  }

  lemma {:induction false} CountFits(units: Units, period: Period, e: Expr, u: Unit)
    requires HasUnit(units, period, e, Count)
    ensures HasUnit(units, period, e, u)
    decreases e
  {
    if e.Bin? {
      if HasUnit(units, period, e.lhs, Count) {
        CountFits(units, period, e.lhs, u);
      }
      if HasUnit(units, period, e.rhs, Count) {
        CountFits(units, period, e.rhs, u);
      }
    } else if e.Max? {
      forall i | 0 <= i < |e.operands| ensures HasUnit(units, period, e.operands[i], u) {
        CountFits(units, period, e.operands[i], u);
      }
    }
  }

  // ----- whole numbers -----

  lemma IntArithmetic(a: real, b: real)
    requires IsInt(a) && IsInt(b)
    ensures IsInt(a + b) && IsInt(a - b) && IsInt(a * b)
  {
    var m, n := a.Floor, b.Floor;
    IntOf(a + b, m + n);
    IntOf(a - b, m - n);
    IntProduct(a, b, m, n);
    IntOf(a * b, m * n);
  }

  lemma IntOf(x: real, k: int)
    requires x == k as real
    ensures IsInt(x)
  {
  }

  lemma IntProduct(a: real, b: real, m: int, n: int)
    requires a == m as real && b == n as real
    ensures a * b == (m * n) as real
  {
  }

  lemma ApplyIsInt(op: Op, a: real, b: real)
    requires op == FloorDiv || (op != TrueDiv && IsInt(a) && IsInt(b))
    ensures IsInt(Apply(op, a, b))
  {
    if op != FloorDiv {
      IntArithmetic(a, b);
    }
  }

  lemma {:induction false} WholeIsInt(units: Units, e: Expr, env: Env)
    requires Whole(units, e) && Respects(units, env)
    ensures IsInt(Denote(e, env))
    decreases e
  {
    if e.Bin? {
      if e.op != FloorDiv {
        WholeIsInt(units, e.lhs, env);
        WholeIsInt(units, e.rhs, env);
      }
      ApplyIsInt(e.op, Denote(e.lhs, env), Denote(e.rhs, env));
    } else if e.Max? && e.operands != [] {
      var i := MaxIsReached(e.operands, env);
      WholeIsInt(units, e.operands[i], env);
    }
  }

  // ----- maxima -----

  lemma {:induction false} MaxIsReached(xs: seq<Expr>, env: Env) returns (i: nat)
    requires xs != []
    ensures i < |xs| && Denote(xs[i], env) == DenoteMax(xs, env)
    ensures forall j | 0 <= j < |xs| :: Denote(xs[j], env) <= DenoteMax(xs, env)
  {
    i := |xs| - 1;
    if i > 0 {
      var k := MaxIsReached(xs[..i], env);
      if DenoteMax(xs[..i], env) >= Denote(xs[i], env) {
        i := k;
      }
    }
  }

  /** Every member of `xs` is bounded by a member of `ys`. */
  ghost predicate Bounded(xs: seq<Expr>, env: Env, ys: seq<Expr>, env': Env) {
    forall i | 0 <= i < |xs| :: Below(Denote(xs[i], env), ys, env')
  }

  ghost predicate Below(a: real, ys: seq<Expr>, env: Env) {
    exists j :: 0 <= j < |ys| && a <= Denote(ys[j], env)
  }

  /** Lists that bound each other have the same maximum. */
  lemma SameMax(xs: seq<Expr>, env: Env, ys: seq<Expr>, env': Env)
    requires xs != [] && ys != []
    requires Bounded(xs, env, ys, env') && Bounded(ys, env', xs, env)
    ensures DenoteMax(xs, env) == DenoteMax(ys, env')
  {
    var i := MaxIsReached(xs, env);
    var j := MaxIsReached(ys, env');
    assert Below(Denote(xs[i], env), ys, env') && Below(Denote(ys[j], env'), xs, env);
  }

  /** The operands that `FoldMax` keeps. */
  ghost function Kept(xs: seq<Expr>): seq<Expr> {
    Distinct(xs) + if LargestConst(xs).Some? then [Const(LargestConst(xs).value)] else []
  }

  lemma KeptMembers(xs: seq<Expr>)
    ensures forall i | 0 <= i < |Kept(xs)| :: Kept(xs)[i] in xs
    ensures forall x | x in xs && !x.Const? :: x in Kept(xs)
    ensures forall x | x in xs && x.Const? ::
              LargestConst(xs).Some? && Const(LargestConst(xs).value) in Kept(xs) && x.value <= LargestConst(xs).value
  {
    var ys := Distinct(xs);
    forall i | 0 <= i < |Kept(xs)| ensures Kept(xs)[i] in xs {
      if i < |ys| {
        assert Kept(xs)[i] == ys[i] && ys[i] in ys;
      }
    }
    if LargestConst(xs).Some? {
      assert Kept(xs)[|ys|] == Const(LargestConst(xs).value);
    }
  }

  lemma KeptBounds(xs: seq<Expr>, env: Env)
    ensures Bounded(xs, env, Kept(xs), env) && Bounded(Kept(xs), env, xs, env)
  {
    KeptMembers(xs);
    var zs := Kept(xs);
    forall i | 0 <= i < |xs| ensures Below(Denote(xs[i], env), zs, env) {
      var z := if xs[i].Const? then Const(LargestConst(xs).value) else xs[i];
      assert xs[i] in xs && z in zs;
      var j :| 0 <= j < |zs| && zs[j] == z;
    }
    forall j | 0 <= j < |zs| ensures Below(Denote(zs[j], env), xs, env) {
      var i :| 0 <= i < |xs| && xs[i] == zs[j];
    }
  }

  /** Dropping repeats and all but the largest constant keeps the maximum. */
  lemma FoldMaxMeaning(xs: seq<Expr>, env: Env)
    ensures Denote(FoldMax(xs), env) == DenoteMax(xs, env)
  {
    var zs := Kept(xs);
    assert FoldMax(xs) == if |zs| == 1 then zs[0] else Max(zs);
    assert Denote(FoldMax(xs), env) == DenoteMax(zs, env);
    if xs == [] {
      assert zs == [];
    } else {
      KeptBounds(xs, env);
      assert Below(Denote(xs[0], env), zs, env);
      SameMax(xs, env, zs, env);
    }
  }

  // ----- folding keeps units -----

  /** What folding keeps of an expression of unit `u`. */
  ghost predicate Keeps(units: Units, period: Period, u: Unit, whole: bool, f: Expr) {
    Sound(units, period, f, u) && (whole ==> Whole(units, f))
  }

  lemma {:induction false} FoldKeepsUnits(units: Units, period: Period, e: Expr, u: Unit, vars: Substitution)
    requires Sound(units, period, e, u) && SoundVars(units, period, vars)
    ensures Keeps(units, period, u, Whole(units, e), Fold(e, vars))
    decreases if vars == map[] then 0 else 1, Size(e), 0
  {
    if e.Var? {
      if e.name in vars && UnitOf(units, e.name) == Count {
        CountFits(units, period, vars[e.name], u);
      }
    } else if e.MUToS? {
      FoldKeepsUnits(units, period, e.operand, Machine, vars);
      assert !Whole(units, e);
    } else if e.Bin? {
      var ul, ur := OperandUnits(units, period, e.op, e.lhs, e.rhs, u);
      var l, r := Fold(e.lhs, vars), Fold(e.rhs, vars);
      FoldKeepsUnits(units, period, e.lhs, ul, vars);
      FoldKeepsUnits(units, period, e.rhs, ur, vars);
      FoldBinOpKeepsUnits(units, period, e.op, l, r, ul, ur, u);
      assert Fold(e, vars) == FoldBinOp(e.op, l, r);
      assert Whole(units, e) ==> Whole(units, Bin(e.op, l, r));
    } else if e.Max? {
      var xs := FoldEach(e.operands, vars);
      FoldEachKeepsUnits(units, period, e.operands, u, vars);
      FoldMaxKeepsUnits(units, period, xs, u);
      assert Fold(e, vars) == FoldMax(xs);
      assert Whole(units, e) ==> Whole(units, Max(xs));
    }
  }

  /** The units that the operands of an operator have. */
  ghost predicate Fits(op: Op, ul: Unit, ur: Unit, u: Unit) {
    match op
    case Add => ul == ur == u
    case Sub => ul == ur == u
    case Mul => (ul == Count && ur == u) || (ul == u && ur == Count)
    case TrueDiv => ul == u && ur == Count
    case FloorDiv => ul == u && ur == Count
  }

  lemma OperandUnits(units: Units, period: Period, op: Op, l: Expr, r: Expr, u: Unit) returns (ul: Unit, ur: Unit)
    requires Sound(units, period, Bin(op, l, r), u)
    ensures Sound(units, period, l, ul) && Sound(units, period, r, ur) && Fits(op, ul, ur, u)
    ensures op == FloorDiv ==> Whole(units, l)
  {
    if op == Add || op == Sub {
      ul, ur := u, u;
    } else if op == Mul && HasUnit(units, period, l, Count) && HasUnit(units, period, r, u) {
      ul, ur := Count, u;
    } else {
      ul, ur := u, Count;
    }
  }

  /** The operands of an operator and the result fit the discipline. */
  ghost predicate Operands(units: Units, period: Period, op: Op, l: Expr, r: Expr, ul: Unit, ur: Unit, u: Unit) {
    && Sound(units, period, l, ul) && Sound(units, period, r, ur) && Fits(op, ul, ur, u)
    && (op == FloorDiv ==> Whole(units, l))
  }

  /** Only sums and differences merge conversions to seconds. */
  lemma MergedIsSound(units: Units, period: Period, op: Op, l: Expr, r: Expr, ul: Unit, ur: Unit, u: Unit)
    requires Operands(units, period, op, l, r, ul, ur, u) && l.MUToS? && r.MUToS?
    ensures (op == Add || op == Sub) && u == Seconds && l.period == r.period == period
    ensures Sound(units, period, Bin(op, l.operand, r.operand), Machine)
  {
  }

  lemma {:induction false} FoldBinOpKeepsUnits(
      units: Units, period: Period, op: Op, l: Expr, r: Expr, ul: Unit, ur: Unit, u: Unit)
    requires Operands(units, period, op, l, r, ul, ur, u)
    ensures Keeps(units, period, u, Whole(units, Bin(op, l, r)), FoldBinOp(op, l, r))
    decreases 0, Size(l) + Size(r), 1
  {
    if l.MUToS? && r.MUToS? {
      MergedIsSound(units, period, op, l, r, ul, ur, u);
      var inner := Bin(op, l.operand, r.operand);
      assert Size(inner) == Size(l) + Size(r) - 1;
      FoldKeepsUnits(units, period, MUToS(inner, period), u, map[]);
      assert FoldBinOp(op, l, r) == Fold(MUToS(inner, l.period), map[]);
      assert !Whole(units, Bin(op, l, r));
    } else {
      UnmergedResult(op, l, r);
      UnmergedKeepsUnits(units, period, op, l, r, ul, ur, u, FoldBinOp(op, l, r));
    }
  }

  /** What `_fold_binop` can return when it does not merge. */
  ghost predicate Unmerged(op: Op, l: Expr, r: Expr, f: Expr) {
    || f == Bin(op, l, r)
    || (f == l && (op.Add? || op.Mul? || op.Sub? || op.TrueDiv? || op.FloorDiv?) && r.Const?)
    || (f == r && (op.Add? || op.Mul?) && l.Const?)
    || (l.Const? && r.Const? && f == Const(Apply(op, l.value, r.value)))
  }

  lemma UnmergedResult(op: Op, l: Expr, r: Expr)
    requires !(l.MUToS? && r.MUToS?) && !(l.SToMU? && r.SToMU?)
    ensures Unmerged(op, l, r, FoldBinOp(op, l, r))
  {
  }

  lemma UnmergedKeepsUnits(
      units: Units, period: Period, op: Op, l: Expr, r: Expr, ul: Unit, ur: Unit, u: Unit, f: Expr)
    requires Operands(units, period, op, l, r, ul, ur, u) && Unmerged(op, l, r, f)
    ensures Keeps(units, period, u, Whole(units, Bin(op, l, r)), f)
  {
    if l.Const? && r.Const? && Whole(units, Bin(op, l, r)) {
      assert op != FloorDiv ==> Whole(units, l) && Whole(units, r);
      ApplyIsInt(op, l.value, r.value);
    }
    if ul == Count {
      CountFits(units, period, l, u);
    }
    if ur == Count {
      CountFits(units, period, r, u);
    }
  }

  lemma {:induction false} FoldEachKeepsUnits(units: Units, period: Period, xs: seq<Expr>, u: Unit, vars: Substitution)
    requires forall i | 0 <= i < |xs| :: Sound(units, period, xs[i], u)
    requires SoundVars(units, period, vars)
    ensures forall i | 0 <= i < |xs| :: Keeps(units, period, u, Whole(units, xs[i]), FoldEach(xs, vars)[i])
    decreases if vars == map[] then 0 else 1, Sizes(xs), 1, |xs|
  {
    if xs != [] {
      FoldEachKeepsUnits(units, period, xs[..|xs| - 1], u, vars);
      FoldKeepsUnits(units, period, xs[|xs| - 1], u, vars);
    }
  }

  lemma FoldMaxKeepsUnits(units: Units, period: Period, xs: seq<Expr>, u: Unit)
    requires forall i | 0 <= i < |xs| :: Sound(units, period, xs[i], u)
    ensures Keeps(units, period, u, Whole(units, Max(xs)), FoldMax(xs))
  {
    KeptMembers(xs);
    var zs := Kept(xs);
    forall j | 0 <= j < |zs| ensures Keeps(units, period, u, Whole(units, Max(xs)), zs[j]) {
      var i :| 0 <= i < |xs| && xs[i] == zs[j];
    }
    assert FoldMax(xs) == if |zs| == 1 then zs[0] else Max(zs);
  }

  // ----- folding keeps the meaning -----

  /** Folding with substitution is evaluation with substitution: the value of the folded
      expression is the value of the original where every covered variable has the value of its
      substitute. */
  lemma {:induction false} FoldMeaning(units: Units, period: Period, e: Expr, u: Unit, vars: Substitution, env: Env)
    requires Sound(units, period, e, u) && SoundVars(units, period, vars) && Respects(units, env)
    ensures Denote(Fold(e, vars), env) == Denote(e, After(vars, env))
    decreases if vars == map[] then 0 else 1, Size(e), 0
  {
    var env' := After(vars, env);
    if e.MUToS? {
      var o := Fold(e.operand, vars);
      FoldMeaning(units, period, e.operand, Machine, vars, env);
      ConversionMeaning(e.operand, env', o, env, e.period);
      assert Fold(e, vars) == FoldMUToS(o, e.period);
    } else if e.Bin? {
      var l, r := Fold(e.lhs, vars), Fold(e.rhs, vars);
      BinMeaning(units, period, e, u, vars, env);
      assert Fold(e, vars) == FoldBinOp(e.op, l, r);
      assert Denote(e, env') == Apply(e.op, Denote(l, env), Denote(r, env));
    } else if e.Max? {
      var xs := FoldEach(e.operands, vars);
      FoldEachMeaning(units, period, e.operands, u, vars, env);
      MaxMeaning(e.operands, xs, env', env);
      assert Fold(e, vars) == FoldMax(xs);
    }
  }

  lemma {:induction false} BinMeaning(units: Units, period: Period, e: Expr, u: Unit, vars: Substitution, env: Env)
    requires Sound(units, period, e, u) && SoundVars(units, period, vars) && Respects(units, env) && e.Bin?
    ensures Denote(Fold(e.lhs, vars), env) == Denote(e.lhs, After(vars, env))
    ensures Denote(Fold(e.rhs, vars), env) == Denote(e.rhs, After(vars, env))
    ensures Denote(FoldBinOp(e.op, Fold(e.lhs, vars), Fold(e.rhs, vars)), env) ==
            Apply(e.op, Denote(Fold(e.lhs, vars), env), Denote(Fold(e.rhs, vars), env))
    decreases if vars == map[] then 0 else 1, Size(e), 0, 0
  {
    var ul, ur := OperandUnits(units, period, e.op, e.lhs, e.rhs, u);
    FoldMeaning(units, period, e.lhs, ul, vars, env);
    FoldMeaning(units, period, e.rhs, ur, vars, env);
    FoldKeepsUnits(units, period, e.lhs, ul, vars);
    FoldKeepsUnits(units, period, e.rhs, ur, vars);
    FoldBinOpMeaning(units, period, e.op, Fold(e.lhs, vars), Fold(e.rhs, vars), ul, ur, u, env);
  }

  /** A maximum of folded operands. */
  lemma MaxMeaning(xs: seq<Expr>, ys: seq<Expr>, env: Env, env': Env)
    requires |xs| == |ys|
    requires forall i | 0 <= i < |xs| :: Denote(xs[i], env) == Denote(ys[i], env')
    ensures DenoteMax(xs, env) == Denote(FoldMax(ys), env')
  {
    FoldMaxMeaning(ys, env');
    if xs != [] {
      forall i | 0 <= i < |xs| ensures Below(Denote(xs[i], env), ys, env') && Below(Denote(ys[i], env'), xs, env) {
        assert Denote(ys[i], env') == Denote(xs[i], env);
      }
      SameMax(xs, env, ys, env');
    }
  }

  /** A conversion of a folded operand. */
  lemma ConversionMeaning(o: Expr, env: Env, o': Expr, env': Env, p: Period)
    requires Denote(o, env) == Denote(o', env')
    ensures Denote(MUToS(o, p), env) == Denote(FoldMUToS(o', p), env')
  {
  }

  lemma Distributes(op: Op, a: real, b: real, p: real)
    requires op == Add || op == Sub
    ensures Scaled(Apply(op, a, b), p) == Apply(op, Scaled(a, p), Scaled(b, p))
  {
  }

  /** Merging conversions in a sum or difference. */
  lemma MergedMeaning(op: Op, a: Expr, b: Expr, p: Period, env: Env)
    requires op == Add || op == Sub
    ensures Denote(MUToS(Bin(op, a, b), p), env) == Apply(op, Denote(MUToS(a, p), env), Denote(MUToS(b, p), env))
  {
    var x, y := Denote(a, env), Denote(b, env);
    BinOf(op, a, b, env, x, y);
    ScaledMeaning(Bin(op, a, b), p, env);
    ScaledMeaning(a, p, env);
    ScaledMeaning(b, p, env);
    Distributes(op, x, y, p);
  }

  lemma ScaledMeaning(a: Expr, p: Period, env: Env)
    ensures Denote(MUToS(a, p), env) == Scaled(Denote(a, env), p)
  {
  }

  lemma BinOf(op: Op, l: Expr, r: Expr, env: Env, x: real, y: real)
    requires Denote(l, env) == x && Denote(r, env) == y
    ensures Denote(Bin(op, l, r), env) == Apply(op, x, y)
  {
  }

  lemma {:induction false} FoldBinOpMeaning(
      units: Units, period: Period, op: Op, l: Expr, r: Expr, ul: Unit, ur: Unit, u: Unit, env: Env)
    requires Operands(units, period, op, l, r, ul, ur, u) && Respects(units, env)
    ensures Denote(FoldBinOp(op, l, r), env) == Apply(op, Denote(l, env), Denote(r, env))
    decreases 0, Size(l) + Size(r), 1
  {
    if l.MUToS? && r.MUToS? {
      MergedIsSound(units, period, op, l, r, ul, ur, u);
      var a, b := l.operand, r.operand;
      var inner := Bin(op, a, b);
      assert Size(inner) == Size(l) + Size(r) - 1;
      FoldMeaning(units, period, MUToS(inner, period), u, map[], env);
      assert After(map[], env) == env;
      MergedMeaning(op, a, b, period, env);
      assert l == MUToS(a, period) && r == MUToS(b, period);
      assert FoldBinOp(op, l, r) == Fold(MUToS(inner, period), map[]);
    } else {
      if op == FloorDiv {
        WholeIsInt(units, l, env);
      }
      UnmergedMeaning(op, l, r, env);
    }
  }

  lemma Neutral(a: real)
    ensures Apply(Add, 0.0, a) == Apply(Add, a, 0.0) == Apply(Sub, a, 0.0) == a
    ensures Apply(Mul, 1.0, a) == Apply(Mul, a, 1.0) == Apply(TrueDiv, a, 1.0) == a
    ensures IsInt(a) ==> Apply(FloorDiv, a, 1.0) == a
  {
  }

  /** The arms that drop a neutral operand or compute a constant. */
  lemma UnmergedMeaning(op: Op, l: Expr, r: Expr, env: Env)
    requires !(l.MUToS? && r.MUToS?) && !(l.SToMU? && r.SToMU?)
    requires op == FloorDiv ==> IsInt(Denote(l, env))
    ensures Denote(FoldBinOp(op, l, r), env) == Apply(op, Denote(l, env), Denote(r, env))
  {
    var x, y := Denote(l, env), Denote(r, env);
    if (op == Add && IsUnit(l, 0.0)) || (op == Mul && IsUnit(l, 1.0)) {
      Neutral(y);
    } else if (op in {Add, Sub} && IsUnit(r, 0.0)) || (op in {Mul, TrueDiv, FloorDiv} && IsUnit(r, 1.0)) {
      Neutral(x);
    } else if l.Const? && r.Const? {
      assert FoldBinOp(op, l, r) == Const(Apply(op, x, y));
    } else {
      assert FoldBinOp(op, l, r) == Bin(op, l, r);
      BinOf(op, l, r, env, x, y);
    }
  }

  lemma {:induction false} FoldEachMeaning(
      units: Units, period: Period, xs: seq<Expr>, u: Unit, vars: Substitution, env: Env)
    requires forall i | 0 <= i < |xs| :: Sound(units, period, xs[i], u)
    requires SoundVars(units, period, vars) && Respects(units, env)
    ensures forall i | 0 <= i < |xs| :: Denote(xs[i], After(vars, env)) == Denote(FoldEach(xs, vars)[i], env)
    decreases if vars == map[] then 0 else 1, Sizes(xs), 1, |xs|
  {
    if xs != [] {
      FoldEachMeaning(units, period, xs[..|xs| - 1], u, vars, env);
      FoldMeaning(units, period, xs[|xs| - 1], u, vars, env);
    }
  }
}
