/**
Symbolic RTIO delays and their folding (artiq/compiler/iodelay.py).

Numbers are exact reals, which leaves out floating-point rounding; whether a number is an `int`
in Python is the predicate `IsInt`.  `Denote` is the meaning that `eval` is written for: the
`eval` of `Max` forgets to pass its environment on and `Var` has none, so the meaning of those two
is the evident one, a maximum and a lookup.
*/
module IODelay {

  datatype Op = Add | Mul | Sub | TrueDiv | FloorDiv

  /** The period of a clock; the code divides by it. */
  type Period = r: real | r != 0.0 witness 1.0

  datatype Expr =
    | Const(value: real)
    | Var(name: string)
    | MUToS(operand: Expr, period: Period)
    | SToMU(operand: Expr, period: Period)
    | Bin(op: Op, lhs: Expr, rhs: Expr)
    | Max(operands: seq<Expr>)

  /** Substitutes for variables; `None` in the source is the empty map. */
  type Substitution = map<string, Expr>

  // ----- numbers -----

  predicate IsInt(x: real) {
    x == x.Floor as real
  }

  /** `int(x)`: towards zero. */
  function Trunc(x: real): int {
    if x >= 0.0 then x.Floor else -((-x).Floor)
  }

  /** The operators, with division by zero defined as the source defines it. */
  function Apply(op: Op, a: real, b: real): real {
    match op
    case Add => a + b
    case Mul => a * b
    case Sub => a - b
    case TrueDiv => if b != 0.0 then a / b else 0.0
    case FloorDiv => if b != 0.0 then (a / b).Floor as real else 0.0
  }

  /** A conversion of machine units by a clock period. */
  function Scaled(x: real, p: real): real {
    x * p
  }

  function Larger(a: real, b: real): real {
    if a >= b then a else b
  }

  // ----- folding -----

  function Size(e: Expr): (n: nat)
    ensures n >= 1
  {
    match e
    case Const(_) => 1
    case Var(_) => 1
    case MUToS(o, _) => 1 + Size(o)
    case SToMU(o, _) => 1 + Size(o)
    case Bin(_, l, r) => 1 + Size(l) + Size(r)
    case Max(xs) => 1 + Sizes(xs)
  }

  function Sizes(xs: seq<Expr>): nat {
    if xs == [] then 0 else Sizes(xs[..|xs| - 1]) + Size(xs[|xs| - 1])
  }

  /** `fold`.  The arm that merges conversions folds a term that it has just built, so this
      terminates only because folding without substitutes never makes a term larger. */
  function Fold(e: Expr, vars: Substitution): (f: Expr)
    ensures vars == map[] ==> Size(f) <= Size(e)
    decreases if vars == map[] then 0 else 1, Size(e), 0
  {
    match e
    case Const(_) => e
    case Var(x) => if x in vars then vars[x] else e
    case MUToS(o, p) => FoldMUToS(Fold(o, vars), p)
    case SToMU(o, p) => FoldSToMU(Fold(o, vars), p)
    case Bin(op, l, r) => FoldBinOp(op, Fold(l, vars), Fold(r, vars))
    case Max(xs) =>
      var xs' := FoldEach(xs, vars);
      FoldMaxShrinks(xs');
      FoldMax(xs')
  }

  /** `MUToS.fold` on a folded operand. */
  function FoldMUToS(o: Expr, p: Period): Expr {
    if o.Const? then Const(Scaled(o.value, p)) else MUToS(o, p)
  }

  /** `SToMU.fold` on a folded operand. */
  function FoldSToMU(o: Expr, p: Period): Expr {
    if o.Const? then Const(Trunc(o.value / p) as real) else SToMU(o, p)
  }

  function FoldEach(xs: seq<Expr>, vars: Substitution): (ys: seq<Expr>)
    ensures |ys| == |xs|
    ensures vars == map[] ==> Sizes(ys) <= Sizes(xs)
    decreases if vars == map[] then 0 else 1, Sizes(xs), 1, |xs|
  {
    if xs == [] then [] else
      var ys := FoldEach(xs[..|xs| - 1], vars) + [Fold(xs[|xs| - 1], vars)];
      assert ys[..|ys| - 1] == FoldEach(xs[..|xs| - 1], vars);
      ys
  }

  /** The operand that an operator can drop: neutral on either side, or on the right only. */
  predicate IsUnit(e: Expr, unit: real) {
    e.Const? && e.value == unit
  }

  /** `_fold_binop` of each operator class, on folded operands. */
  function FoldBinOp(op: Op, l: Expr, r: Expr): (f: Expr)
    ensures Size(f) <= 1 + Size(l) + Size(r)
    decreases 0, Size(l) + Size(r), 1
  {
    if op == Add && IsUnit(l, 0.0) then r
    else if op == Add && IsUnit(r, 0.0) then l
    else if op == Mul && IsUnit(l, 1.0) then r
    else if op == Mul && IsUnit(r, 1.0) then l
    else if op == Sub && IsUnit(r, 0.0) then l
    else if (op == TrueDiv || op == FloorDiv) && IsUnit(r, 1.0) then l
    else if l.Const? && r.Const? then Const(Apply(op, l.value, r.value))
    else if l.MUToS? && r.MUToS? then
      var inner := Bin(op, l.operand, r.operand);
      assert Size(inner) == Size(l) + Size(r) - 1;
      Fold(MUToS(inner, l.period), map[])
    else if l.SToMU? && r.SToMU? then
      var inner := Bin(op, l.operand, r.operand);
      assert Size(inner) == Size(l) + Size(r) - 1;
      Fold(SToMU(inner, l.period), map[])
    else Bin(op, l, r)
  }

  // ----- Max -----

  /** The operands other than constants, each at its first place. */
  function Distinct(xs: seq<Expr>): (ys: seq<Expr>)
    ensures forall y | y in ys :: !y.Const? && y in xs
    ensures forall x | x in xs :: x.Const? || x in ys
    ensures Sizes(ys) <= Sizes(xs)
    ensures (exists x :: x in xs && x.Const?) ==> Sizes(ys) < Sizes(xs)
  {
    if xs == [] then [] else
      var ys, x := Distinct(xs[..|xs| - 1]), xs[|xs| - 1];
      if x.Const? || x in ys then ys
      else
        assert (ys + [x])[..|ys|] == ys;
        ys + [x]
  }

  datatype Largest = None | Some(value: real)

  /** The largest constant. */
  function LargestConst(xs: seq<Expr>): (m: Largest)
    ensures m.None? <==> forall x | x in xs :: !x.Const?
    ensures m.Some? ==> Const(m.value) in xs && forall x | x in xs && x.Const? :: x.value <= m.value
  {
    if xs == [] then None else
      var m, x := LargestConst(xs[..|xs| - 1]), xs[|xs| - 1];
      if !x.Const? then m
      else if m.None? then Some(x.value)
      else Some(Larger(m.value, x.value))
  }

  /** `Max.fold` on folded operands. */
  function FoldMax(xs: seq<Expr>): Expr {
    var m := LargestConst(xs);
    var ys := Distinct(xs) + if m.Some? then [Const(m.value)] else [];
    if |ys| == 1 then ys[0] else Max(ys)
  }

  lemma SizesAppend(xs: seq<Expr>, x: Expr)
    ensures Sizes(xs + [x]) == Sizes(xs) + Size(x)
  {
    assert (xs + [x])[..|xs|] == xs;
  }

  lemma FoldMaxShrinks(xs: seq<Expr>)
    ensures Size(FoldMax(xs)) <= 1 + Sizes(xs)
  {
    var m := LargestConst(xs);
    var ys := Distinct(xs);
    if m.Some? {
      SizesAppend(ys, Const(m.value));
      SmallestSizes(ys + [Const(m.value)]);
    } else {
      assert ys + [] == ys;
      SmallestSizes(ys);
    }
  }

  lemma SmallestSizes(ys: seq<Expr>)
    ensures Size(if |ys| == 1 then ys[0] else Max(ys)) <= 1 + Sizes(ys)
  {
    if |ys| == 1 {
      SizesAppend([], ys[0]);
      assert [] + [ys[0]] == ys;
    }
  }

  /** The state of the loop after some folded operands: the constants, and the others without repeats. */
  ghost predicate Sorted(ys: seq<Expr>, consts: seq<real>, exprs: seq<Expr>) {
    && exprs == Distinct(ys)
    && (LargestConst(ys).None? <==> consts == [])
    && (consts != [] ==> LargestConst(ys).value == LargestOf(consts))
  }

  lemma SortedConst(ys: seq<Expr>, consts: seq<real>, exprs: seq<Expr>, y: Expr)
    requires Sorted(ys, consts, exprs) && y.Const?
    ensures Sorted(ys + [y], consts + [y.value], exprs)
  {
    var zs := ys + [y];
    assert zs[..|zs| - 1] == ys && zs[|zs| - 1] == y;
    assert Distinct(zs) == Distinct(ys);
    LargestAppend(consts, y.value);
  }

  lemma LargestAppend(xs: seq<real>, x: real)
    ensures LargestOf(xs + [x]) == if xs == [] then x else Larger(LargestOf(xs), x)
  {
    assert (xs + [x])[..|xs|] == xs;
  }

  lemma SortedExpr(ys: seq<Expr>, consts: seq<real>, exprs: seq<Expr>, y: Expr)
    requires Sorted(ys, consts, exprs) && !y.Const?
    ensures Sorted(ys + [y], consts, if y in exprs then exprs else exprs + [y])
  {
    var zs := ys + [y];
    assert zs[..|zs| - 1] == ys && zs[|zs| - 1] == y;
    assert LargestConst(zs) == LargestConst(ys);
  }

  /** `Max.fold`, with its loop that folds and sorts the operands. */
  method CollectMax(xs: seq<Expr>, vars: Substitution) returns (f: Expr)
    ensures f == Fold(Max(xs), vars)
  {
    var consts: seq<real>, exprs: seq<Expr> := [], [];
    for i := 0 to |xs|
      invariant Sorted(FoldEach(xs[..i], vars), consts, exprs)
    {
      FoldedPrefix(xs, i, vars);
      consts, exprs := SortIn(FoldEach(xs[..i], vars), consts, exprs, Fold(xs[i], vars));
    }
    FoldedAll(xs, vars);
    f := Collected(FoldEach(xs[..|xs|], vars), consts, exprs);
  }

  /** The body of the loop of `Max.fold`, for a folded operand. */
  method SortIn(ghost ys: seq<Expr>, consts: seq<real>, exprs: seq<Expr>, y: Expr)
    returns (consts': seq<real>, exprs': seq<Expr>)
    requires Sorted(ys, consts, exprs)
    ensures Sorted(ys + [y], consts', exprs')
  {
    consts', exprs' := consts, exprs;
    if y.Const? {
      SortedConst(ys, consts, exprs, y);
      consts' := consts + [y.value];
    } else {
      SortedExpr(ys, consts, exprs, y);
      if y !in exprs {
        exprs' := exprs + [y];
      }
    }
  }

  lemma FoldedAll(xs: seq<Expr>, vars: Substitution)
    ensures Fold(Max(xs), vars) == FoldMax(FoldEach(xs[..|xs|], vars))
  {
    assert xs[..|xs|] == xs;
  }

  /** The end of `Max.fold`. */
  method Collected(ghost ys: seq<Expr>, consts: seq<real>, exprs0: seq<Expr>) returns (f: Expr)
    requires Sorted(ys, consts, exprs0)
    ensures f == FoldMax(ys)
  {
    var exprs := exprs0;
    if |consts| > 0 {
      exprs := exprs + [Const(LargestOf(consts))];
    } else {
      assert exprs + [] == exprs;
    }
    if |exprs| == 1 {
      return exprs[0];
    }
    return Max(exprs);
  }

  lemma FoldedPrefix(xs: seq<Expr>, i: nat, vars: Substitution)
    requires i < |xs|
    ensures FoldEach(xs[..i + 1], vars) == FoldEach(xs[..i], vars) + [Fold(xs[i], vars)]
  {
    assert xs[..i + 1][..i] == xs[..i];
  }

  /** Python's `max` of a non-empty list. */
  function LargestOf(xs: seq<real>): (m: real)
    requires xs != []
    ensures m in xs && forall x | x in xs :: x <= m
  {
    if |xs| == 1 then xs[0] else
      assert xs == xs[..|xs| - 1] + [xs[|xs| - 1]];
      Larger(LargestOf(xs[..|xs| - 1]), xs[|xs| - 1])
  }

  // ----- meaning -----

  /** Values of variables; the ones it does not mention are zero. */
  type Env = map<string, real>

  function Lookup(env: Env, x: string): real {
    if x in env then env[x] else 0.0
  }

  function Denote(e: Expr, env: Env): real {
    match e
    case Const(v) => v
    case Var(x) => Lookup(env, x)
    case MUToS(o, p) => Scaled(Denote(o, env), p)
    case SToMU(o, p) => Trunc(Denote(o, env) / p) as real
    case Bin(op, l, r) => Apply(op, Denote(l, env), Denote(r, env))
    case Max(xs) => DenoteMax(xs, env)
  }

  function DenoteMax(xs: seq<Expr>, env: Env): real {
    if xs == [] then 0.0
    else if |xs| == 1 then Denote(xs[0], env)
    else Larger(DenoteMax(xs[..|xs| - 1], env), Denote(xs[|xs| - 1], env))
  }

  /** The environment with each substituted variable set to the value of its substitute. */
  function After(vars: Substitution, env: Env): Env {
    env + map x | x in vars :: Denote(vars[x], env)
  }

  function FreeVars(e: Expr): set<string> {
    match e
    case Const(_) => {}
    case Var(x) => {x}
    case MUToS(o, _) => FreeVars(o)
    case SToMU(o, _) => FreeVars(o)
    case Bin(_, l, r) => FreeVars(l) + FreeVars(r)
    case Max(xs) => FreeVarsOf(xs)
  }

  function FreeVarsOf(xs: seq<Expr>): set<string> {
    if xs == [] then {} else FreeVarsOf(xs[..|xs| - 1]) + FreeVars(xs[|xs| - 1])
  }
}
