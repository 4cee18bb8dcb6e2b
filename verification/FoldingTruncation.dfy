/**
Merging two conversions to machine units, which folding does under every operator and for any two
periods: it is never right for all values, and a sum is off by a bounded amount only if the periods
are the same.
*/
module FoldingTruncation {
  import opened IODelay
  import opened FoldingMeaning
  import opened FoldingRounding
  import Normal = FoldingNormalForms

  /** The operator inside one conversion, as folding leaves it, and outside two, as written. */
  ghost function Merged(op: Op, p: Period, x: real, y: real): real {
    Trunc(Apply(op, x, y) / p) as real
  }

  ghost function Unmerged(op: Op, p: Period, q: Period, x: real, y: real): real {
    Apply(op, Trunc(x / p) as real, Trunc(y / q) as real)
  }

  lemma BothTruncated(op: Op, a: string, b: string, p: Period, q: Period, env: Env)
    ensures Denote(FoldBinOp(op, SToMU(Var(a), p), SToMU(Var(b), q)), env) ==
            Merged(op, p, Lookup(env, a), Lookup(env, b))
    ensures Denote(Bin(op, SToMU(Var(a), p), SToMU(Var(b), q)), env) ==
            Unmerged(op, p, q, Lookup(env, a), Lookup(env, b))
  {
    var inner := Bin(op, Var(a), Var(b));
    assert Normal.Normal(Var(a)) && Normal.Normal(Var(b)) && Normal.Normal(inner);
    Normal.NormalIsFixed(SToMU(inner, p));
    assert FoldBinOp(op, SToMU(Var(a), p), SToMU(Var(b), q)) == SToMU(inner, p);
    BinOf(op, Var(a), Var(b), env, Lookup(env, a), Lookup(env, b));
    BinOf(op, SToMU(Var(a), p), SToMU(Var(b), q), env,
          Trunc(Lookup(env, a) / p) as real, Trunc(Lookup(env, b) / q) as real);
  }

  // ----- a witness for each operator -----

  lemma Half(p: Period)
    ensures (p / 2.0) / p == 0.5 && Trunc(0.5) == 0 && Trunc(-0.5) == 0
  {
  }

  /** A quotient is known by its product with the divisor. */
  lemma IsQuotient(x: real, p: Period, u: real)
    requires x == u * p
    ensures x / p == u
  {
  }

  /** Two parts of less than one unit that make up one or more. */
  lemma SmallParts(r: real) returns (u: real, v: real)
    requires r != 0.0
    ensures Trunc(u) == 0 && Trunc(v) == 0 && Trunc(u + r * v) >= 1
  {
    v := if r > 0.0 then 0.5 else -0.5;
    var t := r * v;
    assert t > 0.0;
    u := if t <= 1.0 then 1.0 - t else 0.0;
    assert u + t >= 1.0;
    TruncBounds(u + t);
  }

  lemma SumIsWrong(op: Op, p: Period, q: Period) returns (x: real, y: real)
    requires op == Add || op == Sub
    ensures Merged(op, p, x, y) != Unmerged(op, p, q, x, y)
  {
    var r := q / p;
    assert r != 0.0 by {
      assert r * p == q;
    }
    var u, v := SmallParts(r);
    var w := if op == Add then v else -v;
    x, y := u * p, w * q;
    IsQuotient(x, p, u);
    IsQuotient(y, q, w);
    TruncNegates(v);
    SumQuotient(op, p, q, r, u, v, x, y);
  }

  lemma SumQuotient(op: Op, p: Period, q: Period, r: real, u: real, v: real, x: real, y: real)
    requires op == Add || op == Sub
    requires r == q / p && x == u * p && y == (if op == Add then v else -v) * q
    ensures Apply(op, x, y) / p == u + r * v
  {
    assert r * p == q;
    assert v * q == (r * v) * p;
    assert (-v) * q == -((r * v) * p);
    assert Apply(op, x, y) == (u + r * v) * p;
    IsQuotient(Apply(op, x, y), p, u + r * v);
  }

  lemma ProductIsWrong(p: Period, q: Period) returns (x: real, y: real)
    ensures Merged(Mul, p, x, y) != Unmerged(Mul, p, q, x, y)
  {
    x, y := p / 2.0, 2.0;
    Half(p);
    assert x * y == p;
    assert p / p == 1.0 && Trunc(1.0) == 1;
  }

  lemma QuotientIsWrong(p: Period, q: Period) returns (x: real, y: real)
    ensures Merged(TrueDiv, p, x, y) != Unmerged(TrueDiv, p, q, x, y)
  {
    x, y := p / 2.0, 0.5;
    Half(p);
    assert x / y == p;
    assert p / p == 1.0 && Trunc(1.0) == 1;
    ZeroOver(TrueDiv, Trunc(y / q) as real);
  }

  lemma ZeroOver(op: Op, d: real)
    requires op == TrueDiv || op == FloorDiv
    ensures Apply(op, 0.0, d) == 0.0
  {
    if d != 0.0 {
      IsQuotient(0.0, d, 0.0);
    }
  }

  lemma FloorIsWrong(p: Period, q: Period) returns (x: real, y: real)
    ensures Merged(FloorDiv, p, x, y) != Unmerged(FloorDiv, p, q, x, y)
  {
    var k := if p > 0.0 then p.Floor + 1 else p.Floor;
    assert k != 0;
    x := p / 2.0;
    y := x / k as real;
    Half(p);
    FloorOf(x, y, k);
    AtLeastOne(k, p);
    TruncBounds(k as real / p);
    ZeroOver(FloorDiv, Trunc(y / q) as real);
  }

  lemma FloorOf(x: real, y: real, k: int)
    requires k != 0 && x != 0.0 && y == x / k as real
    ensures y != 0.0 && (x / y).Floor == k
  {
    assert y * k as real == x;
    IsQuotient(x, y, k as real);
  }

  lemma AtLeastOne(k: int, p: Period)
    requires if p > 0.0 then k as real >= p else k as real <= p
    ensures k as real / p >= 1.0
  {
    var c := k as real / p;
    assert c * p == k as real;
    if c < 1.0 {
      assert (1.0 - c) * p == p - k as real;
    }
  }

  /** Whatever the operator and the periods, merging two conversions to machine units is wrong for some
      values of the converted variables. */
  lemma TruncatedMergeIsNeverRight(op: Op, a: string, b: string, p: Period, q: Period) returns (env: Env)
    requires a != b
    ensures Denote(FoldBinOp(op, SToMU(Var(a), p), SToMU(Var(b), q)), env) !=
            Denote(Bin(op, SToMU(Var(a), p), SToMU(Var(b), q)), env)
  {
    var x, y;
    match op {
      case Add => x, y := SumIsWrong(op, p, q);
      case Sub => x, y := SumIsWrong(op, p, q);
      case Mul => x, y := ProductIsWrong(p, q);
      case TrueDiv => x, y := QuotientIsWrong(p, q);
      case FloorDiv => x, y := FloorIsWrong(p, q);
    }
    env := map[a := x, b := y];
    BothTruncated(op, a, b, p, q, env);
  }

  // ----- how wrong a sum can be -----

  /** A number of periods that is off by more than n. */
  lemma FarOff(r: real, n: nat) returns (k: nat)
    requires r != 1.0
    ensures !Within(Trunc(r * k as real) as real, k as real, n)
  {
    var gap := if r > 1.0 then r - 1.0 else 1.0 - r;
    k := ((n + 2) as real / gap).Floor + 1;
    assert gap * k as real > (n + 2) as real by {
      FarEnough(gap, (n + 2) as real, k);
    }
    var z := r * k as real;
    assert z - k as real == (r - 1.0) * k as real;
    TruncBounds(z);
  }

  lemma FarEnough(gap: real, m: real, k: nat)
    requires gap > 0.0 && k as real > m / gap
    ensures gap * k as real > m
  {
    var c := m / gap;
    assert c * gap == m;
    assert (k as real - c) * gap > 0.0;
  }

  lemma SumIsFarOff(op: Op, p: Period, q: Period, n: nat) returns (x: real, y: real)
    requires (op == Add || op == Sub) && p != q
    ensures !Within(Merged(op, p, x, y), Unmerged(op, p, q, x, y), n)
  {
    var r := q / p;
    OtherRatio(p, q, r);
    var k := FarOff(r, n);
    x := 0.0;
    y := Multiple(k, p, q, r);
    OffBy(op, p, q, y, r * k as real, k, n);
  }

  lemma Multiple(k: nat, p: Period, q: Period, r: real) returns (y: real)
    requires r == q / p
    ensures y / p == r * k as real && y / q == k as real
  {
    y := k as real * q;
    OverPeriod(k as real, p, q, r);
    IsQuotient(y, q, k as real);
  }

  lemma OffBy(op: Op, p: Period, q: Period, y: real, z: real, k: nat, n: nat)
    requires (op == Add || op == Sub) && y / p == z && y / q == k as real
    requires !Within(Trunc(z) as real, k as real, n)
    ensures !Within(Merged(op, p, 0.0, y), Unmerged(op, p, q, 0.0, y), n)
  {
    NothingAnd(op, p, q, y, z, k);
    NotWithin(Merged(op, p, 0.0, y), Unmerged(op, p, q, 0.0, y), Trunc(z) as real, k as real, n);
  }

  lemma OtherRatio(p: Period, q: Period, r: real)
    requires r == q / p && p != q
    ensures r != 1.0
  {
    assert r * p == q;
  }

  lemma NotWithin(a: real, b: real, c: real, d: real, n: int)
    requires !Within(c, d, n) && ((a == c && b == d) || (a == -c && b == -d))
    ensures !Within(a, b, n)
  {
  }

  /** A sum of nothing and k periods. */
  lemma NothingAnd(op: Op, p: Period, q: Period, y: real, z: real, k: nat)
    requires (op == Add || op == Sub) && y / p == z && y / q == k as real
    ensures Merged(op, p, 0.0, y) == if op == Add then Trunc(z) as real else -(Trunc(z) as real)
    ensures Unmerged(op, p, q, 0.0, y) == if op == Add then k as real else -(k as real)
  {
    assert y == z * p;
    IsQuotient(0.0, p, 0.0);
    IsQuotient(-y, p, -z);
    TruncNegates(z);
  }

  lemma OverPeriod(k: real, p: Period, q: Period, r: real)
    requires r == q / p
    ensures k * q == (r * k) * p && (k * q) / p == r * k
  {
    assert r * p == q;
    IsQuotient(k * q, p, r * k);
  }

  /** Merging two conversions of variables changes no value by more than n. */
  ghost predicate OffByAtMost(op: Op, a: string, b: string, p: Period, q: Period, n: nat) {
    forall env: Env ::
      Within(Denote(FoldBinOp(op, SToMU(Var(a), p), SToMU(Var(b), q)), env),
             Denote(Bin(op, SToMU(Var(a), p), SToMU(Var(b), q)), env), n)
  }

  /** A merged sum or difference is off by a bounded amount if and only if the periods are the same. */
  lemma SumErrorIsBoundedIffSamePeriod(op: Op, a: string, b: string, p: Period, q: Period)
    requires (op == Add || op == Sub) && a != b
    ensures p == q <==> exists n: nat :: OffByAtMost(op, a, b, p, q, n)
  {
    if p == q {
      forall env: Env
        ensures Within(Denote(FoldBinOp(op, SToMU(Var(a), p), SToMU(Var(b), q)), env),
                       Denote(Bin(op, SToMU(Var(a), p), SToMU(Var(b), q)), env), 1)
      {
        BothTruncated(op, a, b, p, q, env);
        TruncApply(op, Lookup(env, a), Lookup(env, b), p);
      }
      assert OffByAtMost(op, a, b, p, q, 1);
    } else {
      forall n: nat ensures !OffByAtMost(op, a, b, p, q, n) {
        var x, y := SumIsFarOff(op, p, q, n);
        var env: Env := map[a := x, b := y];
        BothTruncated(op, a, b, p, q, env);
        assert !Within(Denote(FoldBinOp(op, SToMU(Var(a), p), SToMU(Var(b), q)), env),
                       Denote(Bin(op, SToMU(Var(a), p), SToMU(Var(b), q)), env), n);
      }
    }
  }

  // ----- floor division by one -----

  /** Dropping a floor division by one is right for every expression that the units make whole. */
  lemma FloorByOneOfWhole(units: Units, l: Expr, env: Env)
    requires Whole(units, l) && Respects(units, env)
    ensures Denote(FoldBinOp(FloorDiv, l, Const(1.0)), env) == Denote(Bin(FloorDiv, l, Const(1.0)), env)
  {
    WholeIsInt(units, l, env);
    Neutral(Denote(l, env));
    BinOf(FloorDiv, l, Const(1.0), env, Denote(l, env), 1.0);
  }

  /** For a variable it is right in all environments that respect the units if and only if the variable
      is not a number of seconds. */
  lemma FloorByOneIsRightIffCounted(units: Units, x: string)
    ensures UnitOf(units, x) != Seconds <==>
            forall env: Env | Respects(units, env) ::
              Denote(FoldBinOp(FloorDiv, Var(x), Const(1.0)), env) == Denote(Bin(FloorDiv, Var(x), Const(1.0)), env)
  {
    if UnitOf(units, x) != Seconds {
      forall env: Env | Respects(units, env)
        ensures Denote(FoldBinOp(FloorDiv, Var(x), Const(1.0)), env) == Denote(Bin(FloorDiv, Var(x), Const(1.0)), env)
      {
        FloorByOneOfWhole(units, Var(x), env);
      }
    } else {
      var env: Env := map[x := 0.5];
      BinOf(FloorDiv, Var(x), Const(1.0), env, 0.5, 1.0);
      assert Respects(units, env);
      assert Denote(FoldBinOp(FloorDiv, Var(x), Const(1.0)), env) == 0.5;
    }
  }
}
