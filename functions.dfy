/**
 * Differentiable functions of one variable (`hw3/basic_func.h`,
 * `hw3/binops.h`, `hw3/factory.h`).
 *
 * A function is an expression tree. Its value and the value of its
 * derivative at a point are computed over `real`; `exp`, real `pow`, a
 * division by zero and the stream formatting of a `double` are operations of
 * the environment `Env`, left uninterpreted. The factory and the binary
 * operators take operands that may be absent (a null `TFunctionPtr`).
 */
module Functions {
  import opened Wrappers

  datatype Func =
    | Ident
    | Const(c: real)
    | Exp
    | Power(p: real)
    | Polynomial(coef: seq<real>)
    | Sum(lhs: Func, rhs: Func)
    | Diff(lhs: Func, rhs: Func)
    | Mul(lhs: Func, rhs: Func)
    | Div(lhs: Func, rhs: Func)

  /** `std::exp`, `std::pow`, `a / 0.` and `std::ostream << double`. */
  datatype Env = Env(exp: real -> real, pow: (real, real) -> real, overZero: real -> real, show: real -> string)

  /** Floating-point division; a zero divisor is left to the environment. */
  function Quot(a: real, b: real, env: Env): real
  {
    if b != 0.0 then a / b else env.overZero(a)
  }

  // ---------------------------------------------------------------------
  // Polynomials
  // ---------------------------------------------------------------------

  /** Horner's rule: `coef[0] + x * (coef[1] + x * (...))`. */
  function Horner(coef: seq<real>, x: real): real
  {
    if |coef| == 0 then 0.0 else coef[0] + x * Horner(coef[1..], x)
  }

  /** `x` to a natural power. */
  function Pow(x: real, n: nat): real
  {
    if n == 0 then 1.0 else x * Pow(x, n - 1)
  }

  /** The sum of `coef[i] * x^i`, the reference definition of a polynomial's value. */
  function Terms(coef: seq<real>, x: real): real
  {
    if |coef| == 0 then 0.0
    else Terms(coef[..|coef| - 1], x) + coef[|coef| - 1] * Pow(x, |coef| - 1)
  }

  lemma AppendStep(c0: real, h: real, c: real, p: real, x: real)
    ensures c0 + x * (h + c * p) == (c0 + x * h) + c * (x * p)
  {
  }

  /** Appending a term of degree `|coef|` adds `c * x^|coef|` to Horner's value. */
  lemma {:induction false} HornerAppend(coef: seq<real>, c: real, x: real)
    ensures Horner(coef + [c], x) == Horner(coef, x) + c * Pow(x, |coef|)
    decreases |coef|
  {
    if |coef| > 0 {
      assert (coef + [c])[1..] == coef[1..] + [c];
      HornerAppend(coef[1..], c, x);
      AppendStep(coef[0], Horner(coef[1..], x), c, Pow(x, |coef| - 1), x);
    } else {
      assert (coef + [c])[1..] == [];
    }
  }

  /** Horner's rule computes the sum of `coef[i] * x^i`. */
  lemma {:induction false} HornerIsSum(coef: seq<real>, x: real)
    ensures Horner(coef, x) == Terms(coef, x)
  {
    if |coef| > 0 {
      var init := coef[..|coef| - 1];
      HornerIsSum(init, x);
      assert coef == init + [coef[|coef| - 1]];
      HornerAppend(init, coef[|coef| - 1], x);
    }
  }

  /** `TPolynomial::operator()`: Horner's rule from the highest coefficient down. */
  method PolynomialValue(coef: seq<real>, x: real) returns (ans: real)
    ensures ans == Terms(coef, x)
  {
    ans := 0.0;
    var i := |coef|;
    while i > 0
      invariant 0 <= i <= |coef|
      invariant ans == Horner(coef[i..], x)
    {
      i := i - 1;
      assert coef[i..][1..] == coef[i + 1..];
      ans := ans * x;
      ans := ans + coef[i];
    }
    assert coef[0..] == coef;
    HornerIsSum(coef, x);
  }

  /** The coefficients of the derivative: `i * coef[i]` at degree `i - 1`. */
  function DerivCoef(coef: seq<real>): (d: seq<real>)
    ensures |coef| == 0 ==> d == []
    ensures |coef| > 0 ==> |d| == |coef| - 1
  {
    if |coef| == 0 then [] else Weighted(coef[1..], 1)
  }

  /** `w * t[0], (w + 1) * t[1], ...` */
  function Weighted(t: seq<real>, w: nat): (d: seq<real>)
    ensures |d| == |t|
  {
    if |t| == 0 then [] else [w as real * t[0]] + Weighted(t[1..], w + 1)
  }

  lemma {:induction false} WeightedAt(t: seq<real>, w: nat, k: nat)
    requires k < |t|
    ensures Weighted(t, w)[k] == (w + k) as real * t[k]
    decreases k
  {
    if k > 0 {
      WeightedAt(t[1..], w + 1, k - 1);
    }
  }

  /** One iteration of `GetDeriv`'s loop extends the Horner suffix of the derivative by one. */
  lemma DerivHornerStep(coef: seq<real>, i: nat, h: real, x: real)
    requires 1 <= i < |coef|
    requires h == Horner(DerivCoef(coef)[i..], x)
    ensures Horner(DerivCoef(coef)[i - 1..], x) == h * x + i as real * coef[i]
  {
    var d := DerivCoef(coef);
    assert d[i - 1..] == [d[i - 1]] + d[i..];
    HornerCons(d[i - 1], d[i..], x);
    DerivCoefAt(coef, i - 1);
  }

  /** `TPolynomial::GetDeriv`: Horner's rule over `i * coef[i]`, from the top down to `i = 1`. */
  method PolynomialDeriv(coef: seq<real>, x: real) returns (ans: real)
    ensures ans == Terms(DerivCoef(coef), x)
    ensures |coef| <= 1 ==> ans == 0.0
  {
    ans := 0.0;
    if |coef| == 0 {
      return;
    }
    ghost var d := DerivCoef(coef);
    var i := |coef| - 1;
    while i != 0
      invariant 0 <= i <= |coef| - 1
      invariant ans == Horner(d[i..], x)
    {
      DerivHornerStep(coef, i, ans, x);
      ans := ans * x;
      ans := ans + i as real * coef[i];
      i := i - 1;
    }
    assert d[0..] == d;
    HornerIsSum(d, x);
  }

  // ---------------------------------------------------------------------
  // Polynomial algebra, the reference for the derivative rules
  // ---------------------------------------------------------------------

  function AddCoef(a: seq<real>, b: seq<real>): seq<real>
  {
    if |a| == 0 then b
    else if |b| == 0 then a
    else [a[0] + b[0]] + AddCoef(a[1..], b[1..])
  }

  function ScaleCoef(k: real, a: seq<real>): seq<real>
  {
    if |a| == 0 then [] else [k * a[0]] + ScaleCoef(k, a[1..])
  }

  function MulCoef(a: seq<real>, b: seq<real>): seq<real>
  {
    if |a| == 0 then [] else AddCoef(ScaleCoef(a[0], b), [0.0] + MulCoef(a[1..], b))
  }

  /** One step of Horner's rule on a non-empty list. */
  lemma HornerCons(c: real, rest: seq<real>, x: real)
    ensures Horner([c] + rest, x) == c + x * Horner(rest, x)
  {
    assert ([c] + rest)[1..] == rest;
  }

  // Ring identities, each over plain reals.

  lemma PairSum(p: real, q: real, d: real, e: real, x: real)
    ensures (p + q) + x * (d + e) == (p + x * d) + (q + x * e)
  {
  }

  lemma PairScale(k: real, p: real, d: real, x: real)
    ensures k * p + x * (k * d) == k * (p + x * d)
  {
  }

  lemma PairProduct(a0: real, pa: real, pb: real, x: real)
    ensures a0 * pb + x * (pa * pb) == (a0 + x * pa) * pb
  {
  }

  lemma WeightStep(k: real, t: real)
    ensures (k + 1.0) * t == t + k * t
  {
  }

  lemma {:induction false} AddValue(a: seq<real>, b: seq<real>, x: real)
    ensures Horner(AddCoef(a, b), x) == Horner(a, x) + Horner(b, x)
    decreases |a|
  {
    if |a| > 0 && |b| > 0 {
      AddValue(a[1..], b[1..], x);
      HornerCons(a[0] + b[0], AddCoef(a[1..], b[1..]), x);
      PairSum(a[0], b[0], Horner(a[1..], x), Horner(b[1..], x), x);
    }
  }

  lemma {:induction false} ScaleValue(k: real, a: seq<real>, x: real)
    ensures Horner(ScaleCoef(k, a), x) == k * Horner(a, x)
    decreases |a|
  {
    if |a| > 0 {
      ScaleValue(k, a[1..], x);
      HornerCons(k * a[0], ScaleCoef(k, a[1..]), x);
      PairScale(k, a[0], Horner(a[1..], x), x);
    }
  }

  lemma {:induction false} MulValue(a: seq<real>, b: seq<real>, x: real)
    ensures Horner(MulCoef(a, b), x) == Horner(a, x) * Horner(b, x)
    decreases |a|
  {
    if |a| > 0 {
      var rest := MulCoef(a[1..], b);
      MulValue(a[1..], b, x);
      AddValue(ScaleCoef(a[0], b), [0.0] + rest, x);
      ScaleValue(a[0], b, x);
      HornerCons(0.0, rest, x);
      PairProduct(a[0], Horner(a[1..], x), Horner(b, x), x);
    }
  }

  /** The coefficient of degree `k`; zero beyond the end of the list. */
  function Coef(a: seq<real>, k: nat): real
  {
    if k < |a| then a[k] else 0.0
  }

  lemma Distrib(m: real, u: real, v: real)
    ensures m * (u + v) == m * u + m * v
  {
  }

  lemma Commute(m: real, c: real, u: real)
    ensures m * (c * u) == c * (m * u)
  {
  }

  lemma {:induction false} AddCoefAt(a: seq<real>, b: seq<real>, k: nat)
    ensures |AddCoef(a, b)| == if |a| < |b| then |b| else |a|
    ensures Coef(AddCoef(a, b), k) == Coef(a, k) + Coef(b, k)
    decreases |a|
  {
    if |a| > 0 && |b| > 0 {
      AddCoefAt(a[1..], b[1..], if k == 0 then 0 else k - 1);
    }
  }

  lemma {:induction false} ScaleCoefAt(c: real, a: seq<real>, k: nat)
    ensures |ScaleCoef(c, a)| == |a|
    ensures k < |a| ==> ScaleCoef(c, a)[k] == c * a[k]
    decreases |a|
  {
    if |a| > 0 {
      ScaleCoefAt(c, a[1..], if k == 0 then 0 else k - 1);
    }
  }

  lemma DerivCoefAt(a: seq<real>, k: nat)
    ensures Coef(DerivCoef(a), k) == (k + 1) as real * Coef(a, k + 1)
  {
    if k + 1 < |a| {
      WeightedAt(a[1..], 1, k);
      assert a[1..][k] == a[k + 1];
      assert (1 + k) as real == (k + 1) as real;
    } else {
      assert Coef(a, k + 1) == 0.0 && Coef(DerivCoef(a), k) == 0.0;
    }
  }

  /** Differentiation is additive on coefficient lists. */
  lemma DerivCoefAdd(a: seq<real>, b: seq<real>)
    ensures DerivCoef(AddCoef(a, b)) == AddCoef(DerivCoef(a), DerivCoef(b))
  {
    var s := AddCoef(a, b);
    AddCoefAt(a, b, 0);
    if |a| > 0 && |b| > 0 {
      var l, r := DerivCoef(s), AddCoef(DerivCoef(a), DerivCoef(b));
      AddCoefAt(DerivCoef(a), DerivCoef(b), 0);
      forall k | 0 <= k < |l|
        ensures l[k] == r[k]
      {
        AddCoefAt(a, b, k + 1);
        AddCoefAt(DerivCoef(a), DerivCoef(b), k);
        DerivCoefAt(s, k);
        DerivCoefAt(a, k);
        DerivCoefAt(b, k);
        Distrib((k + 1) as real, Coef(a, k + 1), Coef(b, k + 1));
      }
    }
  }

  /** Differentiation commutes with scaling. */
  lemma DerivCoefScale(c: real, a: seq<real>)
    ensures DerivCoef(ScaleCoef(c, a)) == ScaleCoef(c, DerivCoef(a))
  {
    ScaleCoefAt(c, a, 0);
    ScaleCoefAt(c, DerivCoef(a), 0);
    var l, r := DerivCoef(ScaleCoef(c, a)), ScaleCoef(c, DerivCoef(a));
    forall k | 0 <= k < |l|
      ensures l[k] == r[k]
    {
      ScaleCoefAt(c, a, k + 1);
      ScaleCoefAt(c, DerivCoef(a), k);
      DerivCoefAt(ScaleCoef(c, a), k);
      DerivCoefAt(a, k);
      Commute((k + 1) as real, c, a[k + 1]);
    }
  }

  /** The coefficients of `(c0 + x * t)'` are those of `t + x * t'`. */
  lemma DerivCoefCons(coef: seq<real>)
    requires |coef| > 1
    ensures DerivCoef(coef) == AddCoef(coef[1..], [0.0] + DerivCoef(coef[1..]))
  {
    var t := coef[1..];
    var shifted := [0.0] + DerivCoef(t);
    var l, r := DerivCoef(coef), AddCoef(t, shifted);
    AddCoefAt(t, shifted, 0);
    forall k | 0 <= k < |l|
      ensures l[k] == r[k]
    {
      AddCoefAt(t, shifted, k);
      DerivCoefAt(coef, k);
      if k > 0 {
        DerivCoefAt(t, k - 1);
        assert shifted[k] == k as real * t[k];
        WeightStep(k as real, t[k]);
      }
    }
  }

  /** The sum rule for coefficient lists. */
  lemma AddDeriv(a: seq<real>, b: seq<real>, x: real)
    ensures Horner(DerivCoef(AddCoef(a, b)), x) == Horner(DerivCoef(a), x) + Horner(DerivCoef(b), x)
  {
    DerivCoefAdd(a, b);
    AddValue(DerivCoef(a), DerivCoef(b), x);
  }

  /** The constant-factor rule for coefficient lists. */
  lemma ScaleDeriv(c: real, a: seq<real>, x: real)
    ensures Horner(DerivCoef(ScaleCoef(c, a)), x) == c * Horner(DerivCoef(a), x)
  {
    DerivCoefScale(c, a);
    ScaleValue(c, DerivCoef(a), x);
  }

  /**
   * A product kept as a named function: the product-rule proof below states
   * its intermediate facts with it, so that they combine by congruence.
   */
  function Prod(p: real, q: real): (r: real)
    ensures r == p * q
  {
    p * q
  }

  /** The derivative's value through the tail: `(c + x * t)' = t + x * t'`. */
  lemma DerivHornerTail(c: real, t: seq<real>, x: real)
    ensures Horner(DerivCoef([c] + t), x) == Horner(t, x) + Prod(x, Horner(DerivCoef(t), x))
  {
    var coef := [c] + t;
    assert coef[1..] == t;
    if |t| > 0 {
      DerivCoefCons(coef);
      AddValue(t, [0.0] + DerivCoef(t), x);
      HornerCons(0.0, DerivCoef(t), x);
    }
  }

  /** `HornerCons` with its product named. */
  lemma HornerConsProd(c: real, rest: seq<real>, x: real)
    ensures Horner([c] + rest, x) == c + Prod(x, Horner(rest, x))
  {
    HornerCons(c, rest, x);
  }

  /** `MulValue` with its product named. */
  lemma MulValueProd(a: seq<real>, b: seq<real>, x: real)
    ensures Horner(MulCoef(a, b), x) == Prod(Horner(a, x), Horner(b, x))
  {
    MulValue(a, b, x);
  }

  /** The derivative of the first step of `MulCoef`: `(a0 * b + x * m)' = a0 * b' + m + x * m'`. */
  lemma ScaleShiftDeriv(a0: real, b: seq<real>, m: seq<real>, x: real)
    ensures Horner(DerivCoef(AddCoef(ScaleCoef(a0, b), [0.0] + m)), x) ==
      Prod(a0, Horner(DerivCoef(b), x)) + (Horner(m, x) + Prod(x, Horner(DerivCoef(m), x)))
  {
    AddDeriv(ScaleCoef(a0, b), [0.0] + m, x);
    ScaleDeriv(a0, b, x);
    DerivHornerTail(0.0, m, x);
  }

  /** The ring identity behind one step of the product rule, over plain values. */
  lemma ProductRuleArith(a0: real, x: real, ht: real, hb: real, hdt: real, hdb: real,
                         hm: real, hdm: real, ha: real, hda: real, hp: real)
    requires hp == Prod(a0, hdb) + (hm + Prod(x, hdm))
    requires hm == Prod(ht, hb)
    requires hdm == Prod(hdt, hb) + Prod(ht, hdb)
    requires hda == ht + Prod(x, hdt)
    requires ha == a0 + Prod(x, ht)
    ensures hp == Prod(hda, hb) + Prod(ha, hdb)
  {
  }

  /** The product rule for coefficient lists, with its products named. */
  lemma {:induction false} ProductRule(a: seq<real>, b: seq<real>, x: real)
    ensures Horner(DerivCoef(MulCoef(a, b)), x) ==
      Prod(Horner(DerivCoef(a), x), Horner(b, x)) + Prod(Horner(a, x), Horner(DerivCoef(b), x))
    decreases |a|
  {
    if |a| > 0 {
      var t := a[1..];
      var m := MulCoef(t, b);
      ProductRule(t, b, x);
      assert MulCoef(a, b) == AddCoef(ScaleCoef(a[0], b), [0.0] + m);
      ScaleShiftDeriv(a[0], b, m, x);
      MulValueProd(t, b, x);
      assert a == [a[0]] + t;
      DerivHornerTail(a[0], t, x);
      HornerConsProd(a[0], t, x);
      ProductRuleArith(a[0], x, Horner(t, x), Horner(b, x), Horner(DerivCoef(t), x), Horner(DerivCoef(b), x),
        Horner(m, x), Horner(DerivCoef(m), x), Horner(a, x), Horner(DerivCoef(a), x),
        Horner(DerivCoef(MulCoef(a, b)), x));
    }
  }

  /** The product rule for coefficient lists: `(a * b)' = a' * b + a * b'`. */
  lemma MulDeriv(a: seq<real>, b: seq<real>, x: real)
    ensures Horner(DerivCoef(MulCoef(a, b)), x) ==
      Horner(DerivCoef(a), x) * Horner(b, x) + Horner(a, x) * Horner(DerivCoef(b), x)
  {
    ProductRule(a, b, x);
  }

  // ---------------------------------------------------------------------
  // Values and derivatives (`operator()` and `GetDeriv`)
  // ---------------------------------------------------------------------

  /** The value of `f` at `x`. */
  function Eval(f: Func, x: real, env: Env): real
  {
    match f
    case Ident => x
    case Const(c) => c
    case Exp => env.exp(x)
    case Power(p) => env.pow(x, p)
    case Polynomial(coef) => Horner(coef, x)
    case Sum(l, r) => Eval(l, x, env) + Eval(r, x, env)
    case Diff(l, r) => Eval(l, x, env) - Eval(r, x, env)
    case Mul(l, r) => Prod(Eval(l, x, env), Eval(r, x, env))
    case Div(l, r) => Quot(Eval(l, x, env), Eval(r, x, env), env)
  }

  /** The value of the derivative of `f` at `x`, by the sum, difference, product and quotient rules. */
  function Deriv(f: Func, x: real, env: Env): real
  {
    match f
    case Ident => 1.0
    case Const(_) => 0.0
    case Exp => env.exp(x)
    case Power(p) => p * env.pow(x, p - 1.0)
    case Polynomial(coef) => Horner(DerivCoef(coef), x)
    case Sum(l, r) => Deriv(l, x, env) + Deriv(r, x, env)
    case Diff(l, r) => Deriv(l, x, env) - Deriv(r, x, env)
    case Mul(l, r) => ProductDeriv(Deriv(l, x, env), Eval(l, x, env), Deriv(r, x, env), Eval(r, x, env))
    case Div(l, r) => QuotientDeriv(Deriv(l, x, env), Eval(l, x, env), Deriv(r, x, env), Eval(r, x, env), env)
  }

  /** `TFuncMul::GetDeriv` given `l'`, `l`, `r'` and `r` at the point. */
  function ProductDeriv(ld: real, lv: real, rd: real, rv: real): real
  {
    Prod(ld, rv) + Prod(lv, rd)
  }

  /** `TFuncDiv::GetDeriv` given `l'`, `l`, `r'` and `div = r` at the point. */
  function QuotientDeriv(ld: real, lv: real, rd: real, div: real, env: Env): real
  {
    Quot(ld * div - lv * rd, div * div, env)
  }

  /**
   * The leaves: `x` has value `x` and derivative 1, a constant has derivative
   * 0, `e^x` is its own derivative, and `x^p` follows the power rule.
   */
  lemma Leaves(x: real, c: real, p: real, env: Env)
    ensures Eval(Ident, x, env) == x && Deriv(Ident, x, env) == 1.0
    ensures Eval(Const(c), x, env) == c && Deriv(Const(c), x, env) == 0.0
    ensures Deriv(Exp, x, env) == Eval(Exp, x, env) == env.exp(x)
    ensures Eval(Power(p), x, env) == env.pow(x, p)
    ensures Deriv(Power(p), x, env) == p * env.pow(x, p - 1.0)
  {
  }

  /** For any operands, a sum or a difference adds or subtracts the values and the derivatives. */
  lemma {:induction false} SumDiffRules(l: Func, r: Func, x: real, env: Env)
    ensures Eval(Sum(l, r), x, env) == Eval(l, x, env) + Eval(r, x, env)
    ensures Deriv(Sum(l, r), x, env) == Deriv(l, x, env) + Deriv(r, x, env)
    ensures Eval(Diff(l, r), x, env) == Eval(l, x, env) - Eval(r, x, env)
    ensures Deriv(Diff(l, r), x, env) == Deriv(l, x, env) - Deriv(r, x, env)
  {
  }

  /** A tree built from `x`, constants and polynomials with `+`, `-` and `*`. */
  predicate PolynomialTree(f: Func)
  {
    match f
    case Ident => true
    case Const(_) => true
    case Polynomial(_) => true
    case Sum(l, r) => PolynomialTree(l) && PolynomialTree(r)
    case Diff(l, r) => PolynomialTree(l) && PolynomialTree(r)
    case Mul(l, r) => PolynomialTree(l) && PolynomialTree(r)
    case _ => false
  }

  /** The expanded coefficient list of a polynomial tree. */
  function Expand(f: Func): seq<real>
    requires PolynomialTree(f)
  {
    match f
    case Ident => [0.0, 1.0]
    case Const(c) => [c]
    case Polynomial(coef) => coef
    case Sum(l, r) => AddCoef(Expand(l), Expand(r))
    case Diff(l, r) => AddCoef(Expand(l), ScaleCoef(-1.0, Expand(r)))
    case Mul(l, r) => MulCoef(Expand(l), Expand(r))
  }

  /** Subtracting coefficient lists subtracts their values. */
  lemma DiffValue(a: seq<real>, b: seq<real>, x: real)
    ensures Horner(AddCoef(a, ScaleCoef(-1.0, b)), x) == Horner(a, x) - Horner(b, x)
  {
    AddValue(a, ScaleCoef(-1.0, b), x);
    ScaleValue(-1.0, b, x);
  }

  /** The difference rule for coefficient lists. */
  lemma DiffDeriv(a: seq<real>, b: seq<real>, x: real)
    ensures Horner(DerivCoef(AddCoef(a, ScaleCoef(-1.0, b))), x) ==
      Horner(DerivCoef(a), x) - Horner(DerivCoef(b), x)
  {
    AddDeriv(a, ScaleCoef(-1.0, b), x);
    ScaleDeriv(-1.0, b, x);
  }

  /**
   * On polynomial trees the value is the value of the expanded polynomial and
   * the derivative is the value of its formal derivative: the sum,
   * difference and product rules agree with polynomial calculus.
   */
  lemma {:induction false} PolynomialTreeCalculus(f: Func, x: real, env: Env)
    requires PolynomialTree(f)
    ensures Eval(f, x, env) == Horner(Expand(f), x)
    ensures Deriv(f, x, env) == Horner(DerivCoef(Expand(f)), x)
  {
    match f
    case Ident =>
      assert DerivCoef([0.0, 1.0]) == [1.0];
      HornerCons(1.0, [], x);
      HornerCons(0.0, [1.0], x);
    case Const(c) =>
      HornerCons(c, [], x);
    case Polynomial(coef) =>
    case Sum(l, r) =>
      PolynomialTreeCalculus(l, x, env);
      PolynomialTreeCalculus(r, x, env);
      AddValue(Expand(l), Expand(r), x);
      AddDeriv(Expand(l), Expand(r), x);
    case Diff(l, r) =>
      PolynomialTreeCalculus(l, x, env);
      PolynomialTreeCalculus(r, x, env);
      DiffValue(Expand(l), Expand(r), x);
      DiffDeriv(Expand(l), Expand(r), x);
    case Mul(l, r) =>
      PolynomialTreeCalculus(l, x, env);
      PolynomialTreeCalculus(r, x, env);
      MulValueProd(Expand(l), Expand(r), x);
      ProductRule(Expand(l), Expand(r), x);
  }

  lemma CancelDivisor(z: real, y: real)
    requires y != 0.0
    ensures (z * y) / y == z
  {
  }

  /** A non-zero value has a non-zero square (the square is passed in as `sq`). */
  lemma SquareNonZero(v: real, sq: real)
    requires v != 0.0 && sq == v * v
    ensures sq != 0.0
  {
    var u := 1.0 / v;
    assert Prod(v, u) == 1.0;
    assert Prod(v, Prod(v, u)) == v;
    assert Prod(v, Prod(v, u)) == Prod(Prod(v, v), u);
    assert Prod(sq, u) == v;
  }

  lemma QuotientNumerator(ld: real, lv: real, rd: real, rv: real, z: real)
    requires rv != 0.0
    requires z == (ld - (lv / rv) * rd) / rv
    ensures ld * rv - lv * rd == z * (rv * rv)
  {
    var q := lv / rv;
    assert lv == q * rv;
    assert ld - q * rd == z * rv;
    assert ld * rv - lv * rd == rv * (ld - q * rd);
  }

  lemma QuotientStep(ld: real, lv: real, rd: real, rv: real, sq: real)
    requires rv != 0.0 && sq == rv * rv && sq != 0.0
    ensures (ld * rv - lv * rd) / sq == (ld - (lv / rv) * rd) / rv
  {
    var z := (ld - (lv / rv) * rd) / rv;
    QuotientNumerator(ld, lv, rd, rv, z);
    CancelDivisor(z, sq);
  }

  /** The textbook quotient rule `q' = (l' - q * r') / r`, given `l'`, `q = l / r`, `r'` and `r`. */
  function QuotientRuleValue(ld: real, q: real, rd: real, rv: real): real
    requires rv != 0.0
  {
    (ld - q * rd) / rv
  }

  /** The quotient rule on plain values, for a non-zero divisor. */
  lemma QuotientValues(ld: real, lv: real, rd: real, rv: real, env: Env)
    requires rv != 0.0
    ensures QuotientDeriv(ld, lv, rd, rv, env) == QuotientRuleValue(ld, Quot(lv, rv, env), rd, rv)
  {
    SquareNonZero(rv, rv * rv);
    QuotientStep(ld, lv, rd, rv, rv * rv);
  }

  /**
   * Where the divisor is non-zero, `TFuncDiv::GetDeriv` agrees with the
   * quotient rule in the form `q' = (l' - q * r') / r`.
   */
  lemma QuotientRule(l: Func, r: Func, x: real, env: Env)
    requires Eval(r, x, env) != 0.0
    ensures Deriv(Div(l, r), x, env) ==
      QuotientRuleValue(Deriv(l, x, env), Eval(Div(l, r), x, env), Deriv(r, x, env), Eval(r, x, env))
  {
    QuotientValues(Deriv(l, x, env), Eval(l, x, env), Deriv(r, x, env), Eval(r, x, env), env);
  }

  // ---------------------------------------------------------------------
  // Rendering (`ToString`)
  // ---------------------------------------------------------------------

  function Digit(d: nat): (c: char)
    requires d < 10
    ensures '0' <= c <= '9' && c as int - '0' as int == d
  {
    "0123456789"[d]
  }

  /** The number a string of decimal digits denotes. */
  function DigitsValue(s: string): nat
    requires forall k :: 0 <= k < |s| ==> '0' <= s[k] <= '9'
  {
    if |s| == 0 then 0 else DigitsValue(s[..|s| - 1]) * 10 + (s[|s| - 1] as int - '0' as int)
  }

  /** `std::ostream << std::size_t`: decimal digits without leading zeros. */
  function NatToString(n: nat): (s: string)
    ensures |s| > 0 && forall k :: 0 <= k < |s| ==> '0' <= s[k] <= '9'
    ensures n < 10 ==> s == [Digit(n)]
  {
    if n < 10 then [Digit(n)] else NatToString(n / 10) + [Digit(n % 10)]
  }

  /** The digits printed for `n` denote `n`, and only zero itself starts with `0`. */
  lemma {:induction false} NatToStringValue(n: nat)
    ensures DigitsValue(NatToString(n)) == n
    ensures n >= 10 ==> NatToString(n)[0] != '0'
  {
    if n >= 10 {
      NatToStringValue(n / 10);
      var high := NatToString(n / 10);
      var s := NatToString(n);
      assert s == high + [Digit(n % 10)];
      assert s[..|s| - 1] == high;
      assert s[0] == high[0];
    }
  }

  /** The degree written after `x`: nothing for degree one, otherwise `^` and the degree. */
  function DegreeText(i: nat): (t: string)
    ensures t == "" <==> i == 1
  {
    if i != 1 then "^" + NatToString(i) else ""
  }

  /** The power of `x` written after `prefix`: `x`, then `^i` unless the degree is one. */
  function WithPower(prefix: string, i: nat): string
  {
    prefix + "x" + DegreeText(i)
  }

  /** The absolute value of a coefficient. */
  function Abs(c: real): (a: real)
    ensures a >= 0.0 && (a == c || a == -c)
  {
    if c < 0.0 then -c else c
  }

  /** The coefficient written before `x`: nothing for a unit coefficient, otherwise its text and `*`. */
  function CoefficientText(c: real, show: real -> string): string
  {
    if c == 1.0 then "" else show(c) + "*"
  }

  /** The operator a later term starts with. */
  function SignText(c: real): string
  {
    if c < 0.0 then " - " else " + "
  }

  /** The first non-zero term; a free term prints its coefficient, and a coefficient of `1` or `-1` is reduced to its sign. */
  function LeadingTerm(c: real, i: nat, show: real -> string): string
  {
    if i == 0 then show(c)
    else WithPower(if c == -1.0 then "-" else CoefficientText(c, show), i)
  }

  /** A later term: nothing for a zero coefficient, otherwise the sign as an operator and the absolute coefficient. */
  function NextTerm(c: real, i: nat, show: real -> string): (s: string)
    ensures s == "" <==> c == 0.0
  {
    if c == 0.0 then "" else WithPower(SignText(c) + CoefficientText(Abs(c), show), i)
  }

  /** A degree is written as `x` alone or `x^` and digits denoting it, so the text ends in `x` exactly at degree one. */
  lemma WithPowerFormat(prefix: string, i: nat)
    ensures var t := WithPower(prefix, i); |t| > 0 && (t[|t| - 1] == 'x' <==> i == 1)
  {
    var d := DegreeText(i);
    var t := prefix + "x" + d;
    if i != 1 {
      var digits := NatToString(i);
      assert d == "^" + digits;
      assert t[|t| - 1] == digits[|digits| - 1];
    }
  }

  /** A three-character sign, a coefficient, `x` and a degree: the sign is the prefix, and the text ends in `x` exactly at degree one. */
  lemma SignedPowerText(sign: string, mid: string, i: nat)
    requires |sign| == 3
    ensures var t := sign + mid + "x" + DegreeText(i);
      t[..3] == sign && (t[|t| - 1] == 'x' <==> i == 1)
  {
    WithPowerFormat(sign + mid, i);
    var t := sign + mid + "x" + DegreeText(i);
    assert t[..3] == sign by {
      assert forall k :: 0 <= k < 3 ==> t[k] == sign[k];
    }
  }

  /**
   * The first printed term: a free term is its coefficient alone; otherwise
   * `-x` for -1, `x` for 1, or the coefficient and `*`, then `x` and the
   * degree unless it is one.
   */
  lemma LeadingTermFormat(c: real, i: nat, show: real -> string)
    ensures i == 0 ==> LeadingTerm(c, i, show) == show(c)
    ensures i > 0 ==> (LeadingTerm(c, i, show) ==
      (if c == -1.0 then "-" else CoefficientText(c, show)) + "x" + DegreeText(i))
    ensures var t := LeadingTerm(c, i, show); i > 0 ==> |t| > 0 && (t[|t| - 1] == 'x' <==> i == 1)
  {
    if i > 0 {
      WithPowerFormat(if c == -1.0 then "-" else CoefficientText(c, show), i);
    }
  }

  /**
   * A later non-zero term: ` - ` exactly for a negative coefficient, else
   * ` + `; then the absolute coefficient and `*` unless it is one; then `x`
   * and the degree unless it is one.
   */
  lemma NextTermFormat(c: real, i: nat, show: real -> string)
    requires c != 0.0
    ensures NextTerm(c, i, show) == SignText(c) + CoefficientText(Abs(c), show) + "x" + DegreeText(i)
    ensures NextTerm(c, i, show)[..3] == " - " <==> c < 0.0
    ensures var t := NextTerm(c, i, show); t[|t| - 1] == 'x' <==> i == 1
  {
    SignedPowerText(SignText(c), CoefficientText(Abs(c), show), i);
    assert " + " != " - " by {
      assert " + "[1] != " - "[1];
    }
  }

  /** The text of the terms of degree `first` up to (excluding) `hi`, the first of them leading. */
  function TermsText(coef: seq<real>, first: nat, hi: nat, show: real -> string): string
    requires first < hi <= |coef|
    decreases hi
  {
    if hi == first + 1 then LeadingTerm(coef[first], first, show)
    else TermsText(coef, first, hi - 1, show) + NextTerm(coef[hi - 1], hi - 1, show)
  }

  /** The first index from `i` on with a non-zero coefficient, or `|coef|`. */
  function FirstNonZero(coef: seq<real>, i: nat): (k: nat)
    requires i <= |coef|
    decreases |coef| - i
    ensures i <= k <= |coef|
    ensures forall j :: i <= j < k ==> coef[j] == 0.0
    ensures k < |coef| ==> coef[k] != 0.0
  {
    if i == |coef| || coef[i] != 0.0 then i else FirstNonZero(coef, i + 1)
  }

  /** The text of a polynomial, lowest degree first. */
  function PolynomialString(coef: seq<real>, show: real -> string): string
  {
    var i := FirstNonZero(coef, 0);
    if i == |coef| then "0" else TermsText(coef, i, |coef|, show)
  }

  /** The first term as `ToString` writes it: the coefficient, or the signed power of `x`. */
  method WriteLeadingTerm(c: real, i: nat, show: real -> string) returns (out: string)
    ensures out == LeadingTerm(c, i, show)
  {
    if i == 0 {
      out := show(c);
    } else {
      out := "";
      if c == -1.0 {
        out := "-";
      } else if c != 1.0 {
        out := show(c) + "*";
      }
      out := out + "x";
      if i != 1 {
        out := out + "^" + NatToString(i);
      }
    }
  }

  /** A later non-zero term as `ToString` writes it: the sign as an operator, then the absolute coefficient. */
  method WriteNextTerm(c: real, i: nat, show: real -> string) returns (term: string)
    requires c != 0.0
    ensures term == NextTerm(c, i, show)
  {
    if c < 0.0 {
      term := " - ";
      if c != -1.0 {
        term := term + show(-c) + "*";
      }
      assert Abs(c) == -c && (c == -1.0 <==> -c == 1.0);
      assert term == " - " + CoefficientText(-c, show);
    } else {
      term := " + ";
      if c != 1.0 {
        term := term + show(c) + "*";
      }
      assert Abs(c) == c;
      assert term == " + " + CoefficientText(c, show);
    }
    ghost var prefix := term;
    term := term + "x";
    if i != 1 {
      term := term + "^" + NatToString(i);
    }
    assert term == prefix + "x" + DegreeText(i);
  }

  /** `TPolynomial::ToString`: skip the leading zeros, print the first term, then every later non-zero term. */
  method PolynomialToString(coef: seq<real>, show: real -> string) returns (s: string)
    ensures s == PolynomialString(coef, show)
  {
    var i := 0;
    while i < |coef| && coef[i] == 0.0
      invariant i <= |coef|
      invariant forall j :: 0 <= j < i ==> coef[j] == 0.0
    {
      i := i + 1;
    }
    ghost var k := FirstNonZero(coef, 0);
    assert i == k;
    if i == |coef| {
      return "0";
    }
    s := WriteTerms(coef, i, show);
  }

  /** The terms from the first non-zero coefficient `first` on, as `ToString` appends them. */
  method WriteTerms(coef: seq<real>, first: nat, show: real -> string) returns (out: string)
    requires first < |coef|
    ensures out == TermsText(coef, first, |coef|, show)
  {
    out := WriteLeadingTerm(coef[first], first, show);
    for i := first + 1 to |coef|
      invariant out == TermsText(coef, first, i, show)
    {
      out := AppendTerm(coef, first, i, show, out);
    }
  }

  /** One pass of the loop: a zero coefficient is skipped, any other term is appended. */
  method AppendTerm(coef: seq<real>, first: nat, i: nat, show: real -> string, prefix: string) returns (out: string)
    requires first < i < |coef| && prefix == TermsText(coef, first, i, show)
    ensures out == TermsText(coef, first, i + 1, show)
  {
    out := prefix;
    if coef[i] != 0.0 {
      var term := WriteNextTerm(coef[i], i, show);
      TermsTextStep(coef, first, i, show, out, term);
      out := out + term;
    } else {
      TermsTextSkip(coef, first, i, show);
    }
  }

  /** Appending the text of term `i` extends the text of the terms before it. */
  lemma TermsTextStep(coef: seq<real>, first: nat, i: nat, show: real -> string, out: string, term: string)
    requires first < i < |coef|
    requires out == TermsText(coef, first, i, show) && term == NextTerm(coef[i], i, show)
    ensures out + term == TermsText(coef, first, i + 1, show)
  {
  }

  /** A zero coefficient adds nothing to the text. */
  lemma TermsTextSkip(coef: seq<real>, first: nat, i: nat, show: real -> string)
    requires first < i < |coef| && coef[i] == 0.0
    ensures TermsText(coef, first, i + 1, show) == TermsText(coef, first, i, show)
  {
    assert NextTerm(coef[i], i, show) == "";
    assert TermsText(coef, first, i, show) + "" == TermsText(coef, first, i, show);
  }

  /** An empty or all-zero coefficient list prints as `0`. */
  lemma ZeroPolynomialString(coef: seq<real>, show: real -> string)
    requires forall i :: 0 <= i < |coef| ==> coef[i] == 0.0
    ensures PolynomialString(coef, show) == "0"
  {
  }

  lemma {:induction false} TermsTextAppendZero(coef: seq<real>, first: nat, hi: nat, show: real -> string)
    requires first < hi <= |coef|
    ensures TermsText(coef + [0.0], first, hi, show) == TermsText(coef, first, hi, show)
    decreases hi
  {
    assert (coef + [0.0])[hi - 1] == coef[hi - 1];
    if hi > first + 1 {
      TermsTextAppendZero(coef, first, hi - 1, show);
    }
  }

  /** A trailing zero coefficient does not change the text. */
  lemma TrailingZeroString(coef: seq<real>, show: real -> string)
    ensures PolynomialString(coef + [0.0], show) == PolynomialString(coef, show)
  {
    var ext := coef + [0.0];
    var i := FirstNonZero(coef, 0);
    var k := FirstNonZero(ext, 0);
    assert forall j :: 0 <= j < |coef| ==> ext[j] == coef[j];
    if i < |coef| {
      assert k == i;
      TermsTextAppendZero(coef, i, |coef|, show);
      assert NextTerm(ext[|coef|], |coef|, show) == "";
      assert TermsText(ext, i, |ext|, show) == TermsText(ext, i, |coef|, show) + "";
    } else {
      assert k == |ext|;
    }
  }

  /** `ToString` of every node. */
  function Render(f: Func, show: real -> string): string
  {
    match f
    case Ident => "x"
    case Const(c) => show(c)
    case Exp => "e^x"
    case Power(p) => "x^" + show(p)
    case Polynomial(coef) => PolynomialString(coef, show)
    case Sum(l, r) => Render(l, show) + " + " + Render(r, show)
    case Diff(l, r) => Render(l, show) + " - (" + Render(r, show) + ")"
    case Mul(l, r) => "(" + Render(l, show) + ") * (" + Render(r, show) + ")"
    case Div(l, r) => "(" + Render(l, show) + ") / (" + Render(r, show) + ")"
  }

  /** The text of the polynomial `{-1, 0, 4}`: a skipped zero and a power above one. */
  lemma PolynomialStringExample1(show: real -> string)
    requires show(-1.0) == "-1" && show(4.0) == "4"
    ensures PolynomialString([-1.0, 0.0, 4.0], show) == "-1 + 4*x^2"
  {
    assert NatToString(2) == "2";
    var p := [-1.0, 0.0, 4.0];
    assert FirstNonZero(p, 0) == 0;
    assert TermsText(p, 0, 2, show) == "-1";
    assert TermsText(p, 0, 3, show) == "-1 + 4*x^2";
  }

  /** The later terms of `{1, -3, 3, -1}`. */
  lemma Example2Terms(show: real -> string)
    requires show(3.0) == "3"
    ensures NextTerm(-3.0, 1, show) == " - 3*x"
    ensures NextTerm(3.0, 2, show) == " + 3*x^2"
    ensures NextTerm(-1.0, 3, show) == " - x^3"
  {
    assert NatToString(2) == "2" && NatToString(3) == "3";
    assert SignText(-3.0) == " - " && CoefficientText(Abs(-3.0), show) == "3*";
    assert SignText(3.0) == " + " && CoefficientText(Abs(3.0), show) == "3*";
    assert SignText(-1.0) == " - " && CoefficientText(Abs(-1.0), show) == "";
  }

  /** The text of `{1, -3, 3, -1}`: later negative terms print as ` - ` and a `-1` coefficient is omitted. */
  lemma PolynomialStringExample2(show: real -> string)
    requires show(1.0) == "1" && show(3.0) == "3"
    ensures PolynomialString([1.0, -3.0, 3.0, -1.0], show) == "1 - 3*x + 3*x^2 - x^3"
  {
    Example2Terms(show);
    var p := [1.0, -3.0, 3.0, -1.0];
    assert FirstNonZero(p, 0) == 0;
    assert TermsText(p, 0, 2, show) == "1 - 3*x";
    assert TermsText(p, 0, 3, show) == "1 - 3*x + 3*x^2";
    assert TermsText(p, 0, 4, show) == "1 - 3*x + 3*x^2 - x^3";
  }

  /** The text of `{0, -0.5, 1.5}`: the leading zero is skipped and the first term keeps its sign. */
  lemma PolynomialStringExample3(show: real -> string)
    requires show(-0.5) == "-0.5" && show(1.5) == "1.5"
    ensures PolynomialString([0.0, -0.5, 1.5], show) == "-0.5*x + 1.5*x^2"
  {
    assert NatToString(2) == "2";
    var p := [0.0, -0.5, 1.5];
    assert FirstNonZero(p, 0) == 1;
    assert TermsText(p, 1, 2, show) == "-0.5*x";
    assert TermsText(p, 1, 3, show) == "-0.5*x + 1.5*x^2";
  }

  /** The texts of the leaves: `x`, the constant, `e^x` and `x^` followed by the exponent. */
  lemma LeafTexts(c: real, p: real, show: real -> string)
    ensures Render(Ident, show) == "x"
    ensures Render(Const(c), show) == show(c)
    ensures Render(Exp, show) == "e^x"
    ensures Render(Power(p), show) == "x^" + show(p)
  {
  }

  /** The texts `TFuncSum` and `TFuncDiff` produce for `x + e^x`, `-1 + x^3` and `e^x - x`. */
  lemma SumDiffTextExamples(show: real -> string)
    requires show(-1.0) == "-1" && show(3.0) == "3"
    ensures Render(Sum(Ident, Exp), show) == "x + e^x"
    ensures Render(Sum(Const(-1.0), Power(3.0)), show) == "-1 + x^3"
    ensures Render(Diff(Exp, Ident), show) == "e^x - (x)"
  {
    assert Render(Power(3.0), show) == "x^3";
  }

  /** The texts `TFuncMul` and `TFuncDiv` produce for `x^2 * e^x` and `e^x / e^x`. */
  lemma MulDivTextExamples(show: real -> string)
    requires show(2.0) == "2"
    ensures Render(Mul(Power(2.0), Exp), show) == "(x^2) * (e^x)"
    ensures Render(Div(Exp, Exp), show) == "(e^x) / (e^x)"
  {
    assert Render(Power(2.0), show) == "x^2";
  }

  // ---------------------------------------------------------------------
  // The factory and the operators
  // ---------------------------------------------------------------------

  /** `TFunctionFactory::Create(name)`: `ident` or `exp`, otherwise null. */
  function Create(name: string): (f: Option<Func>)
    ensures f.Some? <==> name == "ident" || name == "exp"
    ensures f.Some? ==> f.value == (if name == "ident" then Ident else Exp)
  {
    if name == "ident" then Some(Ident)
    else if name == "exp" then Some(Exp)
    else None
  }

  /** `TFunctionFactory::Create(name, param)`: `const` or `power`, otherwise null. */
  function CreateWithParam(name: string, param: real): (f: Option<Func>)
    ensures f.Some? <==> name == "const" || name == "power"
    ensures f.Some? ==> f.value == (if name == "const" then Const(param) else Power(param))
  {
    if name == "const" then Some(Const(param))
    else if name == "power" then Some(Power(param))
    else None
  }

  /** `TFunctionFactory::Create(name, params)`: `polynomial`, otherwise null. */
  function CreateWithParams(name: string, params: seq<real>): (f: Option<Func>)
    ensures f.Some? <==> name == "polynomial"
    ensures f.Some? ==> f.value == Polynomial(params)
  {
    if name == "polynomial" then Some(Polynomial(params)) else None
  }

  datatype BinOp = Plus | Minus | Times | Over

  /** The `TFuncBinOper` constructor: a null operand is a `logic_error`. */
  function Combine(op: BinOp, lhs: Option<Func>, rhs: Option<Func>): (r: Result<Func, string>)
    ensures r.Failure? <==> lhs.None? || rhs.None?
    ensures r.Failure? ==> r.error == "at least one operand is invalid"
    ensures r.Success? && op == Plus ==> r.value == Sum(lhs.value, rhs.value)
    ensures r.Success? && op == Minus ==> r.value == Diff(lhs.value, rhs.value)
    ensures r.Success? && op == Times ==> r.value == Mul(lhs.value, rhs.value)
    ensures r.Success? && op == Over ==> r.value == Div(lhs.value, rhs.value)
  {
    if lhs.None? || rhs.None? then Failure("at least one operand is invalid")
    else
      match op
      case Plus => Success(Sum(lhs.value, rhs.value))
      case Minus => Success(Diff(lhs.value, rhs.value))
      case Times => Success(Mul(lhs.value, rhs.value))
      case Over => Success(Div(lhs.value, rhs.value))
  }

  /** A name the factory does not know makes every operator applied to its result fail. */
  lemma UnknownNameFails(name: string, g: Option<Func>, op: BinOp)
    requires name != "ident" && name != "exp"
    ensures Combine(op, Create(name), g).Failure? && Combine(op, g, Create(name)).Failure?
  {
  }

  /** The failing combinations of the operator tests. */
  lemma LogicErrorExamples()
    ensures Combine(Plus, Create(""), Create("ident")).Failure?
    ensures Combine(Minus, CreateWithParam("power", 2.0), Create("abcd")).Failure?
    ensures Combine(Times, Create("exp"), CreateWithParams("power", [3.0])).Failure?
    ensures Combine(Over, CreateWithParam("polynomial", 2.0), Create("exp")).Failure?
  {
  }
}
