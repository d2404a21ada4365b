/** Affine (leaky-bucket / rate-latency) curves y(t) = m*t + n and their algebra
    (Classes.py, class AffineCurve). */
module Curves {

  datatype AffineCurve = AffineCurve(m: real, n: real)

  /** The curve with no traffic, identity of addition. */
  const Zero := AffineCurve(0.0, 0.0)

  /** The value of the curve at time t. */
  function Eval(c: AffineCurve, t: real): real
  {
    c.m * t + c.n
  }

  /** `__add__` with a curve operand: superposition of two flows. */
  function Add(a: AffineCurve, b: AffineCurve): AffineCurve
  {
    AffineCurve(a.m + b.m, a.n + b.n)
  }

  /** `__mul__`: both parameters scaled by k. */
  function Scale(a: AffineCurve, k: real): AffineCurve
  {
    AffineCurve(a.m * k, a.n * k)
  }

  /** Theorem 2: the curve delayed by d keeps its slope and gains m*d of burst. */
  function DelayBy(a: AffineCurve, d: real): AffineCurve
  {
    AffineCurve(a.m, a.n + a.m * d)
  }

  /** Sum of a sequence of curves, folded from the left as the source's `+=` does. */
  function Sum(cs: seq<AffineCurve>): AffineCurve
  {
    if cs == [] then Zero else Add(Sum(cs[..|cs| - 1]), cs[|cs| - 1])
  }

  lemma AddEval(a: AffineCurve, b: AffineCurve, t: real)
    ensures Eval(Add(a, b), t) == Eval(a, t) + Eval(b, t)
  {
  }

  lemma AddCommutes(a: AffineCurve, b: AffineCurve)
    ensures Add(a, b) == Add(b, a)
  {
  }

  lemma AddAssociates(a: AffineCurve, b: AffineCurve, c: AffineCurve)
    ensures Add(Add(a, b), c) == Add(a, Add(b, c))
  {
  }

  lemma AddZero(a: AffineCurve)
    ensures Add(a, Zero) == a && Add(Zero, a) == a
  {
  }

  lemma ScaleEval(a: AffineCurve, k: real, t: real)
    ensures Eval(Scale(a, k), t) == k * Eval(a, t)
  {
    calc {
      Eval(Scale(a, k), t);
      (a.m * k) * t + a.n * k;
      { assert (a.m * k) * t == k * (a.m * t); }
      k * (a.m * t) + k * a.n;
      k * (a.m * t + a.n);
    }
  }

  /** y(t + d): the delayed curve is the original curve read d later. */
  lemma DelayByEval(a: AffineCurve, d: real)
    ensures forall t :: Eval(DelayBy(a, d), t) == Eval(a, t + d)
    ensures DelayBy(a, d).m == a.m
  {
    forall t ensures Eval(DelayBy(a, d), t) == Eval(a, t + d) {
      assert a.m * (t + d) == a.m * t + a.m * d;
    }
  }

  lemma DelayByZero(a: AffineCurve)
    ensures DelayBy(a, 0.0) == a
  {
  }

  /** Two successive delays compose into one delay by their sum. */
  lemma DelayByCompose(a: AffineCurve, d1: real, d2: real)
    ensures DelayBy(DelayBy(a, d1), d2) == DelayBy(a, d1 + d2)
  {
    assert a.m * (d1 + d2) == a.m * d1 + a.m * d2;
  }

  /** Delaying an aggregate is the aggregate of the delayed curves. */
  lemma DelayByAdd(a: AffineCurve, b: AffineCurve, d: real)
    ensures DelayBy(Add(a, b), d) == Add(DelayBy(a, d), DelayBy(b, d))
  {
    assert (a.m + b.m) * d == a.m * d + b.m * d;
  }
}
