/** The arithmetic helpers of Utils.py: conservative SI-unit rounding and the
    two Theorem 1 bounds (delay and backlog) for affine curves. */
module Utils {
  import opened Wrappers
  import opened Errors
  import opened Curves

  /** A delay or backlog bound: a finite value, or +inf when the hop is unstable. */
  datatype Bound = Finite(value: real) | Infinite {
    /** Python's `x >= 0`, with inf >= 0. */
    predicate NonNegative() { Infinite? || value >= 0.0 }

    /** Python's `+` on a bound: inf absorbs every finite value. */
    function Plus(other: Bound): Bound
    {
      if Infinite? || other.Infinite? then Infinite else Finite(value + other.value)
    }
  }

  function Abs(x: real): real { if x < 0.0 then -x else x }

  function Max(a: real, b: real): real { if a < b then b else a }

  /** The SI prefixes the rounding knows, greatest first. */
  datatype Unit = Giga | Mega | One | Milli | Micro

  function Factor(u: Unit): (f: real)
    ensures f >= 0.000001
  {
    match u
    case Giga => 1000000000.0
    case Mega => 1000000.0
    case One => 1.0
    case Milli => 0.001
    case Micro => 0.000001
  }

  /** The prefixes in the order the automatic rounding scans them. */
  const OrderedUnits: seq<Unit> := [Giga, Mega, One, Milli, Micro]

  /** The unit a prefix string names; "" is the unit 1. */
  function UnitNamed(s: string): Option<Unit>
  {
    if s == "G" then Some(Giga)
    else if s == "M" then Some(Mega)
    else if s == "" then Some(One)
    else if s == "m" then Some(Milli)
    else if s == "µ" then Some(Micro)
    else None
  }

  /** One rounding step at unit u: amount/u, floored (Python's `x - x % 1`),
      plus one, times u. */
  function RoundUp(amount: real, u: Unit): real
  {
    ((amount / Factor(u)).Floor as real + 1.0) * Factor(u)
  }

  /** Automatic rounding: each unit whose size does not exceed |amount| (as it
      stands when that unit is reached) applies one step. */
  function CeilScan(amount: real, units: seq<Unit>): real
    decreases |units|
  {
    if units == [] then amount
    else
      var next := if Abs(amount) >= Factor(units[0]) then RoundUp(amount, units[0]) else amount;
      CeilScan(next, units[1..])
  }

  /** `ceilWithUnit(amount, selectUnit)`; `None` is the absent argument and "u"
      is read as the micro sign. An unknown prefix leaves the amount as it is. */
  function CeilWith(amount: real, selectUnit: Option<string>): real
  {
    match selectUnit
    case None => CeilScan(amount, OrderedUnits)
    case Some(s) =>
      var name := if s == "u" then "µ" else s;
      match UnitNamed(name)
      case Some(u) => RoundUp(amount, u)
      case None => amount
  }

  /** `ceilWithUnit` as the loop the source runs: `amount` reassigned across
      the units. */
  method CeilWithUnit(amount: real, selectUnit: Option<string>) returns (r: real)
    ensures r == CeilWith(amount, selectUnit)
  {
    var sel := selectUnit;
    if sel == Some("u") {
      sel := Some("µ");
    }
    r := amount;
    if sel.None? {
      var i := 0;
      while i < |OrderedUnits|
        invariant 0 <= i <= |OrderedUnits|
        invariant CeilScan(r, OrderedUnits[i..]) == CeilWith(amount, selectUnit)
      {
        var u := OrderedUnits[i];
        assert OrderedUnits[i..][1..] == OrderedUnits[i + 1..];
        if Abs(r) >= Factor(u) {
          r := RoundUp(r, u);
        }
        i := i + 1;
      }
    } else {
      var u := UnitNamed(sel.value);
      if u.Some? {
        r := RoundUp(r, u.value);
      }
    }
  }

  /** One rounding step always lands strictly above its input. */
  lemma RoundUpAbove(amount: real, u: Unit)
    ensures RoundUp(amount, u) > amount
  {
    var f := Factor(u);
    var q := amount / f;
    assert q.Floor as real + 1.0 > q;
    assert q * f == amount;
    assert (q.Floor as real + 1.0) * f > q * f;
  }

  /** Automatic rounding never lowers the amount. */
  lemma {:induction false} CeilScanAtLeast(amount: real, units: seq<Unit>)
    ensures CeilScan(amount, units) >= amount
    decreases |units|
  {
    if units != [] {
      var next := if Abs(amount) >= Factor(units[0]) then RoundUp(amount, units[0]) else amount;
      if Abs(amount) >= Factor(units[0]) {
        RoundUpAbove(amount, units[0]);
      }
      CeilScanAtLeast(next, units[1..]);
    }
  }

  /** It raises the amount strictly exactly when some unit it scans is no larger
      than |amount|. */
  lemma {:induction false} CeilScanStrict(amount: real, units: seq<Unit>)
    ensures CeilScan(amount, units) > amount <==>
            exists i :: 0 <= i < |units| && Abs(amount) >= Factor(units[i])
    decreases |units|
  {
    if units != [] {
      if Abs(amount) >= Factor(units[0]) {
        RoundUpAbove(amount, units[0]);
        CeilScanAtLeast(RoundUp(amount, units[0]), units[1..]);
      } else {
        CeilScanStrict(amount, units[1..]);
        if exists i :: 0 <= i < |units| && Abs(amount) >= Factor(units[i]) {
          var i :| 0 <= i < |units| && Abs(amount) >= Factor(units[i]);
          assert units[1..][i - 1] == units[i];
        }
        forall i | 0 <= i < |units| - 1 && Abs(amount) >= Factor(units[1..][i])
          ensures exists j :: 0 <= j < |units| && Abs(amount) >= Factor(units[j])
        {
          assert units[1..][i] == units[i + 1];
        }
      }
    }
  }

  /** `ceilWithUnit(amount)` with no unit: the result is never below the amount,
      and it is strictly above it exactly when |amount| reaches the smallest
      prefix (one micro). */
  lemma CeilAuto(amount: real)
    ensures CeilWith(amount, None) >= amount
    ensures CeilWith(amount, None) > amount <==> Abs(amount) >= 0.000001
    ensures Abs(amount) < 0.000001 ==> CeilWith(amount, None) == amount
  {
    CeilScanAtLeast(amount, OrderedUnits);
    CeilScanStrict(amount, OrderedUnits);
    if Abs(amount) >= 0.000001 {
      assert OrderedUnits[4] == Micro;
    }
  }

  /** `ceilWithUnit(amount, unit)`: a recognised prefix ("u" included) applies
      exactly one rounding step; any other string leaves the amount unchanged. */
  lemma CeilSelected(amount: real, s: string)
    ensures UnitNamed(if s == "u" then "µ" else s).Some? ==>
              CeilWith(amount, Some(s)) == RoundUp(amount, UnitNamed(if s == "u" then "µ" else s).value) &&
              CeilWith(amount, Some(s)) > amount
    ensures UnitNamed(if s == "u" then "µ" else s).None? ==> CeilWith(amount, Some(s)) == amount
    ensures s == "u" ==> CeilWith(amount, Some(s)) == RoundUp(amount, Micro)
  {
    var name := if s == "u" then "µ" else s;
    if UnitNamed(name).Some? {
      RoundUpAbove(amount, UnitNamed(name).value);
    }
  }

  /** Theorem 1, delay form (`computeTheorem1Delay`). */
  function Theorem1Delay(arrival: AffineCurve, service: AffineCurve, checkStability: bool): (r: Result<Bound, Fault>)
    ensures checkStability && service.m <= arrival.m ==> r == Ok(Infinite)
    ensures !(checkStability && service.m <= arrival.m) ==>
              var b := arrival.n - service.n;
              (b <= 0.0 ==> r == Ok(Finite(0.0))) &&
              (b > 0.0 && service.m == 0.0 ==> r == Err(DivisionByZero)) &&
              (b > 0.0 && service.m != 0.0 ==> r.Ok? && r.value.Finite? && r.value.value >= b / service.m) &&
              (b > 0.0 && service.m > 0.0 ==> r.Ok? && r.value.Finite? && r.value.value > 0.0)
  {
    if service.m <= arrival.m && checkStability then Ok(Infinite)
    else
      var b := arrival.n - service.n;
      if b <= 0.0 then Ok(Finite(0.0))
      else if service.m == 0.0 then Err(DivisionByZero)
      else
        var q := b / service.m;
        assert service.m > 0.0 ==> q > 0.0 by {
          if service.m > 0.0 { assert q * service.m == b; }
        }
        CeilAuto(q);
        Ok(Finite(CeilWith(q, None)))
  }

  /** Theorem 1, backlog form (`computeTheorem1Backlog`): the aggregate arrival
      read at t* = max(0, -service.n / service.m), the instant the service curve
      leaves zero. */
  function Theorem1Backlog(arrival: AffineCurve, service: AffineCurve, checkStability: bool): (r: Result<Bound, Fault>)
    ensures checkStability && service.m <= arrival.m ==> r == Ok(Infinite)
    ensures !(checkStability && service.m <= arrival.m) && service.m == 0.0 ==> r == Err(DivisionByZero)
    ensures !(checkStability && service.m <= arrival.m) && service.m != 0.0 ==>
              var tStar := Max(0.0, -service.n / service.m);
              r == Ok(Finite(Eval(arrival, tStar))) && tStar >= 0.0 &&
              (service.m > 0.0 && service.n <= 0.0 ==> Eval(service, tStar) == 0.0)
    ensures !(checkStability && service.m <= arrival.m) && service.m > 0.0 && service.n >= 0.0 ==>
              r == Ok(Finite(arrival.n))
    ensures !(checkStability && service.m <= arrival.m) && service.m != 0.0 && arrival.m >= 0.0 ==>
              r.Ok? && r.value.Finite? && r.value.value >= arrival.n
  {
    if service.m <= arrival.m && checkStability then Ok(Infinite)
    else if service.m == 0.0 then Err(DivisionByZero)
    else
      var t := -service.n / service.m;
      var tStar := if t < 0.0 then 0.0 else t;
      assert service.m > 0.0 && service.n <= 0.0 ==> service.m * t == -service.n;
      assert arrival.m >= 0.0 ==> tStar * arrival.m >= 0.0;
      Ok(Finite(tStar * arrival.m + arrival.n))
  }

  /** One rounding step is monotone in the amount. */
  lemma RoundUpMonotone(a: real, b: real, u: Unit)
    requires a <= b
    ensures RoundUp(a, u) <= RoundUp(b, u)
  {
    var f := Factor(u);
    assert a / f <= b / f by {
      assert (a / f) * f == a && (b / f) * f == b;
    }
    assert (a / f).Floor <= (b / f).Floor;
  }

  /** On non-negative amounts the automatic rounding is monotone: a larger
      amount never rounds to a smaller value. */
  lemma {:induction false} CeilScanMonotone(a: real, b: real, units: seq<Unit>)
    requires 0.0 <= a <= b
    ensures CeilScan(a, units) <= CeilScan(b, units)
    decreases |units|
  {
    if units != [] {
      var u := units[0];
      var na := if Abs(a) >= Factor(u) then RoundUp(a, u) else a;
      var nb := if Abs(b) >= Factor(u) then RoundUp(b, u) else b;
      if Abs(a) >= Factor(u) {
        RoundUpAbove(a, u);
        RoundUpMonotone(a, b, u);
      } else if Abs(b) >= Factor(u) {
        RoundUpAbove(b, u);
      }
      assert 0.0 <= na <= nb;
      CeilScanMonotone(na, nb, units[1..]);
    }
  }

  /** The automatic rounding is monotone on non-negative amounts. */
  lemma CeilAutoMonotone(a: real, b: real)
    requires 0.0 <= a <= b
    ensures CeilWith(a, None) <= CeilWith(b, None)
  {
    CeilScanMonotone(a, b, OrderedUnits);
  }

  lemma DivideMonotone(x: real, y: real, m: real)
    requires 0.0 < x <= y && m > 0.0
    ensures 0.0 < x / m <= y / m
  {
    assert (x / m) * m == x && (y / m) * m == y;
  }

  /** The finite branch of Theorem 1: a positive burst over a non-zero rate. */
  lemma Theorem1DelayFinite(arrival: AffineCurve, service: AffineCurve, checkStability: bool)
    requires !(checkStability && service.m <= arrival.m) && arrival.n - service.n > 0.0 && service.m != 0.0
    ensures Theorem1Delay(arrival, service, checkStability) == Ok(Finite(CeilWith((arrival.n - service.n) / service.m, None)))
  {
  }

  /** One hop of Theorem 1 against a rate-positive service: a larger burst (and
      a rate no smaller) never gives a smaller delay bound; +inf is above every
      finite bound. */
  lemma Theorem1DelayGrowsWithBurst(a1: AffineCurve, a2: AffineCurve, service: AffineCurve, checkStability: bool)
    requires service.m > 0.0 && a1.m <= a2.m && a1.n <= a2.n
    ensures var r1 := Theorem1Delay(a1, service, checkStability);
            var r2 := Theorem1Delay(a2, service, checkStability);
            r1.Ok? && r2.Ok? && (r2.value.Infinite? || (r1.value.Finite? && r1.value.value <= r2.value.value))
  {
    var r1 := Theorem1Delay(a1, service, checkStability);
    var r2 := Theorem1Delay(a2, service, checkStability);
    var b1 := a1.n - service.n;
    var b2 := a2.n - service.n;
    if checkStability && service.m <= a2.m {
      assert r2 == Ok(Infinite);
    } else if b1 <= 0.0 {
      assert r1 == Ok(Finite(0.0));
    } else {
      DivideMonotone(b1, b2, service.m);
      Theorem1DelayFinite(a1, service, checkStability);
      Theorem1DelayFinite(a2, service, checkStability);
      CeilAutoMonotone(b1 / service.m, b2 / service.m);
    }
  }

  /** Without the stability guard, a service rate driven below zero reverses
      that order: against the service (-1, 0), the burst 1 gets delay 0 and the
      larger burst 2 a negative delay. */
  lemma Theorem1DelayOverloaded()
    ensures Theorem1Delay(AffineCurve(0.0, 1.0), AffineCurve(-1.0, 0.0), false) == Ok(Finite(0.0))
    ensures Theorem1Delay(AffineCurve(0.0, 2.0), AffineCurve(-1.0, 0.0), false) == Ok(Finite(-0.998999))
  {
    assert OrderedUnits[1..] == [Mega, One, Milli, Micro];
    assert OrderedUnits[2..] == [One, Milli, Micro];
    assert OrderedUnits[3..] == [Milli, Micro];
    assert OrderedUnits[4..] == [Micro];
    assert RoundUp(-1.0, One) == 0.0;
    assert CeilScan(-1.0, OrderedUnits) == 0.0;
    assert RoundUp(-2.0, One) == -1.0;
    assert (-1.0 / 0.001).Floor == -1000;
    assert RoundUp(-1.0, Milli) == -0.999;
    assert (-0.999 / 0.000001).Floor == -999000;
    assert RoundUp(-0.999, Micro) == -0.998999;
    assert CeilScan(-2.0, OrderedUnits) == -0.998999;
  }
}
