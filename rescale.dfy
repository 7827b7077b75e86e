/**
 * dynamic_rescale (src/io.cpp:263-284): the power of ten a quantity's magnitude is printed
 * with. The magnitude is an exact real here; the long double and the rounding of 1e-3 are
 * not part of this model.
 */
module Rescale {
  import opened Fractions
  import opened Ratios
  import opened Runtime

  /** 1000 to the power n. */
  function Thousands(n: nat): (r: real)
    ensures r >= 1.0
  {
    if n == 0 then 1.0 else 1000.0 * Thousands(n - 1)
  }

  function Magnitude(value: real): real
  {
    if value < 0.0 then -value else value
  }

  // ---------------------------------------------------------------------------------
  // What each loop does to the magnitude.

  lemma FloorShrinks(x: real)
    requires x > 1.0
    ensures 0 <= (x * 0.001).Floor < x.Floor
  {
    if x >= 1000.0 {
      assert x * 0.001 <= x - 999.0;
    }
  }

  /** How many divisions by 1000 bring x to one or below: what bounds the first loop. */
  function Shrinks(x: real): nat
    requires x > 0.0
    decreases x.Floor
  {
    if x > 1.0 then FloorShrinks(x); 1 + Shrinks(x * 0.001) else 0
  }

  /** Multiplying a magnitude below one by 1000 takes its reciprocal one step down. */
  lemma LiftShrinks(v: real)
    requires 0.0 < v < 1.0
    ensures Shrinks(1.0 / (v * 1000.0)) < Shrinks(1.0 / v)
  {
    var x := 1.0 / v;
    assert x * v == 1.0;
    assert x > 1.0;
    assert x * 0.001 == 1.0 / (v * 1000.0);
  }

  /** The times `while(value < 1.0) value *= 1e+3;` runs on a positive magnitude. */
  function Lifts(v: real): nat
    requires v > 0.0
    decreases Shrinks(1.0 / v)
  {
    if v < 1.0 then LiftShrinks(v); 1 + Lifts(v * 1000.0) else 0
  }

  /** The magnitude that loop leaves: at least one, and below 1000 if the loop ran at all. */
  function Lifted(v: real): (w: real)
    requires v > 0.0
    ensures w >= 1.0 && (v < 1.0 ==> w < 1000.0) && (v >= 1.0 ==> w == v)
    decreases Shrinks(1.0 / v)
  {
    if v < 1.0 then LiftShrinks(v); Lifted(v * 1000.0) else v
  }

  /** The times `while(value > 1e3) value *= 1e-3;` runs on a positive magnitude. */
  function Drops(v: real): nat
    requires v > 0.0
    decreases v.Floor
  {
    if v > 1000.0 then FloorShrinks(v); 1 + Drops(v * 0.001) else 0
  }

  /** The magnitude that loop leaves: at most 1000, and above one if the loop ran at all. */
  function Dropped(v: real): (w: real)
    requires v > 0.0
    ensures 0.0 < w <= 1000.0 && (v > 1000.0 ==> w > 1.0) && (v <= 1000.0 ==> w == v)
    decreases v.Floor
  {
    if v > 1000.0 then FloorShrinks(v); Dropped(v * 0.001) else v
  }

  // ---------------------------------------------------------------------------------
  // What the loops do to the factor.

  /** The factor after `factor = factor - Ratio{3, 1}` n times. */
  function Lowered(f: Ratio, n: nat): Ratio
  {
    if n == 0 then f else Sub(Lowered(f, n - 1), Make(3, 1))
  }

  /** The factor after `factor = factor + Ratio{3, 1}` n times. */
  function Raised(f: Ratio, n: nat): Ratio
  {
    if n == 0 then f else Add(Raised(f, n - 1), Make(3, 1))
  }

  /** The test that stops the rescaling upward: no mass and no length, so no kiloseconds. */
  predicate TimeOnly(d: Dim)
  {
    d.mass.num == 0 && d.length.num == 0
  }

  /**
   * The dimension dynamic_rescale returns for `value`: `dim` with its factor lowered by 3 for
   * each run of the first loop, then, unless `dim` is time alone, raised by 3 for each run of
   * the second.
   */
  function Rescaled(value: real, dim: Dim): (r: Dim)
    ensures r.length == dim.length && r.mass == dim.mass && r.time == dim.time
    ensures value == 0.0 ==> r == dim
  {
    var v := Magnitude(value);
    if v == 0.0 then dim
    else if TimeOnly(dim) then dim.(factor := Lowered(dim.factor, Lifts(v)))
    else dim.(factor := Raised(Lowered(dim.factor, Lifts(v)), Drops(Lifted(v))))
  }

  /** The net number of steps of 1000: negative when the magnitude was lifted. */
  function Steps(value: real, dim: Dim): int
  {
    var v := Magnitude(value);
    if v == 0.0 then 0
    else if TimeOnly(dim) then -(Lifts(v) as int)
    else Drops(Lifted(v)) - Lifts(v)
  }

  /** The magnitude the loops leave behind, which the new factor no longer accounts for. */
  function Remaining(value: real, dim: Dim): real
  {
    var v := Magnitude(value);
    if v == 0.0 then 0.0
    else if TimeOnly(dim) then Lifted(v)
    else Dropped(Lifted(v))
  }

  /** The magnitude divided by 1000^k. */
  function Scaled(v: real, k: int): real
  {
    if k >= 0 then v / Thousands(k) else v * Thousands(-k)
  }

  // ---------------------------------------------------------------------------------
  // The imperative rescaler.

  /** dynamic_rescale: the two loops of src/io.cpp:263-284 on a local copy of the dimension. */
  method DynamicRescale(value: real, dimension: Dim) returns (r: Dim)
    ensures r == Rescaled(value, dimension)
  {
    var v := if value < 0.0 then -value else value;
    r := dimension;
    if v == 0.0 {
      return;
    }
    ghost var lifts := 0;
    while v < 1.0
      invariant v > 0.0 && lifts + Lifts(v) == Lifts(Magnitude(value)) && Lifted(v) == Lifted(Magnitude(value))
      invariant r == dimension.(factor := Lowered(dimension.factor, lifts))
      decreases Lifts(v)
    {
      v := v * 1000.0;
      r := r.(factor := Sub(r.factor, Make(3, 1)));
      lifts := lifts + 1;
    }
    if r.mass.num == 0 && r.length.num == 0 {
      return;
    }
    ghost var drops := 0;
    while v > 1000.0
      invariant v > 0.0 && drops + Drops(v) == Drops(Lifted(Magnitude(value)))
      invariant r == dimension.(factor := Raised(Lowered(dimension.factor, lifts), drops))
      decreases Drops(v)
    {
      v := v * 0.001;
      r := r.(factor := Add(r.factor, Make(3, 1)));
      drops := drops + 1;
    }
  }

  // ---------------------------------------------------------------------------------
  // What the rescaling achieves.

  /** Each lowering takes exactly 3 off the factor's value and keeps its denominator. */
  lemma {:induction false} LoweredValue(f: Ratio, n: nat)
    requires Valid(f)
    ensures Valid(Lowered(f, n)) && Lowered(f, n).den == f.den
    ensures Value(Lowered(f, n)) == Value(f) - 3.0 * n as real
  {
    if n > 0 {
      var g := Lowered(f, n - 1);
      LoweredValue(f, n - 1);
      MakeValue(3, 1);
      SubExact(g, Make(3, 1));
    }
  }

  /** Each raising adds exactly 3 to the factor's value and keeps its denominator. */
  lemma {:induction false} RaisedValue(f: Ratio, n: nat)
    requires Valid(f)
    ensures Valid(Raised(f, n)) && Raised(f, n).den == f.den
    ensures Value(Raised(f, n)) == Value(f) + 3.0 * n as real
  {
    if n > 0 {
      var g := Raised(f, n - 1);
      RaisedValue(f, n - 1);
      MakeValue(3, 1);
      AddExact(g, Make(3, 1));
    }
  }

  /** The first loop multiplies by 1000 once per run: it leaves v * 1000^Lifts(v). */
  lemma {:induction false} LiftedProduct(v: real)
    requires v > 0.0
    ensures Lifted(v) == v * Thousands(Lifts(v))
    decreases Shrinks(1.0 / v)
  {
    if v < 1.0 {
      LiftShrinks(v);
      var w := v * 1000.0;
      LiftedProduct(w);
      var t := Thousands(Lifts(w));
      assert Thousands(Lifts(w) + 1) == 1000.0 * t;
      assert v * (1000.0 * t) == w * t;
    }
  }

  /** The second loop divides by 1000 once per run: it leaves v / 1000^Drops(v). */
  lemma {:induction false} DroppedQuotient(v: real)
    requires v > 0.0
    ensures Dropped(v) == v / Thousands(Drops(v))
    decreases v.Floor
  {
    if v > 1000.0 {
      FloorShrinks(v);
      var w := v * 0.001;
      DroppedQuotient(w);
      var t := Thousands(Drops(w));
      assert Thousands(Drops(w) + 1) == 1000.0 * t;
      ThousandthOver(v, w, t);
    }
  }

  /** Dividing by 1000 t is taking a thousandth and dividing by t. */
  lemma ThousandthOver(v: real, w: real, t: real)
    requires t > 0.0 && w == v * 0.001
    ensures v / (1000.0 * t) == w / t
  {
    var q := w / t;
    assert q * t == w;
    assert q * (1000.0 * t) == v by {
      assert q * (1000.0 * t) == 1000.0 * (q * t);
    }
    QuotientOf(v, 1000.0 * t, q);
  }

  /**
   * The factor moves by 3 per step and by nothing else: its value changes by exactly
   * 3 * Steps, and its denominator stays as it was.
   */
  lemma RescaledFactor(value: real, dim: Dim)
    requires Valid(dim.factor)
    ensures Rescaled(value, dim).factor.den == dim.factor.den
    ensures Value(Rescaled(value, dim).factor) == Value(dim.factor) + 3.0 * Steps(value, dim) as real
  {
    var v := Magnitude(value);
    if v != 0.0 {
      var n := Lifts(v);
      LoweredValue(dim.factor, n);
      if !TimeOnly(dim) {
        RaisedValue(Lowered(dim.factor, n), Drops(Lifted(v)));
      }
    }
  }

  /**
   * Where the magnitude ends: for a non-zero value, what is left to print is |value| / 1000^Steps;
   * it is at least one, and at most 1000 unless the dimension is time alone; below 1000 whenever
   * the magnitude was lifted, above one whenever it was dropped; time alone is never dropped.
   */
  lemma RescaledWindow(value: real, dim: Dim)
    requires value != 0.0
    ensures var k, m := Steps(value, dim), Remaining(value, dim);
            && m == Scaled(Magnitude(value), k)
            && m >= 1.0
            && (!TimeOnly(dim) ==> m <= 1000.0)
            && (TimeOnly(dim) ==> k <= 0)
            && (k < 0 ==> m < 1000.0)
            && (k > 0 ==> m > 1.0)
  {
    var v := Magnitude(value);
    LiftedProduct(v);
    DroppedQuotient(Lifted(v));
    if Lifts(v) == 0 {
      assert v >= 1.0;
    }
  }

  /**
   * The quantities of test/io_tests.cpp:141, 147 and 168-169, each handed over in base units
   * with no power of ten: 0 km is 0 m and stays as it is, 7.5 km is 7500 m and goes up one
   * step leaving 7.5, 1025 s stays although above 1000, and 0.1 s goes down one step leaving 100.
   */
  lemma RescaleExamples()
    ensures Rescaled(0.0, Dim(Int(1), Int(0), Int(0), Int(0))) == Dim(Int(1), Int(0), Int(0), Int(0))
    ensures Rescaled(7500.0, Dim(Int(1), Int(0), Int(0), Int(0))).factor == Ratio(3, 1)
    ensures Remaining(7500.0, Dim(Int(1), Int(0), Int(0), Int(0))) == 7.5
    ensures Rescaled(1025.0, Dim(Int(0), Int(0), Int(1), Int(0))).factor == Ratio(0, 1)
    ensures Remaining(1025.0, Dim(Int(0), Int(0), Int(1), Int(0))) == 1025.0
    ensures Rescaled(0.1, Dim(Int(0), Int(0), Int(1), Int(0))).factor == Ratio(-3, 1)
    ensures Remaining(0.1, Dim(Int(0), Int(0), Int(1), Int(0))) == 100.0
  {
    MetresUp(Dim(Int(1), Int(0), Int(0), Int(0)));
    SecondsKept(Dim(Int(0), Int(0), Int(1), Int(0)));
    SecondsDown(Dim(Int(0), Int(0), Int(1), Int(0)));
  }

  lemma MetresUp(d: Dim)
    requires d == Dim(Int(1), Int(0), Int(0), Int(0))
    ensures Rescaled(7500.0, d).factor == Ratio(3, 1) && Remaining(7500.0, d) == 7.5
  {
    assert Lifts(7500.0) == 0 && Lifted(7500.0) == 7500.0;
    assert Drops(7500.0) == 1 && Dropped(7500.0) == 7.5;
  }

  lemma SecondsKept(d: Dim)
    requires d == Dim(Int(0), Int(0), Int(1), Int(0))
    ensures Rescaled(1025.0, d).factor == Ratio(0, 1) && Remaining(1025.0, d) == 1025.0
  {
    assert Lifts(1025.0) == 0 && Lifted(1025.0) == 1025.0;
  }

  lemma SecondsDown(d: Dim)
    requires d == Dim(Int(0), Int(0), Int(1), Int(0))
    ensures Rescaled(0.1, d).factor == Ratio(-3, 1) && Remaining(0.1, d) == 100.0
  {
    assert Lifts(100.0) == 0 && Lifts(0.1) == 1 && Lifted(0.1) == 100.0;
  }
}
