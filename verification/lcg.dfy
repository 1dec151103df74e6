/** `weak_random_prediction` and `_test_lcg_pattern`: recognising a linear
    congruential generator from observed outputs and running it forward,
    with a linear extrapolation when no known generator fits. */
module Lcg {
  import opened Wrappers
  import opened Search

  /** One generator: `next = (a * prev + c) mod m`. */
  datatype Params = Params(a: int, c: int, m: int)

  const Gcc: Params := Params(1103515245, 12345, 0x8000_0000)
  const Microsoft: Params := Params(214013, 2531011, 0x1_0000_0000)
  const ParkMiller: Params := Params(16807, 0, 0x7FFF_FFFF)

  /** The generators tried, in order. */
  const KnownParams: seq<Params> := [Gcc, Microsoft, ParkMiller]

  predicate ValidParams(p: Params) { p.m > 0 }

  lemma KnownParamsValid()
    ensures forall i :: 0 <= i < |KnownParams| ==> ValidParams(KnownParams[i])
  {
  }

  /** One generator step. Python's `%` with a positive modulus, like Dafny's,
      never yields a negative value, so the two agree here. */
  function Step(p: Params, x: int): (y: int)
    requires ValidParams(p)
    ensures 0 <= y < p.m
  {
    (p.a * x + p.c) % p.m
  }

  /** The observations are at least three and each follows from the one before. */
  predicate Fits(values: seq<int>, p: Params)
    requires ValidParams(p)
  {
    |values| >= 3 && forall i :: 0 <= i < |values| - 1 ==> Step(p, values[i]) == values[i + 1]
  }

  /** `_test_lcg_pattern`: the loop that checks each consecutive pair. */
  method TestLcgPattern(values: seq<int>, p: Params) returns (ok: bool)
    requires ValidParams(p)
    ensures ok <==> Fits(values, p)
  {
    if |values| < 3 {
      return false;
    }
    var i := 0;
    while i < |values| - 1
      invariant 0 <= i <= |values| - 1
      invariant forall k :: 0 <= k < i ==> Step(p, values[k]) == values[k + 1]
    {
      var expected := Step(p, values[i]);
      if expected != values[i + 1] {
        return false;
      }
      i := i + 1;
    }
    return true;
  }

  /** `count` further outputs of `p` after `x`; none when `count <= 0`. */
  function Run(p: Params, x: int, count: int): (r: seq<int>)
    requires ValidParams(p)
    ensures |r| == if count > 0 then count else 0
    ensures |r| > 0 ==> r[0] == Step(p, x)
    ensures forall i :: 0 <= i < |r| - 1 ==> r[i + 1] == Step(p, r[i])
    ensures forall i :: 0 <= i < |r| ==> 0 <= r[i] < p.m
    decreases count
  {
    if count <= 0 then []
    else
      var y := Step(p, x);
      var rest := Run(p, y, count - 1);
      assert forall i :: 1 <= i < |rest| + 1 ==> ([y] + rest)[i] == rest[i - 1];
      [y] + rest
  }

  /** The first known generator that fits the observations. */
  function FirstFit(values: seq<int>): (r: Option<Params>)
    ensures r.Some? ==> r.value in KnownParams && ValidParams(r.value) && Fits(values, r.value)
    ensures r.None? <==> forall i :: 0 <= i < |KnownParams| ==> !Fits(values, KnownParams[i])
  {
    KnownParamsValid();
    FirstMatch(KnownParams, p => ValidParams(p) && Fits(values, p))
  }

  /** The fallback: continue the last difference, `last + diff * (i + 1)`. */
  function Extrapolate(values: seq<int>, count: int): (r: seq<int>)
    requires |values| >= 2
    ensures |r| == if count > 0 then count else 0
    ensures forall i :: 0 <= i < |r| ==>
              r[i] == values[|values| - 1] + (values[|values| - 1] - values[|values| - 2]) * (i + 1)
  {
    var last := values[|values| - 1];
    var diff := last - values[|values| - 2];
    seq(if count > 0 then count else 0, i => last + diff * (i + 1))
  }

  /** `weak_random_prediction(observed_values, count)`. A fitting generator
      with `count <= 0` leaves `predictions` empty, so the fallback then runs
      too; it also produces nothing. */
  function WeakRandomPrediction(observed: seq<int>, count: int): (r: seq<int>)
    ensures |observed| < 2 ==> r == []
    ensures |observed| >= 2 ==> |r| == if count > 0 then count else 0
    ensures FirstFit(observed).Some? ==>
              var p := FirstFit(observed).value;
              (|r| > 0 ==> r[0] == Step(p, observed[|observed| - 1]))
              && (forall i :: 0 <= i < |r| - 1 ==> r[i + 1] == Step(p, r[i]))
              && (forall i :: 0 <= i < |r| ==> 0 <= r[i] < p.m)
    ensures |observed| >= 2 && FirstFit(observed).None? ==>
              forall i :: 0 <= i < |r| ==>
                r[i] == observed[|observed| - 1] + (observed[|observed| - 1] - observed[|observed| - 2]) * (i + 1)
  {
    if |observed| < 2 then []
    else
      var predictions :=
        match FirstFit(observed)
        case Some(p) => Run(p, observed[|observed| - 1], count)
        case None => [];
      if |predictions| == 0 then Extrapolate(observed, count) else predictions
  }

  /** With a fitting generator the predictions extend the observed orbit:
      observations and predictions together still fit it. */
  lemma PredictionExtendsOrbit(observed: seq<int>, count: int)
    requires FirstFit(observed).Some?
    ensures Fits(observed + WeakRandomPrediction(observed, count), FirstFit(observed).value)
  {
    var p := FirstFit(observed).value;
    var r := WeakRandomPrediction(observed, count);
    var all := observed + r;
    forall i | 0 <= i < |all| - 1
      ensures Step(p, all[i]) == all[i + 1]
    {
      if i < |observed| - 1 {
        assert all[i] == observed[i] && all[i + 1] == observed[i + 1];
      } else if i == |observed| - 1 {
        assert all[i] == observed[|observed| - 1] && all[i + 1] == r[0];
      } else {
        assert all[i] == r[i - |observed|] && all[i + 1] == r[i - |observed| + 1];
      }
    }
  }

  /** A fit needs three observations, so two are always extrapolated linearly. */
  lemma TwoObservationsExtrapolate(x: int, y: int, count: int)
    ensures WeakRandomPrediction([x, y], count) == Extrapolate([x, y], count)
  {
    assert FirstFit([x, y]).None?;
  }

  /** The generators are tried in order: when GCC's fits, it is the one used. */
  lemma GccTriedFirst(observed: seq<int>)
    requires Fits(observed, Gcc)
    ensures FirstFit(observed) == Some(Gcc)
  {
    KnownParamsValid();
    assert KnownParams[0] == Gcc;
  }

  /** Without a fitting generator, observations and predictions together keep
      the last step constant: the output continues an arithmetic progression. */
  lemma ExtrapolationKeepsStep(observed: seq<int>, count: int)
    requires |observed| >= 2 && FirstFit(observed).None?
    ensures var all := observed + WeakRandomPrediction(observed, count);
            forall i :: |observed| - 2 <= i < |all| - 1 ==>
              all[i + 1] - all[i] == observed[|observed| - 1] - observed[|observed| - 2]
  {
    var r := WeakRandomPrediction(observed, count);
    var all := observed + r;
    var last := observed[|observed| - 1];
    var diff := last - observed[|observed| - 2];
    forall i | |observed| - 2 <= i < |all| - 1
      ensures all[i + 1] - all[i] == diff
    {
      if i == |observed| - 2 {
      } else if i == |observed| - 1 {
        assert all[i + 1] == r[0] == last + diff;
      } else {
        var k := i - |observed|;
        assert all[i] == r[k] == last + diff * (k + 1);
        assert all[i + 1] == r[k + 1] == last + diff * (k + 2);
      }
    }
  }
}
