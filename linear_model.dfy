/** The linear mapping functions of the learned index (comp10002/a1/program.c):
    a line `(a, b)` maps a key to the index ceil((key + a) / b), or to `a` when `b == 0`. */
module LinearModel {

  /** The `(a, b)` pair that compute_ab produces through its two out-parameters. */
  datatype Line = Line(a: int, b: int)

  /** map_t: a line and the largest dataset value (`max`) it is meant to cover. */
  datatype Mapping = Mapping(a: int, b: int, max: int)

  /** The C library's abs on mathematical integers. */
  function Abs(x: int): (r: nat)
    ensures r == x || r == -x
  {
    if x < 0 then -x else x
  }

  /** max(): the larger of two integers. */
  function Max(a: int, b: int): (r: int)
    ensures r >= a && r >= b
    ensures r == a || r == b
  {
    if a > b then a else b
  }

  /** min(): the smaller of two integers. */
  function Min(a: int, b: int): (r: int)
    ensures r <= a && r <= b
    ensures r == a || r == b
  {
    if a < b then a else b
  }

  /** The ceiling of the exact quotient n / d: the least q with q >= n / d. */
  function CeilDiv(n: int, d: int): (q: int)
    requires d != 0
    ensures d > 0 ==> (q - 1) * d < n <= q * d
    ensures d < 0 ==> q * d <= n < (q - 1) * d
  {
    if d > 0 then
      var m := (-n) / d;
      assert -n == d * m + (-n) % d;
      -m
    else
      var m := n / (-d);
      assert n == (-d) * m + n % (-d);
      -m
  }

  /** Multiplying by a positive number keeps the order. */
  lemma MulMonotone(x: int, y: int, d: int)
    requires x <= y && d > 0
    ensures x * d <= y * d
  {
    assert y * d - x * d == (y - x) * d;
  }

  /** The ceiling is exact on a multiple of the divisor. */
  lemma CeilDivOfMultiple(y: int, d: int)
    requires d != 0
    ensures CeilDiv(y * d, d) == y
  {
    var q := CeilDiv(y * d, d);
    var e := if d > 0 then d else -d;
    var z := if d > 0 then y else -y;
    var p := if d > 0 then q else -q;
    assert y * d == z * e;
    assert q * d == p * e;
    assert (q - 1) * d == (if d > 0 then (p - 1) * e else (p + 1) * e);
    if q > y {
      if d > 0 { MulMonotone(y, q - 1, e); } else { MulMonotone(p + 1, z, e); }
    } else if q < y {
      if d > 0 { MulMonotone(q, y - 1, e); } else { MulMonotone(z + 1, p, e); }
    }
  }

  /** compute_f_key rounded up by ceil, as stage_three and stage_four use it: the index the
      line predicts for `key`. */
  function Predict(key: int, a: int, b: int): (p: int)
    ensures b > 0 ==> (p - 1) * b < key + a <= p * b
    ensures b == 0 ==> p == a
  {
    if b == 0 then a else CeilDiv(key + a, b)
  }

  /** A line of slope 1 predicts `key + a` exactly. */
  lemma PredictUnitSlope(key: int, a: int)
    ensures Predict(key, a, 1) == key + a
  {
    CeilDivOfMultiple(key + a, 1);
  }

  /** compute_ab: the line through the points (dataset[y0], y0) and (dataset[y1], y1),
      or the constant line `a = y0, b = 0` when the two values are equal. */
  function ComputeAb(dataset: seq<int>, y0: int, y1: int): (r: Line)
    requires 0 <= y0 < |dataset| && 0 <= y1 < |dataset|
    ensures r.b == 0 <==> dataset[y0] == dataset[y1]
    ensures dataset[y0] == dataset[y1] ==> r.a == y0
    ensures dataset[y0] < dataset[y1] ==> r.b > 0
  {
    var x0, x1 := dataset[y0], dataset[y1];
    if x0 == x1 then
      Line(y0, 0)
    else
      Line(y0 * x1 - y1 * x0, x1 - x0)
  }

  /** A line compute_ab fits through two neighbouring positions with different values passes
      through both points: `x + a == y * b` at each of them. */
  lemma ComputeAbThroughPoints(dataset: seq<int>, y0: int)
    requires 0 <= y0 && y0 + 1 < |dataset| && dataset[y0] != dataset[y0 + 1]
    ensures var l := ComputeAb(dataset, y0, y0 + 1);
            dataset[y0] + l.a == y0 * l.b && dataset[y0 + 1] + l.a == (y0 + 1) * l.b
  {
    var x0, x1 := dataset[y0], dataset[y0 + 1];
    assert x0 + (y0 * x1 - (y0 + 1) * x0) == y0 * (x1 - x0);
    assert x1 + (y0 * x1 - (y0 + 1) * x0) == (y0 + 1) * (x1 - x0);
  }

  /** compute_err: the distance between the predicted and the true index of dataset[index]. */
  function ComputeErr(dataset: seq<int>, index: int, a: int, b: int): (e: nat)
    requires 0 <= index < |dataset|
    ensures e == 0 <==> Predict(dataset[index], a, b) == index
    ensures b == 0 ==> e == Abs(a - index)
  {
    Abs(Predict(dataset[index], a, b) - index)
  }

  /** The error of an index is at most `w` exactly when the index lies in the window of
      half-width `w` around the prediction; this is what makes the window search of
      stage_four find an index whose error is within bound. */
  lemma ErrWithinWindow(dataset: seq<int>, index: int, a: int, b: int, w: int)
    requires 0 <= index < |dataset|
    ensures ComputeErr(dataset, index, a, b) <= w <==>
            Predict(dataset[index], a, b) - w <= index <= Predict(dataset[index], a, b) + w
  {
  }

  /** A line fitted through two neighbouring positions predicts the first one exactly and,
      unless the two values are equal, the second one exactly too; for equal values the
      second one is off by one. */
  lemma FitPoints(dataset: seq<int>, y0: int)
    requires 0 <= y0 && y0 + 1 < |dataset|
    ensures var l := ComputeAb(dataset, y0, y0 + 1);
            ComputeErr(dataset, y0, l.a, l.b) == 0 &&
            ComputeErr(dataset, y0 + 1, l.a, l.b) == (if dataset[y0] == dataset[y0 + 1] then 1 else 0)
  {
    var l := ComputeAb(dataset, y0, y0 + 1);
    if l.b != 0 {
      ComputeAbThroughPoints(dataset, y0);
      CeilDivOfMultiple(y0, l.b);
      CeilDivOfMultiple(y0 + 1, l.b);
    }
  }
}
