/** The stages of the learned index (comp10002/a1/program.c) after the input is read and
    sorted: the maximum error of one global line (stage_two), the greedy segmentation into
    mapping functions (stage_three) and the exact-match query (stage_four). The dataset size
    N of the source, DATASET_SIZE, is the length of `dataset` here. */
module LearnedIndex {
  import opened LinearModel
  import opened Sorting
  import opened Search

  const DATASET_SIZE := 100

  /** The line stage_two and stage_three start from, fitted through positions 0 and 1;
      it predicts position 0 exactly. */
  function FirstLine(dataset: seq<int>): (l: Line)
    requires |dataset| >= 2
    ensures ComputeErr(dataset, 0, l.a, l.b) == 0
  {
    FitPoints(dataset, 0);
    ComputeAb(dataset, 0, 1)
  }

  /** The prediction error of position `i` under the first line. */
  function GlobalErr(dataset: seq<int>, i: int): nat
    requires |dataset| >= 2 && 0 <= i < |dataset|
  {
    ComputeErr(dataset, i, FirstLine(dataset).a, FirstLine(dataset).b)
  }

  // ---------------------------------------------------------------- stage_two

  /** stage_two: the largest prediction error under the first line, and the first position
      that attains it (a strictly larger error is needed to replace an earlier position). */
  method StageTwo(dataset: seq<int>) returns (biggestErr: int, biggestIndex: int)
    requires |dataset| >= 2
    ensures 0 <= biggestIndex < |dataset|
    ensures biggestErr == GlobalErr(dataset, biggestIndex)
    ensures forall i :: 0 <= i < |dataset| ==> GlobalErr(dataset, i) <= biggestErr
    ensures forall i :: 0 <= i < biggestIndex ==> GlobalErr(dataset, i) < biggestErr
  {
    var l := ComputeAb(dataset, 0, 1);
    biggestErr, biggestIndex := 0, 0;
    for i := 0 to |dataset|
      invariant 0 <= biggestIndex < |dataset| && biggestIndex <= i
      invariant biggestErr == GlobalErr(dataset, biggestIndex)
      invariant forall k :: 0 <= k < i ==> GlobalErr(dataset, k) <= biggestErr
      invariant forall k :: 0 <= k < biggestIndex ==> GlobalErr(dataset, k) < biggestErr
    {
      var err := ComputeErr(dataset, i, l.a, l.b);
      if err > biggestErr {
        biggestErr := err;
        biggestIndex := i;
      }
    }
  }

  // ---------------------------------------------------------------- stage_three

  /** The state of stage_three's loop: the line `(a, b)` in force and the mappings stored. */
  datatype Fit = Fit(a: int, b: int, mappings: seq<Mapping>)

  /** What iteration `i` of stage_three stores: the line in force with the boundary
      dataset[i-1] when position i breaks the error bound, with the boundary dataset[i] when
      i is the last position, and nothing otherwise. The boundary -1 stands for "nothing",
      so a negative boundary is never stored. */
  function Store(dataset: seq<int>, maxErr: int, i: int, st: Fit): (r: seq<Mapping>)
    requires 2 <= i < |dataset|
    ensures st.mappings <= r && |r| <= |st.mappings| + 1
    ensures |r| > |st.mappings| ==>
              && r[|st.mappings|].a == st.a && r[|st.mappings|].b == st.b
              && r[|st.mappings|].max >= 0
              && (|| (ComputeErr(dataset, i, st.a, st.b) > maxErr && r[|st.mappings|].max == dataset[i - 1])
                  || (ComputeErr(dataset, i, st.a, st.b) <= maxErr && i == |dataset| - 1 &&
                      r[|st.mappings|].max == dataset[i]))
    ensures |r| > |st.mappings| <==>
              || (ComputeErr(dataset, i, st.a, st.b) > maxErr && dataset[i - 1] >= 0)
              || (ComputeErr(dataset, i, st.a, st.b) <= maxErr && i == |dataset| - 1 && dataset[i] >= 0)
  {
    var err := ComputeErr(dataset, i, st.a, st.b);
    var maxElem :=
      if err > maxErr then dataset[i - 1]
      else if i == |dataset| - 1 then dataset[i]
      else -1;
    if maxElem >= 0 then st.mappings + [Mapping(st.a, st.b, maxElem)] else st.mappings
  }

  /** Iteration `i` of stage_three: store, then refit when position i broke the bound. The
      refit is the single-point line `a = N-1, b = 0` at position N-2 and the line through
      positions i and i+1 otherwise; after the last position there is no refit (the source
      refits there too, reading past the dataset: see AsWrittenStep). */
  function Step(dataset: seq<int>, maxErr: int, i: int, st: Fit): (r: Fit)
    requires 2 <= i < |dataset|
    ensures r.mappings == Store(dataset, maxErr, i, st)
    ensures (r.a != st.a || r.b != st.b) ==> ComputeErr(dataset, i, st.a, st.b) > maxErr
  {
    var n := |dataset|;
    var stored := Store(dataset, maxErr, i, st);
    if ComputeErr(dataset, i, st.a, st.b) > maxErr then
      if i == n - 2 then Fit(n - 1, 0, stored)
      else if i + 1 < n then var l := ComputeAb(dataset, i, i + 1); Fit(l.a, l.b, stored)
      else Fit(st.a, st.b, stored)
    else Fit(st.a, st.b, stored)
  }

  /** The refit does what the segmentation is for: away from the last two positions,
      position `i` is within `maxErr` of the line in force after iteration `i`, which is the
      old line when it kept the bound and the line through positions i and i+1 otherwise. */
  lemma StepCoversPosition(dataset: seq<int>, maxErr: int, i: int, st: Fit)
    requires 2 <= i && i + 2 < |dataset| && maxErr >= 0
    ensures var r := Step(dataset, maxErr, i, st);
            ComputeErr(dataset, i, r.a, r.b) <= maxErr
  {
    FitPoints(dataset, i);
  }

  /** The single-point rule at position N-2: when that position breaks the bound, the new
      line `a = N-1, b = 0` is exact at position N-1 but off by exactly 1 at N-2 itself. */
  lemma SinglePointRefitOffByOne(dataset: seq<int>, maxErr: int, st: Fit)
    requires |dataset| >= 4
    requires ComputeErr(dataset, |dataset| - 2, st.a, st.b) > maxErr
    ensures var n, r := |dataset|, Step(dataset, maxErr, |dataset| - 2, st);
            && r.a == n - 1 && r.b == 0
            && ComputeErr(dataset, n - 2, r.a, r.b) == 1
            && ComputeErr(dataset, n - 1, r.a, r.b) == 0
  {
  }

  /** The state of stage_three before iteration `i`. */
  function FitAfter(dataset: seq<int>, maxErr: int, i: int): Fit
    requires 2 <= i <= |dataset|
    decreases i
  {
    if i == 2 then
      var l := FirstLine(dataset);
      Fit(l.a, l.b, [])
    else
      Step(dataset, maxErr, i - 1, FitAfter(dataset, maxErr, i - 1))
  }

  /** The mappings stage_three stores. */
  function Segments(dataset: seq<int>, maxErr: int): (r: seq<Mapping>)
    requires |dataset| >= 2
    ensures |r| <= |dataset| - 2
  {
    SegmentCount(dataset, maxErr, |dataset|);
    FitAfter(dataset, maxErr, |dataset|).mappings
  }

  /** stage_three: the greedy pass over positions 2 .. N-1, writing the mappings into the
      caller's buffer and returning how many it wrote. */
  method StageThree(dataset: seq<int>, maxErr: int, mappings: array<Mapping>) returns (mpsLen: int)
    requires 2 <= |dataset| <= mappings.Length
    modifies mappings
    ensures 0 <= mpsLen <= |dataset| - 2
    ensures mpsLen == |Segments(dataset, maxErr)|
    ensures mappings[..mpsLen] == Segments(dataset, maxErr)
    ensures forall k :: mpsLen <= k < mappings.Length ==> mappings[k] == old(mappings[k])
  {
    var n := |dataset|;
    var l := ComputeAb(dataset, 0, 1);
    var a, b := l.a, l.b;
    mpsLen := 0;
    for i := 2 to n
      invariant 0 <= mpsLen <= i - 2
      invariant FitAfter(dataset, maxErr, i) == Fit(a, b, mappings[..mpsLen])
      invariant forall k :: mpsLen <= k < mappings.Length ==> mappings[k] == old(mappings[k])
    {
      a, b, mpsLen := StageThreeIteration(dataset, maxErr, mappings, i, a, b, mpsLen);
    }
  }

  /** One iteration of stage_three's loop at position `i`: store the line `(a, b)` in the
      next free slot when Store asks for it, then refit; the new line and count are those of
      Step, and no slot beyond the stored ones changes. */
  method StageThreeIteration(dataset: seq<int>, maxErr: int, mappings: array<Mapping>, i: int, a: int, b: int, mpsLen: int)
    returns (a': int, b': int, mpsLen': int)
    requires 2 <= i < |dataset| <= mappings.Length && 0 <= mpsLen <= i - 2
    modifies mappings
    ensures mpsLen <= mpsLen' <= mpsLen + 1
    ensures Fit(a', b', mappings[..mpsLen']) == Step(dataset, maxErr, i, Fit(a, b, old(mappings[..mpsLen])))
    ensures forall k :: mpsLen' <= k < mappings.Length ==> mappings[k] == old(mappings[k])
  {
    var n := |dataset|;
    ghost var st := Fit(a, b, mappings[..mpsLen]);
    var err := ComputeErr(dataset, i, a, b);
    var maxElem := -1;
    if err > maxErr {
      maxElem := dataset[i - 1];
    } else if i == n - 1 {
      maxElem := dataset[i];
    }
    mpsLen' := mpsLen;
    if maxElem >= 0 {
      mappings[mpsLen] := Mapping(a, b, maxElem);
      assert mappings[..mpsLen + 1] == st.mappings + [Mapping(a, b, maxElem)];
      mpsLen' := mpsLen + 1;
    }
    assert mappings[..mpsLen'] == Store(dataset, maxErr, i, st);
    a', b' := a, b;
    if err > maxErr {
      if i == n - 2 {
        a', b' := n - 1, 0;
      } else if i + 1 < n {
        var l := ComputeAb(dataset, i, i + 1);
        a', b' := l.a, l.b;
      }
    }
  }

  /** At most one mapping is stored per iteration, so at most N-2 in all. */
  lemma {:induction false} SegmentCount(dataset: seq<int>, maxErr: int, i: int)
    requires 2 <= i <= |dataset|
    ensures |FitAfter(dataset, maxErr, i).mappings| <= i - 2
  {
    if i > 2 {
      SegmentCount(dataset, maxErr, i - 1);
    }
  }

  /** Every boundary in `m` is one of the values dataset[1 .. i-1]. */
  ghost predicate BoundariesFrom(dataset: seq<int>, m: seq<Mapping>, i: int)
    requires 1 <= i <= |dataset|
  {
    forall k :: 0 <= k < |m| ==> m[k].max in dataset[1..i]
  }

  /** No boundary in `m` exceeds `bound`. */
  ghost predicate BoundariesAtMost(m: seq<Mapping>, bound: int)
  {
    forall k :: 0 <= k < |m| ==> m[k].max <= bound
  }

  /** One iteration keeps the boundaries among dataset[1 .. i]; on a sorted dataset it keeps
      them in order and at most dataset[i]. */
  lemma StoreKeepsBoundaries(dataset: seq<int>, maxErr: int, i: int, st: Fit)
    requires 2 <= i < |dataset|
    requires BoundariesFrom(dataset, st.mappings, i)
    ensures BoundariesFrom(dataset, Store(dataset, maxErr, i, st), i + 1)
    ensures var prev, m := st.mappings, Store(dataset, maxErr, i, st);
            Sorted(dataset) && BoundariesSorted(prev, 0, |prev|) && BoundariesAtMost(prev, dataset[i - 1]) ==>
              BoundariesSorted(m, 0, |m|) && BoundariesAtMost(m, dataset[i])
  {
    var prev := st.mappings;
    var m := Store(dataset, maxErr, i, st);
    AppendKeepsBoundaries(dataset, prev, m, i);
    if Sorted(dataset) && BoundariesSorted(prev, 0, |prev|) && BoundariesAtMost(prev, dataset[i - 1]) {
      assert dataset[i - 1] <= dataset[i];
      AppendKeepsOrder(prev, m, dataset[i - 1], dataset[i]);
    }
  }

  /** Appending at most one boundary taken from dataset[i-1] or dataset[i] keeps the
      boundaries among dataset[1 .. i]. */
  lemma AppendKeepsBoundaries(dataset: seq<int>, prev: seq<Mapping>, m: seq<Mapping>, i: int)
    requires 2 <= i < |dataset|
    requires prev <= m && |m| <= |prev| + 1
    requires |m| > |prev| ==> m[|prev|].max == dataset[i - 1] || m[|prev|].max == dataset[i]
    requires BoundariesFrom(dataset, prev, i)
    ensures BoundariesFrom(dataset, m, i + 1)
  {
    var window := dataset[1..i + 1];
    assert dataset[1..i] == window[..i - 1];
    assert window[i - 2] == dataset[i - 1] && window[i - 1] == dataset[i];
    forall k | 0 <= k < |m| ensures m[k].max in window {
      if k < |prev| {
        assert m[k] == prev[k];
        assert prev[k].max in dataset[1..i];
      }
    }
  }

  /** Appending at most one boundary in `[before, after]` to ordered boundaries that are at
      most `before` keeps them ordered and at most `after`. */
  lemma AppendKeepsOrder(prev: seq<Mapping>, m: seq<Mapping>, before: int, after: int)
    requires prev <= m && |m| <= |prev| + 1
    requires |m| > |prev| ==> before <= m[|prev|].max <= after
    requires before <= after
    requires BoundariesSorted(prev, 0, |prev|) && BoundariesAtMost(prev, before)
    ensures BoundariesSorted(m, 0, |m|) && BoundariesAtMost(m, after)
  {
    forall k | 0 <= k < |m| ensures m[k].max <= after {
      if k < |prev| {
        assert m[k] == prev[k];
      }
    }
    forall k1, k2 | 0 <= k1 < k2 < |m| ensures m[k1].max <= m[k2].max {
      assert m[k1] == prev[k1];
      if k2 < |prev| {
        assert m[k2] == prev[k2];
      }
    }
  }

  /** Every stored boundary is a dataset value from position 1 to i-1; on a sorted dataset the
      boundaries are in non-decreasing order and none exceeds dataset[i-1]. */
  lemma {:induction false} SegmentBoundaries(dataset: seq<int>, maxErr: int, i: int)
    requires 2 <= i <= |dataset|
    ensures BoundariesFrom(dataset, FitAfter(dataset, maxErr, i).mappings, i)
    ensures var m := FitAfter(dataset, maxErr, i).mappings;
            Sorted(dataset) ==> BoundariesSorted(m, 0, |m|) && BoundariesAtMost(m, dataset[i - 1])
  {
    if i > 2 {
      SegmentBoundaries(dataset, maxErr, i - 1);
      StoreKeepsBoundaries(dataset, maxErr, i - 1, FitAfter(dataset, maxErr, i - 1));
    }
  }

  // ---------------------------------------------------------------- stage_three as written

  /** Iteration `i` of stage_three as the source writes it. After the last position (i == N-1)
      a refit calls compute_ab on positions N-1 and N, reading the cell past the dataset;
      `beyond` is whatever that cell holds. */
  function AsWrittenStep(dataset: seq<int>, maxErr: int, i: int, st: Fit, beyond: int): (r: Fit)
    requires 2 <= i < |dataset|
    ensures r.mappings == Store(dataset, maxErr, i, st)
    ensures (r.a != st.a || r.b != st.b) ==> ComputeErr(dataset, i, st.a, st.b) > maxErr
  {
    var n := |dataset|;
    var stored := Store(dataset, maxErr, i, st);
    if ComputeErr(dataset, i, st.a, st.b) > maxErr then
      if i == n - 2 then Fit(n - 1, 0, stored)
      else var l := ComputeAb(dataset + [beyond], i, i + 1); Fit(l.a, l.b, stored)
    else Fit(st.a, st.b, stored)
  }

  /** The state of the as-written stage_three before iteration `i`. */
  function AsWrittenFitAfter(dataset: seq<int>, maxErr: int, beyond: int, i: int): (r: Fit)
    requires 2 <= i <= |dataset|
    ensures |r.mappings| <= i - 2
    decreases i
  {
    if i == 2 then
      var l := FirstLine(dataset);
      Fit(l.a, l.b, [])
    else
      AsWrittenStep(dataset, maxErr, i - 1, AsWrittenFitAfter(dataset, maxErr, beyond, i - 1), beyond)
  }

  /** The as-written stage_three reads past the dataset exactly when the last position breaks
      the error bound of the line in force. */
  predicate RefitsPastEnd(dataset: seq<int>, maxErr: int, beyond: int)
    requires |dataset| >= 3
  {
    var n := |dataset|;
    var st := AsWrittenFitAfter(dataset, maxErr, beyond, n - 1);
    ComputeErr(dataset, n - 1, st.a, st.b) > maxErr
  }

  /** Guarding the refit changes nothing observable: up to the last iteration the two versions
      are in the same state, and after it they have stored the same mappings, whatever lies
      past the dataset. */
  lemma {:induction false} AsWrittenAgrees(dataset: seq<int>, maxErr: int, beyond: int, i: int)
    requires 2 <= i <= |dataset|
    ensures i < |dataset| ==> AsWrittenFitAfter(dataset, maxErr, beyond, i) == FitAfter(dataset, maxErr, i)
    ensures AsWrittenFitAfter(dataset, maxErr, beyond, i).mappings == FitAfter(dataset, maxErr, i).mappings
  {
    if i > 2 {
      AsWrittenAgrees(dataset, maxErr, beyond, i - 1);
      var st := FitAfter(dataset, maxErr, i - 1);
      if i < |dataset| {
        assert (dataset + [beyond])[i - 1] == dataset[i - 1] && (dataset + [beyond])[i] == dataset[i];
      }
    }
  }

  /** On a dataset whose first i values are their own positions 0, 1, ..., i-1 the first line
      is exact on them, so nothing is stored and no refit happens before iteration i (for any
      i up to N-1). */
  lemma {:induction false} StraightPrefixState(dataset: seq<int>, maxErr: int, i: int)
    requires 2 <= i <= |dataset| - 1 && maxErr >= 0
    requires forall k :: 0 <= k < i ==> dataset[k] == k
    ensures FitAfter(dataset, maxErr, i) == Fit(0, 1, [])
  {
    if i > 2 {
      StraightPrefixState(dataset, maxErr, i - 1);
      PredictUnitSlope(dataset[i - 1], 0);
    } else {
      assert dataset[0] == 0 && dataset[1] == 1;
    }
  }

  /** When the last value jumps away from a straight prefix, the as-written stage_three
      reads past the dataset, the only mapping it stores ends at dataset[N-2] (so the last
      value is covered by no stored mapping, whatever the comment at the last-element branch
      says), and a query for the last value makes search_mappings stop at the unwritten slot
      `mappings[mps_len]`. */
  lemma LastValueUncovered(dataset: seq<int>, maxErr: int, beyond: int, buffer: seq<Mapping>)
    requires |dataset| >= 3 && maxErr >= 0
    requires forall k :: 0 <= k < |dataset| - 1 ==> dataset[k] == k
    requires dataset[|dataset| - 1] > |dataset| - 1 + maxErr
    requires |buffer| >= 1 && buffer[0] == Mapping(0, 1, |dataset| - 2)
    ensures RefitsPastEnd(dataset, maxErr, beyond)
    ensures Segments(dataset, maxErr) == [Mapping(0, 1, |dataset| - 2)]
    ensures Segments(dataset, maxErr)[0].max < dataset[|dataset| - 1]
    ensures SearchMappings(buffer, 0, 1, dataset[|dataset| - 1]).locn == 1
  {
    var n := |dataset|;
    StraightPrefixState(dataset, maxErr, n - 1);
    AsWrittenAgrees(dataset, maxErr, beyond, n - 1);
    LastStepBreaks(dataset, maxErr);
    assert FitAfter(dataset, maxErr, n) == Step(dataset, maxErr, n - 1, Fit(0, 1, []));
    assert SearchMappings(buffer, 1, 1, dataset[n - 1]) == Found(1);
  }

  /** The last iteration under the identity line when the last value lies above its
      position by more than `maxErr`: the line is stored up to dataset[N-2], and the bound is
      broken, so the as-written pass refits there. */
  lemma LastStepBreaks(dataset: seq<int>, maxErr: int)
    requires |dataset| >= 3 && maxErr >= 0
    requires dataset[|dataset| - 2] == |dataset| - 2
    requires dataset[|dataset| - 1] > |dataset| - 1 + maxErr
    ensures ComputeErr(dataset, |dataset| - 1, 0, 1) > maxErr
    ensures Step(dataset, maxErr, |dataset| - 1, Fit(0, 1, [])) == Fit(0, 1, [Mapping(0, 1, |dataset| - 2)])
  {
    PredictUnitSlope(dataset[|dataset| - 1], 0);
  }

  /** The same at the source's own size: 0, 1, ..., 98 followed by 1000, with max_err = 0. */
  lemma LastValueUncoveredAtDatasetSize(beyond: int)
    ensures var d := seq(DATASET_SIZE, k => if k < DATASET_SIZE - 1 then k else 1000);
            RefitsPastEnd(d, 0, beyond) && Segments(d, 0) == [Mapping(0, 1, 98)]
  {
    var d := seq(DATASET_SIZE, k => if k < DATASET_SIZE - 1 then k else 1000);
    LastValueUncovered(d, 0, beyond, [Mapping(0, 1, 98)]);
  }

  // ---------------------------------------------------------------- stage_four

  /** The outcome of one query: "not found" at step 1 (outside the dataset's range), "not
      found" at step 3 (not in the searched window), or found at a position. */
  datatype Outcome = OutOfRange | NotInWindow | FoundAt(index: int)

  /** A half-open range of positions `[lo, hi)`. */
  datatype Window = Window(lo: int, hi: int)

  /** The positions stage_four searches around the prediction `fKey`: the positions within
      `maxErr` of it, clamped to the dataset. */
  function SearchWindow(n: int, fKey: int, maxErr: int): (w: Window)
    requires n >= 1
    ensures 0 <= w.lo && w.hi <= n
  {
    Window(Max(0, fKey - maxErr), Min(n - 1, fKey + maxErr) + 1)
  }

  /** A position is in the window exactly when it is a position of the dataset within
      `maxErr` of the prediction. */
  lemma WindowMembers(n: int, fKey: int, maxErr: int, j: int)
    requires n >= 1
    ensures var w := SearchWindow(n, fKey, maxErr);
            (w.lo <= j < w.hi) <==> (0 <= j < n && fKey - maxErr <= j <= fKey + maxErr)
  {
  }

  /** The mapping stage_four picks for `key`: the one at the location search_mappings reports
      over the `mpsLen` stored mappings (which may be the slot just past them). */
  function Located(mappings: seq<Mapping>, mpsLen: int, key: int): (m: Mapping)
    requires 0 <= mpsLen < |mappings|
    ensures m in mappings[..mpsLen + 1]
  {
    mappings[SearchMappings(mappings, 0, mpsLen, key).locn]
  }

  /** stage_four for one key: the range check, the choice of a mapping, and the search of the
      window around its prediction. `mappings` is the whole buffer, of which the first
      `mpsLen` entries were written by stage_three. */
  function QueryKey(dataset: seq<int>, mappings: seq<Mapping>, mpsLen: int, maxErr: int, key: int): (r: Outcome)
    requires 1 <= |dataset| && 0 <= mpsLen < |mappings|
    ensures r == OutOfRange <==> key < dataset[0] || key > dataset[|dataset| - 1]
    ensures r.FoundAt? ==> 0 <= r.index < |dataset| && dataset[r.index] == key
  {
    var n := |dataset|;
    if key < dataset[0] || key > dataset[n - 1] then OutOfRange
    else
      var m := Located(mappings, mpsLen, key);
      var fKey := Predict(key, m.a, m.b);
      var w := SearchWindow(n, fKey, maxErr);
      match SearchKey(dataset, w.lo, w.hi, key)
      case Found(k) => FoundAt(k)
      case NotFound => NotInWindow
  }

  /** On a sorted dataset a key held at a position whose error under the picked mapping is
      within `maxErr` is always found. */
  lemma QueryFindsKeyWithinError(dataset: seq<int>, mappings: seq<Mapping>, mpsLen: int, maxErr: int, j: int)
    requires 1 <= |dataset| && 0 <= mpsLen < |mappings|
    requires Sorted(dataset) && 0 <= j < |dataset|
    requires var m := Located(mappings, mpsLen, dataset[j]);
             ComputeErr(dataset, j, m.a, m.b) <= maxErr
    ensures QueryKey(dataset, mappings, mpsLen, maxErr, dataset[j]).FoundAt?
  {
    var key := dataset[j];
    assert dataset[0] <= key <= dataset[|dataset| - 1];
    var m := Located(mappings, mpsLen, key);
    var fKey := Predict(key, m.a, m.b);
    ErrWithinWindow(dataset, j, m.a, m.b, maxErr);
    WindowMembers(|dataset|, fKey, maxErr, j);
  }

  /** Iteration N-2 of stage_three under the identity line `a = 0, b = 1` when dataset[N-2]
      lies above its position: the line is stored up to dataset[N-3] and the single-point rule
      sets `a = N-1, b = 0`. */
  lemma SinglePointStep(dataset: seq<int>, maxErr: int)
    requires |dataset| >= 4 && 0 <= maxErr
    requires dataset[|dataset| - 3] == |dataset| - 3
    requires dataset[|dataset| - 2] > |dataset| - 2 + maxErr
    ensures Step(dataset, maxErr, |dataset| - 2, Fit(0, 1, [])) == Fit(|dataset| - 1, 0, [Mapping(0, 1, |dataset| - 3)])
  {
    PredictUnitSlope(dataset[|dataset| - 2], 0);
  }

  /** The last iteration under a constant line that predicts N-1: the error is 0, so the line
      is stored up to dataset[N-1]. */
  lemma LastStepConstant(dataset: seq<int>, maxErr: int, ms: seq<Mapping>)
    requires |dataset| >= 3 && 0 <= maxErr && dataset[|dataset| - 1] >= 0
    ensures var n := |dataset|;
            Step(dataset, maxErr, n - 1, Fit(n - 1, 0, ms)) == Fit(n - 1, 0, ms + [Mapping(n - 1, 0, dataset[n - 1])])
  {
  }

  /** When the values up to position N-3 are their own positions and dataset[N-2] jumps away,
      stage_three with max_err = 0 stores the first line up to dataset[N-3] and then, by the
      single-point rule at position N-2, the line `a = N-1, b = 0` up to dataset[N-1]. */
  lemma SinglePointSegments(dataset: seq<int>)
    requires |dataset| >= 4
    requires forall k :: 0 <= k < |dataset| - 2 ==> dataset[k] == k
    requires |dataset| - 2 < dataset[|dataset| - 2] < dataset[|dataset| - 1]
    ensures Segments(dataset, 0) == [Mapping(0, 1, |dataset| - 3), Mapping(|dataset| - 1, 0, dataset[|dataset| - 1])]
  {
    var n := |dataset|;
    StraightPrefixState(dataset, 0, n - 2);
    SinglePointStep(dataset, 0);
    LastStepConstant(dataset, 0, [Mapping(0, 1, n - 3)]);
    assert FitAfter(dataset, 0, n - 1) == Fit(n - 1, 0, [Mapping(0, 1, n - 3)]);
  }

  /** The single-point rule at position N-2 can lose a key: with the segments above, the line
      `a = N-1, b = 0` predicts N-1 for dataset[N-2] too, the window for max_err = 0 holds only
      position N-1, and the query for a value that is in the dataset reports "not found". */
  lemma SinglePointRuleCanMissKey(dataset: seq<int>, buffer: seq<Mapping>)
    requires |dataset| >= 4
    requires forall k :: 0 <= k < |dataset| - 2 ==> dataset[k] == k
    requires |dataset| - 2 < dataset[|dataset| - 2] < dataset[|dataset| - 1]
    requires |buffer| >= 3
    requires buffer[0] == Mapping(0, 1, |dataset| - 3)
    requires buffer[1] == Mapping(|dataset| - 1, 0, dataset[|dataset| - 1])
    ensures Segments(dataset, 0) == buffer[..2]
    ensures QueryKey(dataset, buffer, 2, 0, dataset[|dataset| - 2]) == NotInWindow
  {
    var n := |dataset|;
    var key := dataset[n - 2];
    SinglePointSegments(dataset);
    assert SearchMappings(buffer, 1, 1, key) == Found(1);
    assert SearchMappings(buffer, 0, 1, key) == Found(1);
    assert SearchMappings(buffer, 0, 2, key) == Found(1);
    assert Located(buffer, 2, key) == Mapping(n - 1, 0, dataset[n - 1]);
    assert SearchWindow(n, n - 1, 0) == Window(n - 1, n);
  }

  /** The same at the source's own size: 0, 1, ..., 97, then 500 and 1000, with max_err = 0;
      the query for 500, held at position 98, reports "not found" whatever the unwritten slot
      after the two stored mappings holds. */
  lemma SinglePointRuleCanMissKeyAtDatasetSize(pad: Mapping)
    ensures var d := seq(DATASET_SIZE, k => if k < DATASET_SIZE - 2 then k else if k == DATASET_SIZE - 2 then 500 else 1000);
            && d[98] == 500
            && Segments(d, 0) == [Mapping(0, 1, 97), Mapping(99, 0, 1000)]
            && QueryKey(d, [Mapping(0, 1, 97), Mapping(99, 0, 1000), pad], 2, 0, 500) == NotInWindow
  {
    var d := seq(DATASET_SIZE, k => if k < DATASET_SIZE - 2 then k else if k == DATASET_SIZE - 2 then 500 else 1000);
    SinglePointRuleCanMissKey(d, [Mapping(0, 1, 97), Mapping(99, 0, 1000), pad]);
  }

  /** stage_four's query loop over the keys that follow the input, one outcome per key. */
  method StageFour(dataset: seq<int>, mappings: array<Mapping>, mpsLen: int, maxErr: int, keys: seq<int>)
    returns (outcomes: seq<Outcome>)
    requires 1 <= |dataset| && 0 <= mpsLen < mappings.Length
    ensures |outcomes| == |keys|
    ensures forall q :: 0 <= q < |keys| ==>
              outcomes[q] == QueryKey(dataset, mappings[..], mpsLen, maxErr, keys[q])
  {
    outcomes := [];
    for q := 0 to |keys|
      invariant |outcomes| == q
      invariant forall p :: 0 <= p < q ==>
                  outcomes[p] == QueryKey(dataset, mappings[..], mpsLen, maxErr, keys[p])
    {
      outcomes := outcomes + [QueryKey(dataset, mappings[..], mpsLen, maxErr, keys[q])];
    }
  }
}
