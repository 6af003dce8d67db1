/**
 * Averaging of a finely sampled model spectrum onto a coarser data
 * wavelength grid (`bin_to_data` in utils.py).
 *
 * For every data point i a half-width is chosen: the gap to the next data
 * point when i is the first one, the gap to the previous data point
 * otherwise.  Every model sample whose wavelength lies within that
 * half-width of the data wavelength, both ends included, belongs to the bin
 * of i, and the output value of i is the mean of the model spectrum over
 * the bin.  Wavelengths and spectra are modelled as exact reals.
 */
module Binning {

  function Abs(x: real): (r: real)
    ensures r >= 0.0 && (r == x || r == -x)
  {
    if x < 0.0 then -x else x
  }

  /** Half-width of the bin around data point i. */
  function HalfWidth(wData: seq<real>, i: nat): (delta: real)
    requires 2 <= |wData| && i < |wData|
  {
    if i == 0 then wData[1] - wData[0] else wData[i] - wData[i - 1]
  }

  /** Model sample j falls in the bin of data point i (both ends included). */
  predicate InBin(wData: seq<real>, wModel: seq<real>, i: nat, j: nat)
    requires 2 <= |wData| && i < |wData| && j < |wModel|
  {
    Abs(wData[i] - wModel[j]) <= HalfWidth(wData, i)
  }

  /**
   * The indices j in [lo, |wModel|) with |centre - wModel[j]| <= deltaW, in
   * ascending order: the index array that `np.where` returns.
   */
  function Within(centre: real, deltaW: real, wModel: seq<real>, lo: nat): (idx: seq<nat>)
    requires lo <= |wModel|
    decreases |wModel| - lo
  {
    if lo == |wModel| then []
    else if Abs(centre - wModel[lo]) <= deltaW then [lo] + Within(centre, deltaW, wModel, lo + 1)
    else Within(centre, deltaW, wModel, lo + 1)
  }

  /** Within selects exactly the qualifying indices, each once, in ascending order. */
  lemma {:induction false} WithinExactly(centre: real, deltaW: real, wModel: seq<real>, lo: nat)
    requires lo <= |wModel|
    ensures forall j :: j in Within(centre, deltaW, wModel, lo) <==>
                        lo <= j < |wModel| && Abs(centre - wModel[j]) <= deltaW
    ensures Ascending(Within(centre, deltaW, wModel, lo))
    decreases |wModel| - lo
  {
    if lo < |wModel| {
      WithinExactly(centre, deltaW, wModel, lo + 1);
      var rest := Within(centre, deltaW, wModel, lo + 1);
      assert forall k :: 0 <= k < |rest| ==> rest[k] in rest;
    }
  }

  predicate Ascending(idx: seq<nat>)
  {
    forall a, b :: 0 <= a < b < |idx| ==> idx[a] < idx[b]
  }

  /** Every index in idx may be used to index d. */
  predicate InRange(d: seq<real>, idx: seq<nat>)
  {
    forall k :: 0 <= k < |idx| ==> idx[k] < |d|
  }

  /** Sum of d over the indices idx. */
  function Sum(d: seq<real>, idx: seq<nat>): (total: real)
    requires InRange(d, idx)
  {
    if idx == [] then 0.0 else d[idx[0]] + Sum(d, idx[1..])
  }

  /** Mean of d over a non-empty index array (`np.mean(d_model[idx])`). */
  function Mean(d: seq<real>, idx: seq<nat>): (mean: real)
    requires |idx| > 0 && InRange(d, idx)
  {
    Sum(d, idx) / (|idx| as real)
  }

  lemma {:induction false} SumConstant(d: seq<real>, idx: seq<nat>, v: real)
    requires InRange(d, idx)
    requires forall k :: 0 <= k < |idx| ==> d[idx[k]] == v
    ensures Sum(d, idx) == (|idx| as real) * v
  {
    if idx != [] {
      SumConstant(d, idx[1..], v);
    }
  }

  /** The mean of equal values is that value. */
  lemma MeanConstant(d: seq<real>, idx: seq<nat>, v: real)
    requires |idx| > 0 && InRange(d, idx)
    requires forall k :: 0 <= k < |idx| ==> d[idx[k]] == v
    ensures Mean(d, idx) == v
  {
    SumConstant(d, idx, v);
  }

  lemma {:induction false} SumBounds(d: seq<real>, idx: seq<nat>, lo: real, hi: real)
    requires InRange(d, idx)
    requires forall k :: 0 <= k < |idx| ==> lo <= d[idx[k]] <= hi
    ensures (|idx| as real) * lo <= Sum(d, idx) <= (|idx| as real) * hi
  {
    if idx != [] {
      SumBounds(d, idx[1..], lo, hi);
    }
  }

  /** Bounds on the averaged values bound their mean. */
  lemma MeanBounds(d: seq<real>, idx: seq<nat>, lo: real, hi: real)
    requires |idx| > 0 && InRange(d, idx)
    requires forall k :: 0 <= k < |idx| ==> lo <= d[idx[k]] <= hi
    ensures lo <= Mean(d, idx) <= hi
  {
    SumBounds(d, idx, lo, hi);
    var n := |idx| as real;
    assert Sum(d, idx) / n >= (n * lo) / n;
    assert Sum(d, idx) / n <= (n * hi) / n;
  }

  /** Smallest of the values of d at the indices idx. */
  function MinValue(d: seq<real>, idx: seq<nat>): (r: real)
    requires |idx| > 0 && InRange(d, idx)
    ensures forall k :: 0 <= k < |idx| ==> r <= d[idx[k]]
    ensures exists k :: 0 <= k < |idx| && r == d[idx[k]]
  {
    if |idx| == 1 then d[idx[0]]
    else
      var m := MinValue(d, idx[1..]);
      assert forall k :: 1 <= k < |idx| ==> idx[k] == idx[1..][k - 1];
      if d[idx[0]] <= m then d[idx[0]] else m
  }

  /** Largest of the values of d at the indices idx. */
  function MaxValue(d: seq<real>, idx: seq<nat>): (r: real)
    requires |idx| > 0 && InRange(d, idx)
    ensures forall k :: 0 <= k < |idx| ==> d[idx[k]] <= r
    ensures exists k :: 0 <= k < |idx| && r == d[idx[k]]
  {
    if |idx| == 1 then d[idx[0]]
    else
      var m := MaxValue(d, idx[1..]);
      assert forall k :: 1 <= k < |idx| ==> idx[k] == idx[1..][k - 1];
      if m <= d[idx[0]] then d[idx[0]] else m
  }

  /** The mean lies between the smallest and the largest averaged value. */
  lemma MeanBetweenExtremes(d: seq<real>, idx: seq<nat>)
    requires |idx| > 0 && InRange(d, idx)
    ensures MinValue(d, idx) <= Mean(d, idx) <= MaxValue(d, idx)
  {
    MeanBounds(d, idx, MinValue(d, idx), MaxValue(d, idx));
  }

  /** The ascending indices of the model samples in the bin of data point i. */
  function BinIndices(wData: seq<real>, wModel: seq<real>, i: nat): (idx: seq<nat>)
    requires 2 <= |wData| && i < |wData|
  {
    Within(wData[i], HalfWidth(wData, i), wModel, 0)
  }

  /** The bin of data point i holds at least one model sample. */
  predicate BinNonEmpty(wData: seq<real>, wModel: seq<real>, i: nat)
    requires 2 <= |wData| && i < |wData|
  {
    exists j :: 0 <= j < |wModel| && InBin(wData, wModel, i, j)
  }

  /** Every bin holds at least one model sample (otherwise the mean is NaN). */
  predicate BinsNonEmpty(wData: seq<real>, wModel: seq<real>)
  {
    |wData| != 1 &&
    forall i :: 0 <= i < |wData| ==> BinNonEmpty(wData, wModel, i)
  }

  /** Every selected model index is also an index of the model spectrum. */
  predicate Indexable(wData: seq<real>, wModel: seq<real>, dModel: seq<real>)
  {
    |wData| != 1 &&
    forall i, j :: 0 <= i < |wData| && 0 <= j < |wModel| && InBin(wData, wModel, i, j) ==> j < |dModel|
  }

  /**
   * What the source needs of its inputs: not exactly one data point (the
   * first half-width reads the second point), no empty bin, and every
   * selected index valid in the model spectrum.
   */
  predicate WellFormed(wData: seq<real>, wModel: seq<real>, dModel: seq<real>)
  {
    BinsNonEmpty(wData, wModel) && Indexable(wData, wModel, dModel)
  }

  /** The bin of i is exactly the set of model samples within the half-width, and is usable for the mean. */
  lemma BinIndicesExactly(wData: seq<real>, wModel: seq<real>, dModel: seq<real>, i: nat)
    requires WellFormed(wData, wModel, dModel) && i < |wData|
    ensures forall j :: j in BinIndices(wData, wModel, i) <==> 0 <= j < |wModel| && InBin(wData, wModel, i, j)
    ensures Ascending(BinIndices(wData, wModel, i))
    ensures |BinIndices(wData, wModel, i)| > 0 && InRange(dModel, BinIndices(wData, wModel, i))
  {
    var idx := BinIndices(wData, wModel, i);
    WithinExactly(wData[i], HalfWidth(wData, i), wModel, 0);
    assert BinNonEmpty(wData, wModel, i);
    var j :| 0 <= j < |wModel| && InBin(wData, wModel, i, j);
    assert j in idx;
    forall k | 0 <= k < |idx| ensures idx[k] < |dModel| {
      assert idx[k] in idx;
      assert InBin(wData, wModel, i, idx[k]);
    }
  }

  /** Output value of data point i: the mean of the model spectrum over its bin. */
  function BinValue(wData: seq<real>, wModel: seq<real>, dModel: seq<real>, i: nat): (v: real)
    requires WellFormed(wData, wModel, dModel) && i < |wData|
  {
    BinIndicesExactly(wData, wModel, dModel, i);
    Mean(dModel, BinIndices(wData, wModel, i))
  }

  /** The binned spectrum: one averaged value per data point. */
  function Binned(wData: seq<real>, wModel: seq<real>, dModel: seq<real>): (r: seq<real>)
    requires WellFormed(wData, wModel, dModel)
    ensures |r| == |wData|
  {
    seq(|wData|, i requires 0 <= i < |wData| => BinValue(wData, wModel, dModel, i))
  }

  /**
   * `bin_to_data`: allocates a zero-filled output buffer and fills it entry
   * by entry.  The inputs are only read.
   */
  method BinToData(wData: array<real>, wModel: array<real>, dModel: array<real>) returns (dData: array<real>)
    requires WellFormed(wData[..], wModel[..], dModel[..])
    ensures fresh(dData)
    ensures dData[..] == Binned(wData[..], wModel[..], dModel[..])
    ensures unchanged(wData) && unchanged(wModel) && unchanged(dModel)
  {
    var ws, ms, ds := wData[..], wModel[..], dModel[..];
    dData := new real[wData.Length](_ => 0.0);
    for i := 0 to wData.Length
      invariant dData[..i] == Binned(ws, ms, ds)[..i]
    {
      var deltaW := if i == 0 then wData[1] - wData[0] else wData[i] - wData[i - 1];
      assert deltaW == HalfWidth(ws, i);
      var idx := Within(wData[i], deltaW, ms, 0);
      BinIndicesExactly(ws, ms, ds, i);
      dData[i] := Mean(ds, idx);
      assert dData[..i + 1] == dData[..i] + [dData[i]];
    }
    assert dData[..] == dData[..wData.Length];
  }

  // ---------------------------------------------------------------------
  // Properties of the binned spectrum
  // ---------------------------------------------------------------------

  /** A constant model spectrum bins to the same constant at every data point. */
  lemma BinnedConstant(wData: seq<real>, wModel: seq<real>, dModel: seq<real>, v: real)
    requires WellFormed(wData, wModel, dModel)
    requires forall j :: 0 <= j < |dModel| ==> dModel[j] == v
    ensures forall i :: 0 <= i < |wData| ==> Binned(wData, wModel, dModel)[i] == v
  {
    forall i | 0 <= i < |wData| ensures Binned(wData, wModel, dModel)[i] == v {
      BinIndicesExactly(wData, wModel, dModel, i);
      MeanConstant(dModel, BinIndices(wData, wModel, i), v);
    }
  }

  /**
   * Every output value lies between the smallest and the largest model
   * value of its bin, and both of those are attained by samples of the bin.
   */
  lemma BinnedWithinBin(wData: seq<real>, wModel: seq<real>, dModel: seq<real>, i: nat)
    requires WellFormed(wData, wModel, dModel) && i < |wData|
    ensures exists j :: 0 <= j < |wModel| && InBin(wData, wModel, i, j) && j < |dModel| &&
                        dModel[j] <= Binned(wData, wModel, dModel)[i]
    ensures exists j :: 0 <= j < |wModel| && InBin(wData, wModel, i, j) && j < |dModel| &&
                        Binned(wData, wModel, dModel)[i] <= dModel[j]
  {
    BinIndicesExactly(wData, wModel, dModel, i);
    var idx := BinIndices(wData, wModel, i);
    MeanBetweenExtremes(dModel, idx);
    var a :| 0 <= a < |idx| && MinValue(dModel, idx) == dModel[idx[a]];
    var b :| 0 <= b < |idx| && MaxValue(dModel, idx) == dModel[idx[b]];
    assert idx[a] in idx && idx[b] in idx;
  }

  /** Any bounds on the model values of a bin bound the output value of that bin. */
  lemma BinnedBounded(wData: seq<real>, wModel: seq<real>, dModel: seq<real>, i: nat, lo: real, hi: real)
    requires WellFormed(wData, wModel, dModel) && i < |wData|
    requires forall j :: 0 <= j < |wModel| && InBin(wData, wModel, i, j) && j < |dModel| ==> lo <= dModel[j] <= hi
    ensures lo <= Binned(wData, wModel, dModel)[i] <= hi
  {
    BinIndicesExactly(wData, wModel, dModel, i);
    var idx := BinIndices(wData, wModel, i);
    forall k | 0 <= k < |idx| ensures lo <= dModel[idx[k]] <= hi {
      assert idx[k] in idx;
    }
    MeanBounds(dModel, idx, lo, hi);
  }

  /** Data wavelengths in non-decreasing order (`Assume data is argsorted`). */
  predicate Sorted(w: seq<real>)
  {
    forall k :: 0 < k < |w| ==> w[k - 1] <= w[k]
  }

  /** A negative half-width (data out of order) gives an empty bin, the NaN case. */
  lemma OutOfOrderEmptiesBin(wData: seq<real>, wModel: seq<real>, i: nat)
    requires 2 <= |wData| && i < |wData|
    requires HalfWidth(wData, i) < 0.0
    ensures BinIndices(wData, wModel, i) == []
  {
    WithinNegative(wData[i], HalfWidth(wData, i), wModel, 0);
  }

  lemma {:induction false} WithinNegative(centre: real, deltaW: real, wModel: seq<real>, lo: nat)
    requires lo <= |wModel| && deltaW < 0.0
    ensures Within(centre, deltaW, wModel, lo) == []
    decreases |wModel| - lo
  {
    if lo < |wModel| {
      WithinNegative(centre, deltaW, wModel, lo + 1);
    }
  }

  /**
   * Half-widths reach back to the previous data point, so for sorted data
   * every model sample between the first and the last data wavelength falls
   * in at least one bin.
   */
  lemma SortedCoverage(wData: seq<real>, wModel: seq<real>, j: nat)
    requires 2 <= |wData| && Sorted(wData) && j < |wModel|
    requires wData[0] <= wModel[j] <= wData[|wData| - 1]
    ensures exists i :: 0 <= i < |wData| && InBin(wData, wModel, i, j)
  {
    CoveredUpTo(wData, wModel, j, |wData| - 1);
  }

  lemma {:induction false} CoveredUpTo(wData: seq<real>, wModel: seq<real>, j: nat, k: nat)
    requires 2 <= |wData| && Sorted(wData) && j < |wModel| && k < |wData|
    requires wData[0] <= wModel[j] <= wData[k]
    ensures exists i :: 0 <= i <= k && InBin(wData, wModel, i, j)
  {
    if k == 0 {
      assert InBin(wData, wModel, 0, j);
    } else if wModel[j] <= wData[k - 1] {
      CoveredUpTo(wData, wModel, j, k - 1);
    } else {
      assert InBin(wData, wModel, k, j);
    }
  }

  /** Bins overlap: a model sample on data point i - 1 belongs to the bins of i - 1 and of i. */
  lemma NeighbouringBinsShareEdge(wData: seq<real>, wModel: seq<real>, i: nat, j: nat)
    requires 2 <= |wData| && Sorted(wData) && 1 <= i < |wData| && j < |wModel|
    requires wModel[j] == wData[i - 1]
    ensures InBin(wData, wModel, i - 1, j) && InBin(wData, wModel, i, j)
  {
  }

  /**
   * Data grid [1, 2, 3] against a model grid sampled every 0.5 from 0.5 to
   * 3.5 with a constant spectrum v: every output value is v.
   */
  lemma ConstantExample(v: real)
    ensures var wData, wModel := [1.0, 2.0, 3.0], [0.5, 1.0, 1.5, 2.0, 2.5, 3.0, 3.5];
            WellFormed(wData, wModel, seq(7, _ => v)) &&
            Binned(wData, wModel, seq(7, _ => v)) == [v, v, v]
  {
    var wData, wModel, dModel := [1.0, 2.0, 3.0], [0.5, 1.0, 1.5, 2.0, 2.5, 3.0, 3.5], seq(7, _ => v);
    assert InBin(wData, wModel, 0, 1) && InBin(wData, wModel, 1, 3) && InBin(wData, wModel, 2, 5);
    assert BinNonEmpty(wData, wModel, 0) && BinNonEmpty(wData, wModel, 1) && BinNonEmpty(wData, wModel, 2);
    assert WellFormed(wData, wModel, dModel);
    BinnedConstant(wData, wModel, dModel, v);
  }
}
