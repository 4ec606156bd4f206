/** One-dimensional regression by neighbour averaging: `nearestX`
    (kNearest.py:83-99), `predictY` (kNearest.py:107-123), `predictSet`
    (kNearest.py:126-139) and the error measure `MSE` (kNearest.py:102-104).

    `nearestX` works on a fixed buffer of 100 rows `(x, y, distance)` that
    starts out as zeros. Rows the data does not fill stay `(0, 0, 0)`, at
    distance 0, so they take part in the sort and in the average like any
    data row. */
module Regression {
  import opened Sorting
  import opened Neighbours
  import opened Mapping

  /** A training point `(x, y)`. */
  datatype Sample = Sample(x: real, y: real)

  /** A row of the buffer: the two coordinates and the distance in x. */
  datatype Row = Row(x: real, y: real, dist: real)

  /** The number of rows of the buffer (kNearest.py:88). */
  const BufferRows: nat := 100

  /** A buffer row the data has not written. */
  const Padding: Row := Row(0.0, 0.0, 0.0)

  function Abs(r: real): real {
    if r < 0.0 then -r else r
  }

  function RowDist(row: Row): real {
    row.dist
  }

  /** The row written for sample `c` (kNearest.py:90-94). */
  function DataRow(xValue: real, c: Sample): Row {
    Row(c.x, c.y, Abs(xValue - c.x))
  }

  function DataRows(xValue: real, chips: seq<Sample>): seq<Row> {
    seq(|chips|, i requires 0 <= i < |chips| => DataRow(xValue, chips[i]))
  }

  function PaddingRows(n: nat): seq<Row> {
    seq(n, _ => Padding)
  }

  /** The buffer after the loop of kNearest.py:89-95: one row per sample in
      order, then padding up to 100 rows. */
  function Buffer(xValue: real, chips: seq<Sample>): seq<Row>
    requires |chips| <= BufferRows
  {
    DataRows(xValue, chips) + PaddingRows(BufferRows - |chips|)
  }

  /** What `nearestX(xValue, k, chips)` returns. The order the model gives
      to rows at equal distance is that of the stable sort. */
  function NearestRows(xValue: real, k: int, chips: seq<Sample>): seq<Row>
    requires k >= 1
    requires |chips| <= BufferRows
  {
    Take(SortBy(Buffer(xValue, chips), RowDist), k)
  }

  /** `nearestX`: fills the zeroed 100 x 3 buffer row by row, sorts the rows
      by the distance column and keeps the first `k`. */
  method NearestX(xValue: real, k: int, chips: seq<Sample>) returns (nearest: seq<Row>)
    requires k >= 1
    requires |chips| <= BufferRows
    ensures nearest == NearestRows(xValue, k, chips)
  {
    var buffer := new real[BufferRows, 3]((_, _) => 0.0);
    for idx := 0 to |chips|
      invariant forall i :: 0 <= i < idx ==>
                  buffer[i, 0] == chips[i].x && buffer[i, 1] == chips[i].y &&
                  buffer[i, 2] == Abs(xValue - chips[i].x)
      invariant forall i, c :: idx <= i < BufferRows && 0 <= c < 3 ==> buffer[i, c] == 0.0
    {
      buffer[idx, 0] := chips[idx].x;
      buffer[idx, 1] := chips[idx].y;
      buffer[idx, 2] := Abs(xValue - chips[idx].x);
    }
    var rows := seq(BufferRows, i requires 0 <= i < BufferRows reads buffer =>
                      Row(buffer[i, 0], buffer[i, 1], buffer[i, 2]));
    assert rows == Buffer(xValue, chips) by {
      var b := Buffer(xValue, chips);
      forall i | 0 <= i < BufferRows ensures rows[i] == b[i] {
        if i < |chips| {
          assert b[i] == DataRow(xValue, chips[i]);
        } else {
          assert b[i] == PaddingRows(BufferRows - |chips|)[i - |chips|];
        }
      }
    }
    var sorted := SortBy(rows, RowDist);
    nearest := Take(sorted, k);
  }

  /** `nearestX` returns `min(k, 100)` rows, sorted by distance, a
      sub-multiset of the buffer (a prefix of a permutation of its rows),
      each either a sample's row or a padding row. */
  lemma NearestRowsSpec(xValue: real, k: int, chips: seq<Sample>)
    requires k >= 1
    requires |chips| <= BufferRows
    ensures |NearestRows(xValue, k, chips)| == if k < BufferRows then k else BufferRows
    ensures SortedBy(NearestRows(xValue, k, chips), RowDist)
    ensures multiset(NearestRows(xValue, k, chips)) <= multiset(Buffer(xValue, chips))
    ensures forall row :: row in NearestRows(xValue, k, chips) ==>
              row == Padding || exists c :: c in chips && row == DataRow(xValue, c)
  {
    var b := Buffer(xValue, chips);
    var r := NearestRows(xValue, k, chips);
    TakeSorted(b, k, RowDist);
    forall row | row in r ensures row == Padding || exists c :: c in chips && row == DataRow(xValue, c) {
      assert row in multiset(r);
      assert row in multiset(b);
      var i :| 0 <= i < |b| && b[i] == row;
      if i < |chips| {
        assert row == DataRow(xValue, chips[i]);
      } else {
        assert row == PaddingRows(BufferRows - |chips|)[i - |chips|];
      }
    }
  }

  /** A buffer row left out of `nearestX` is at least as far as every row
      kept. */
  lemma NearestRowsLeftOut(xValue: real, k: int, chips: seq<Sample>, e: Row)
    requires k >= 1
    requires |chips| <= BufferRows
    requires e in multiset(Buffer(xValue, chips)) - multiset(NearestRows(xValue, k, chips))
    ensures forall row :: row in NearestRows(xValue, k, chips) ==> row.dist <= e.dist
  {
    TakeLeftOut(Buffer(xValue, chips), k, RowDist, e);
  }

  /** No buffer row has a negative distance. */
  lemma BufferDistancesNonNegative(xValue: real, chips: seq<Sample>)
    requires |chips| <= BufferRows
    ensures forall i :: 0 <= i < |Buffer(xValue, chips)| ==> 0.0 <= RowDist(Buffer(xValue, chips)[i])
  {
    var b := Buffer(xValue, chips);
    forall i | 0 <= i < |b| ensures 0.0 <= RowDist(b[i]) {
      if i >= |chips| {
        assert b[i] == PaddingRows(BufferRows - |chips|)[i - |chips|];
      }
    }
  }

  /** The rows of the buffer at distance 0: those of samples at `xValue`,
      then all the padding rows. */
  lemma BufferZeroRows(xValue: real, chips: seq<Sample>)
    requires |chips| <= BufferRows
    ensures WithKey(Buffer(xValue, chips), RowDist, 0.0) ==
              WithKey(DataRows(xValue, chips), RowDist, 0.0) + PaddingRows(BufferRows - |chips|)
  {
    WithKeyAppend(DataRows(xValue, chips), PaddingRows(BufferRows - |chips|), RowDist, 0.0);
    WithKeyAll(PaddingRows(BufferRows - |chips|), RowDist, 0.0);
  }

  /** With fewer than 100 samples the buffer holds at least `100 - n` rows at
      distance 0; when `k` is no more than that, every row `nearestX` keeps
      is at distance 0. */
  lemma SmallSetKeepsDistanceZero(xValue: real, k: int, chips: seq<Sample>)
    requires k >= 1
    requires |chips| + k <= BufferRows
    ensures forall row :: row in NearestRows(xValue, k, chips) ==> row.dist == 0.0
  {
    BufferDistancesNonNegative(xValue, chips);
    BufferZeroRows(xValue, chips);
    TakeLeastKeys(Buffer(xValue, chips), k, RowDist, 0.0);
    var zeros := WithKey(Buffer(xValue, chips), RowDist, 0.0);
    WithKeyMembers(Buffer(xValue, chips), RowDist, 0.0);
    forall row | row in NearestRows(xValue, k, chips) ensures row.dist == 0.0 {
      assert row in zeros[..k];
      assert row in zeros;
    }
  }

  /** With no sample at `xValue`, no data row is at distance 0. */
  lemma NoDataRowAtZero(xValue: real, chips: seq<Sample>)
    requires forall i :: 0 <= i < |chips| ==> chips[i].x != xValue
    ensures WithKey(DataRows(xValue, chips), RowDist, 0.0) == []
  {
    var data := DataRows(xValue, chips);
    forall i | 0 <= i < |data| ensures RowDist(data[i]) != 0.0 {
      assert data[i] == DataRow(xValue, chips[i]);
    }
    WithKeyNone(data, RowDist, 0.0);
  }

  /** The padding at work: with at most `100 - k` samples, none of them at
      `xValue` itself, the `k` rows kept are all padding rows. */
  lemma SmallSetKeepsPadding(xValue: real, k: int, chips: seq<Sample>)
    requires k >= 1
    requires |chips| + k <= BufferRows
    requires forall i :: 0 <= i < |chips| ==> chips[i].x != xValue
    ensures NearestRows(xValue, k, chips) == PaddingRows(k)
  {
    NoDataRowAtZero(xValue, chips);
    BufferDistancesNonNegative(xValue, chips);
    BufferZeroRows(xValue, chips);
    var pad := PaddingRows(BufferRows - |chips|);
    assert WithKey(Buffer(xValue, chips), RowDist, 0.0) == pad by {
      assert [] + pad == pad;
    }
    TakeLeastKeys(Buffer(xValue, chips), k, RowDist, 0.0);
    assert pad[..k] == PaddingRows(k);
  }

  function Sum(ys: seq<real>): real {
    if ys == [] then 0.0 else Sum(ys[..|ys| - 1]) + ys[|ys| - 1]
  }

  /** `np.average`: the arithmetic mean. */
  function Mean(ys: seq<real>): real
    requires |ys| > 0
  {
    Sum(ys) / (|ys| as real)
  }

  /** Column 1 (the y values) of a sequence of rows. */
  function ColumnY(rows: seq<Row>): seq<real> {
    seq(|rows|, i requires 0 <= i < |rows| => rows[i].y)
  }

  /** `predictY`: the mean y value of the rows `nearestX` selects. No sample
      is needed: the padding keeps the selection non-empty. */
  function PredictY(xValue: real, k: int, chips: seq<Sample>): (r: real)
    requires k >= 1
    requires |chips| <= BufferRows
    ensures exists i :: 0 <= i < |NearestRows(xValue, k, chips)| && NearestRows(xValue, k, chips)[i].y <= r
    ensures exists i :: 0 <= i < |NearestRows(xValue, k, chips)| && r <= NearestRows(xValue, k, chips)[i].y
  {
    var ys := ColumnY(NearestRows(xValue, k, chips));
    MeanBounds(ys, MinOf(ys), MaxOf(ys));
    Mean(ys)
  }

  /** The least of a non-empty sequence of values. */
  function MinOf(ys: seq<real>): (m: real)
    requires |ys| > 0
    ensures forall i :: 0 <= i < |ys| ==> m <= ys[i]
    ensures exists i :: 0 <= i < |ys| && ys[i] == m
  {
    if |ys| == 1 then ys[0]
    else
      var n := |ys| - 1;
      var front := MinOf(ys[..n]);
      assert forall i :: 0 <= i < n ==> ys[..n][i] == ys[i];
      if ys[n] < front then ys[n] else front
  }

  /** The greatest of a non-empty sequence of values. */
  function MaxOf(ys: seq<real>): (m: real)
    requires |ys| > 0
    ensures forall i :: 0 <= i < |ys| ==> ys[i] <= m
    ensures exists i :: 0 <= i < |ys| && ys[i] == m
  {
    if |ys| == 1 then ys[0]
    else
      var n := |ys| - 1;
      var front := MaxOf(ys[..n]);
      assert forall i :: 0 <= i < n ==> ys[..n][i] == ys[i];
      if ys[n] > front then ys[n] else front
  }

  lemma {:induction false} SumBounds(ys: seq<real>, lo: real, hi: real)
    requires forall i :: 0 <= i < |ys| ==> lo <= ys[i] <= hi
    ensures Mul(lo, |ys| as real) <= Sum(ys) <= Mul(hi, |ys| as real)
  {
    if ys != [] {
      var n := |ys| - 1;
      SumBounds(ys[..n], lo, hi);
      assert Mul(lo, (n + 1) as real) == Mul(lo, n as real) + lo;
      assert Mul(hi, (n + 1) as real) == Mul(hi, n as real) + hi;
    }
  }

  /** The sign of a product whose second factor is positive. */
  lemma MulPositiveRight(x: real, y: real)
    requires y > 0.0
    ensures x < 0.0 ==> Mul(x, y) < 0.0
    ensures Mul(x, y) == x * y
  {
    if x < 0.0 {
      MulSigns(-x, y);
      assert Mul(-x, y) == -(x * y);
    }
  }

  lemma DivBounds(s: real, n: real, lo: real, hi: real)
    requires n > 0.0
    requires Mul(lo, n) <= s <= Mul(hi, n)
    ensures lo <= s / n <= hi
  {
    var m := s / n;
    assert m * n == s;
    MulPositiveRight(m - lo, n);
    MulPositiveRight(hi - m, n);
    assert (m - lo) * n == s - lo * n;
    assert (hi - m) * n == hi * n - s;
  }

  /** The mean lies between the least and the greatest value. */
  lemma MeanBounds(ys: seq<real>, lo: real, hi: real)
    requires |ys| > 0
    requires forall i :: 0 <= i < |ys| ==> lo <= ys[i] <= hi
    ensures lo <= Mean(ys) <= hi
  {
    SumBounds(ys, lo, hi);
    DivBounds(Sum(ys), |ys| as real, lo, hi);
  }

  /** `predictY` lies within the range of y values of the rows selected. */
  lemma PredictYBounds(xValue: real, k: int, chips: seq<Sample>, lo: real, hi: real)
    requires k >= 1
    requires |chips| <= BufferRows
    requires forall row :: row in NearestRows(xValue, k, chips) ==> lo <= row.y <= hi
    ensures lo <= PredictY(xValue, k, chips) <= hi
  {
    var rows := NearestRows(xValue, k, chips);
    var ys := ColumnY(rows);
    forall i | 0 <= i < |ys| ensures lo <= ys[i] <= hi {
      assert rows[i] in rows;
    }
    MeanBounds(ys, lo, hi);
  }

  /** The padding at work on the prediction: with fewer than `100 - k + 1`
      samples, none of them at `xValue`, `predictY` is 0 whatever the y
      values of the samples are. */
  lemma SmallSetPredictsZero(xValue: real, k: int, chips: seq<Sample>)
    requires k >= 1
    requires |chips| + k <= BufferRows
    requires forall i :: 0 <= i < |chips| ==> chips[i].x != xValue
    ensures PredictY(xValue, k, chips) == 0.0
  {
    SmallSetKeepsPadding(xValue, k, chips);
    PredictYBounds(xValue, k, chips, 0.0, 0.0);
  }

  /** When every sample's y value, and 0 (the padding's y value), lie
      between `lo` and `hi`, so does the prediction. */
  lemma PredictYWithinSampleRange(xValue: real, k: int, chips: seq<Sample>, lo: real, hi: real)
    requires k >= 1
    requires |chips| <= BufferRows
    requires lo <= 0.0 <= hi
    requires forall i :: 0 <= i < |chips| ==> lo <= chips[i].y <= hi
    ensures lo <= PredictY(xValue, k, chips) <= hi
  {
    NearestRowsSpec(xValue, k, chips);
    forall row | row in NearestRows(xValue, k, chips) ensures lo <= row.y <= hi {
      if row != Padding {
        var c :| c in chips && row == DataRow(xValue, c);
      }
    }
    PredictYBounds(xValue, k, chips, lo, hi);
  }

  /** Three samples `(1, 10), (2, 20), (3, 30)`, query 2.4, `k = 2`: the two
      nearest samples have mean 25, but the two rows selected are padding,
      so the prediction is 0. */
  lemma ThreeSampleExample()
    ensures PredictY(2.4, 2, [Sample(1.0, 10.0), Sample(2.0, 20.0), Sample(3.0, 30.0)]) == 0.0
  {
    SmallSetPredictsZero(2.4, 2, [Sample(1.0, 10.0), Sample(2.0, 20.0), Sample(3.0, 30.0)]);
  }

  /** The prediction at a sample's x value, as a function of the sample. */
  function PredictAt(k: int, samples: seq<Sample>): Sample --> real {
    (q: Sample) requires k >= 1 && |samples| <= BufferRows => PredictY(q.x, k, samples)
  }

  /** A query at a sample's own x: that sample's row ties at distance 0 with
      the padding rows, and with `k = 1` the stable order keeps the first
      sample at the query, so the prediction is its y value. */
  lemma FirstSampleAtQueryPredicts(xValue: real, chips: seq<Sample>, j: int)
    requires |chips| <= BufferRows
    requires 0 <= j < |chips| && chips[j].x == xValue
    requires forall i :: 0 <= i < j ==> chips[i].x != xValue
    ensures NearestRows(xValue, 1, chips) == [DataRow(xValue, chips[j])]
    ensures PredictY(xValue, 1, chips) == chips[j].y
  {
    var data := DataRows(xValue, chips);
    var row := data[j];
    assert row == DataRow(xValue, chips[j]);
    assert data == data[..j] + ([row] + data[j + 1..]);
    assert data[..j] == DataRows(xValue, chips[..j]);
    NoDataRowAtZero(xValue, chips[..j]);
    WithKeyAppend(data[..j], [row] + data[j + 1..], RowDist, 0.0);
    WithKeyCons(row, data[j + 1..], RowDist, 0.0);
    var zeros := WithKey(Buffer(xValue, chips), RowDist, 0.0);
    assert zeros[..1] == [row] by {
      BufferZeroRows(xValue, chips);
      assert [] + ([row] + WithKey(data[j + 1..], RowDist, 0.0)) == [row] + WithKey(data[j + 1..], RowDist, 0.0);
    }
    BufferDistancesNonNegative(xValue, chips);
    TakeLeastKeys(Buffer(xValue, chips), 1, RowDist, 0.0);
    assert ColumnY([row]) == [row.y];
    assert Sum([row.y]) == row.y by {
      assert [row.y][..0] == [];
    }
  }

  /** `predictSet`: one prediction per sample, each made against the whole
      set, in set order. */
  method PredictSet(k: int, samples: seq<Sample>) returns (predicted: seq<real>)
    requires k >= 1
    requires |samples| <= BufferRows
    ensures |predicted| == |samples|
    ensures forall i :: 0 <= i < |samples| ==> predicted[i] == PredictY(samples[i].x, k, samples)
  {
    predicted := [];
    for i := 0 to |samples|
      invariant predicted == Map(PredictAt(k, samples), samples[..i])
    {
      var y := PredictY(samples[i].x, k, samples);
      assert y == PredictAt(k, samples)(samples[i]);
      MapSnoc(PredictAt(k, samples), samples, i);
      predicted := predicted + [y];
    }
    assert samples[..|samples|] == samples;
  }

  /** The sum of the squared differences: never negative, and zero exactly
      when the two sequences are equal. */
  function SumSquares(a: seq<real>, b: seq<real>): (s: real)
    requires |a| == |b|
    ensures s >= 0.0
    ensures s == 0.0 <==> a == b
  {
    if a == [] then 0.0
    else
      var n := |a| - 1;
      SquareSign(a[n] - b[n]);
      assert a == a[..n] + [a[n]];
      assert b == b[..n] + [b[n]];
      SumSquares(a[..n], b[..n]) + Mul(a[n] - b[n], a[n] - b[n])
  }

  /** `MSE`: the mean of the squared differences. It is never negative, and
      it is 0 exactly when the predictions equal the real values. */
  function MSE(yReal: seq<real>, yPredict: seq<real>): (e: real)
    requires |yReal| == |yPredict| > 0
    ensures e >= 0.0
    ensures e == 0.0 <==> yReal == yPredict
  {
    var s := SumSquares(yReal, yPredict);
    DivBounds(s, |yReal| as real, 0.0, s);
    s / (|yReal| as real)
  }

  /** Swapping the arguments leaves each squared difference unchanged. */
  lemma {:induction false} SumSquaresSymmetric(a: seq<real>, b: seq<real>)
    requires |a| == |b|
    ensures SumSquares(a, b) == SumSquares(b, a)
  {
    if a != [] {
      var n := |a| - 1;
      SumSquaresSymmetric(a[..n], b[..n]);
      assert Mul(a[n] - b[n], a[n] - b[n]) == Mul(b[n] - a[n], b[n] - a[n]) by {
        assert (a[n] - b[n]) * (a[n] - b[n]) == (b[n] - a[n]) * (b[n] - a[n]);
      }
    }
  }

  /** The error measure does not depend on which argument holds the real
      values. */
  lemma MSESymmetric(yReal: seq<real>, yPredict: seq<real>)
    requires |yReal| == |yPredict| > 0
    ensures MSE(yReal, yPredict) == MSE(yPredict, yReal)
  {
    SumSquaresSymmetric(yReal, yPredict);
  }
}
