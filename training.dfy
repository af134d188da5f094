/** The training stage (`train_model`) up to the classifier fit: separate the
    target, keep the numeric feature columns, replace infinities and NaN by 0,
    and split the rows 80/20.  The seeded shuffle of `train_test_split` is the
    permutation `perm` of the row positions. */
module Training {
  import opened Table
  import opened Frames

  datatype TrainError =
    | MissingTargetColumn(name: string)  // `df.drop(columns=[target])` raises KeyError
    | EmptyTrainSet(samples: nat)        // `train_test_split` raises ValueError

  /** What the classifier is fitted on, and the held-out part handed to the
      evaluation stage. */
  datatype Prepared = Prepared(xTrain: Table, yTrain: seq<Cell>, xTest: Table, yTest: seq<Cell>)

  predicate IsNumericDType(d: DType) {
    d == Int64 || d == Float64
  }

  /** Positions, among the first `n`, of the columns kept as features: every
      column except the target whose dtype is int64 or float64. */
  function FeatureIndices(columns: seq<string>, dtypes: seq<DType>, target: string, n: nat): (idx: seq<nat>)
    requires |dtypes| == |columns| && n <= |columns|
    ensures forall j :: 0 <= j < |idx| ==> idx[j] < n
    ensures forall j, l :: 0 <= j < l < |idx| ==> idx[j] < idx[l]
    ensures forall k :: 0 <= k < n ==> (k in idx <==> columns[k] != target && IsNumericDType(dtypes[k]))
  {
    if n == 0 then []
    else
      var p := FeatureIndices(columns, dtypes, target, n - 1);
      if columns[n - 1] != target && IsNumericDType(dtypes[n - 1]) then p + [n - 1] else p
  }

  /** `df.drop(columns=[target]).select_dtypes(include=["int64", "float64"])`. */
  function SelectFeatures(t: Table, target: string): (x: Table)
    requires Valid(t)
    ensures Valid(x) && |x.rows| == |t.rows|
    ensures target !in x.columns
    ensures forall j :: 0 <= j < |x.dtypes| ==> IsNumericDType(x.dtypes[j])
  {
    Project(t, FeatureIndices(t.columns, t.dtypes, target, |t.columns|))
  }

  /** One cell after `replace([inf, -inf], nan)` and then `fillna(0)`. */
  function SanitizeCell(c: Cell): (r: Cell)
    ensures c.Num? || c.Str? ==> r == c
    ensures c.PosInf? || c.NegInf? || c == Missing ==> r == Num(0.0)
  {
    MissingToZero(InfToMissing(c))
  }

  /** The replacement must come before the fill: filling alone leaves every
      infinity in place, and replacing after the fill would leave NaN. */
  lemma SanitizeCellSpec(c: Cell)
    ensures MissingToZero(c).PosInf? || MissingToZero(c).NegInf? <==> c.PosInf? || c.NegInf?
    ensures c.PosInf? || c.NegInf? ==> InfToMissing(MissingToZero(c)) == Missing
  {
  }

  /** `ceil(0.2 * n)`, the number of test rows `train_test_split` takes. */
  function TestSize(n: nat): (k: nat)
    ensures 5 * k >= n && 5 * k < n + 5
  {
    (n + 4) / 5
  }

  /** `perm` lists each of the positions `0 .. n-1` once. */
  predicate IsPermutation(perm: seq<nat>, n: nat) {
    && |perm| == n
    && (forall k :: 0 <= k < n ==> perm[k] < n)
    && Distinct(perm)
  }

  /** The selected features after `replace` and `fillna`: every cell is a
      number, the input cell when that was a finite number and 0 when it was
      an infinity or NaN. */
  function FeatureMatrix(t: Table, target: string): (x: Table)
    requires Valid(t)
    ensures var idx := FeatureIndices(t.columns, t.dtypes, target, |t.columns|);
            && x.columns == SelectFeatures(t, target).columns && x.dtypes == SelectFeatures(t, target).dtypes
            && |x.rows| == |t.rows| && Valid(x)
            && (forall i :: 0 <= i < |t.rows| ==> |x.rows[i]| == |idx|)
            && (forall i, j :: 0 <= i < |t.rows| && 0 <= j < |idx| ==>
                  x.rows[i][j] == SanitizeCell(t.rows[i][idx[j]]) && x.rows[i][j].Num?)
  {
    var x := SelectFeatures(t, target);
    var idx := FeatureIndices(t.columns, t.dtypes, target, |t.columns|);
    var rows := MapCells(MapCells(x.rows, InfToMissing), MissingToZero);
    forall i, j | 0 <= i < |t.rows| && 0 <= j < |idx|
      ensures rows[i][j] == SanitizeCell(t.rows[i][idx[j]]) && rows[i][j].Num? && Fits(x.dtypes[j], rows[i][j])
    {
      assert x.rows[i][j] == t.rows[i][idx[j]] && x.dtypes[j] == t.dtypes[idx[j]];
      SanitizeNumeric(x.dtypes[j], x.rows[i][j]);
    }
    x.(rows := rows)
  }

  /** A cell of an int64 or float64 column is a number of that column once
      sanitized. */
  lemma SanitizeNumeric(d: DType, c: Cell)
    requires IsNumericDType(d) && Fits(d, c)
    ensures SanitizeCell(c).Num? && Fits(d, SanitizeCell(c))
  {
  }

  /** The training inputs `train_model` builds, or the error it raises. */
  function PrepareTraining(t: Table, target: string, perm: seq<nat>): (r: Result<Prepared, TrainError>)
    requires Valid(t) && IsPermutation(perm, |t.rows|)
    ensures r == Failure(MissingTargetColumn(target)) <==> target !in t.columns
    ensures r == Failure(EmptyTrainSet(|t.rows|)) <==> target in t.columns && |t.rows| < 2
    ensures r.Success? ==>
              && |r.value.xTest.rows| == |r.value.yTest| == TestSize(|t.rows|)
              && |r.value.xTrain.rows| == |r.value.yTrain| == |t.rows| - TestSize(|t.rows|)
              && Valid(r.value.xTest) && Valid(r.value.xTrain)
              && r.value.xTest.columns == r.value.xTrain.columns == SelectFeatures(t, target).columns
  {
    if target !in t.columns then Failure(MissingTargetColumn(target))
    else
      var y := ColumnValues(t, target);
      var clean := FeatureMatrix(t, target);
      var n := |t.rows|;
      var nTest := TestSize(n);
      if n - nTest == 0 then Failure(EmptyTrainSet(n))
      else
        Success(Prepared(TakeRows(clean, perm[nTest..]), TakeCells(y, perm[nTest..]),
                         TakeRows(clean, perm[..nTest]), TakeCells(y, perm[..nTest])))
  }

  /** `train_model(df, target)` up to the fit: the features are a new frame
      whose infinities and NaN are replaced in place. */
  method TrainModel(df: Frame, target: string, perm: seq<nat>) returns (r: Result<Prepared, TrainError>)
    requires Valid(df.Value()) && IsPermutation(perm, |df.rows|)
    ensures r == PrepareTraining(df.Value(), target, perm)
  {
    var t := df.Value();
    if target !in t.columns {
      return Failure(MissingTargetColumn(target));
    }
    var y := ColumnValues(t, target);
    var x := new Frame(SelectFeatures(t, target));
    x.ReplaceInfinities();
    x.FillMissingWithZero();
    var n := |x.rows|;
    var nTest := TestSize(n);
    if n - nTest == 0 {
      return Failure(EmptyTrainSet(n));
    }
    var features := x.Value();
    r := Success(Prepared(TakeRows(features, perm[nTest..]), TakeCells(y, perm[nTest..]),
                          TakeRows(features, perm[..nTest]), TakeCells(y, perm[..nTest])));
  }

  // ---------------------------------------------------------------------
  // What the stage promises

  /** Training succeeds exactly when the target column is present and at
      least two rows leave a training part beside the test part. */
  lemma TrainOutcome(t: Table, target: string, perm: seq<nat>)
    requires Valid(t) && IsPermutation(perm, |t.rows|)
    ensures PrepareTraining(t, target, perm).Success? <==> target in t.columns && |t.rows| >= 2
  {
  }

  /** The feature columns are the numeric columns other than the target, in
      their original order, holding the sanitized cells of the input. */
  lemma SelectFeaturesSpec(t: Table, target: string)
    requires Valid(t)
    ensures var x := SelectFeatures(t, target);
            var idx := FeatureIndices(t.columns, t.dtypes, target, |t.columns|);
            && Valid(x)
            && (forall name :: name in x.columns <==>
                  name in t.columns && name != target && IsNumericDType(t.dtypes[IndexOf(t.columns, name)]))
            && |x.columns| == |idx|
            && (forall j :: 0 <= j < |idx| ==> x.columns[j] == t.columns[idx[j]] && x.dtypes[j] == t.dtypes[idx[j]])
            && (forall j, l :: 0 <= j < l < |idx| ==> idx[j] < idx[l])
            && (forall i, j :: 0 <= i < |t.rows| && 0 <= j < |idx| ==> x.rows[i][j] == t.rows[i][idx[j]])
  {
    forall name ensures name in SelectFeatures(t, target).columns <==>
                  name in t.columns && name != target && IsNumericDType(t.dtypes[IndexOf(t.columns, name)])
    {
      if name in SelectFeatures(t, target).columns {
        SelectedIsFeature(t, target, name);
      }
      if name in t.columns && name != target && IsNumericDType(t.dtypes[IndexOf(t.columns, name)]) {
        FeatureIsSelected(t, target, name);
      }
    }
  }

  lemma SelectedIsFeature(t: Table, target: string, name: string)
    requires Valid(t) && name in SelectFeatures(t, target).columns
    ensures name in t.columns && name != target && IsNumericDType(t.dtypes[IndexOf(t.columns, name)])
  {
    var x := SelectFeatures(t, target);
    var idx := FeatureIndices(t.columns, t.dtypes, target, |t.columns|);
    var j :| 0 <= j < |x.columns| && x.columns[j] == name;
    assert t.columns[idx[j]] == name;
    assert IndexOf(t.columns, name) == idx[j];
  }

  lemma FeatureIsSelected(t: Table, target: string, name: string)
    requires Valid(t) && name in t.columns && name != target && IsNumericDType(t.dtypes[IndexOf(t.columns, name)])
    ensures name in SelectFeatures(t, target).columns
  {
    var idx := FeatureIndices(t.columns, t.dtypes, target, |t.columns|);
    var k := IndexOf(t.columns, name);
    assert k in idx;
    var j :| 0 <= j < |idx| && idx[j] == k;
    assert SelectFeatures(t, target).columns[j] == name;
  }

  /** The k-th test row and the k-th test label come from the same input
      row `perm[k]`, and the k-th training row and label from `perm[nTest + k]`,
      where `nTest` is a fifth of the rows rounded up; the feature cells are
      those of `FeatureMatrix`. */
  lemma TrainSplitRows(t: Table, target: string, perm: seq<nat>)
    requires Valid(t) && IsPermutation(perm, |t.rows|)
    requires PrepareTraining(t, target, perm).Success?
    ensures var p := PrepareTraining(t, target, perm).value;
            var x := FeatureMatrix(t, target);
            var nTest := TestSize(|t.rows|);
            && |p.xTest.rows| == |p.yTest| == nTest
            && |p.xTrain.rows| == |p.yTrain| == |t.rows| - nTest
            && p.xTest.columns == p.xTrain.columns == SelectFeatures(t, target).columns
            && (forall k :: 0 <= k < nTest ==>
                  p.xTest.rows[k] == x.rows[perm[k]] && p.yTest[k] == ColumnValues(t, target)[perm[k]])
            && (forall k :: 0 <= k < |t.rows| - nTest ==>
                  p.xTrain.rows[k] == x.rows[perm[nTest + k]] && p.yTrain[k] == ColumnValues(t, target)[perm[nTest + k]])
  {
  }

  // ---------------------------------------------------------------------
  // The split is a partition of the rows

  function Elements(s: seq<nat>): set<nat> {
    set k | 0 <= k < |s| :: s[k]
  }

  /** The positions `0 .. n-1`. */
  function Range(n: nat): set<nat> {
    if n == 0 then {} else Range(n - 1) + {n - 1}
  }

  lemma {:induction false} RangeSpec(n: nat)
    ensures forall j: nat :: j in Range(n) <==> j < n
    ensures |Range(n)| == n
  {
    if n > 0 {
      RangeSpec(n - 1);
      assert n - 1 !in Range(n - 1);
    }
  }

  lemma {:induction false} ElementsSize(s: seq<nat>)
    requires Distinct(s)
    ensures |Elements(s)| == |s|
  {
    if s != [] {
      var s' := s[..|s| - 1];
      ElementsSize(s');
      assert Elements(s) == Elements(s') + {s[|s| - 1]};
      assert s[|s| - 1] !in Elements(s');
    }
  }

  /** A permutation of `0 .. n-1` lists every position. */
  lemma PermutationCovers(perm: seq<nat>, n: nat)
    requires IsPermutation(perm, n)
    ensures Elements(perm) == Range(n)
  {
    var e, r := Elements(perm), Range(n);
    RangeSpec(n);
    ElementsSize(perm);
    assert e <= r;
    assert e * r == e && e + r == r && e - r == {};
    assert |r - e| == 0;
  }

  /** Two slices of a sequence without repeated elements share no element. */
  lemma SlicesDisjoint(perm: seq<nat>, m: nat)
    requires Distinct(perm) && m <= |perm|
    ensures Elements(perm[..m]) !! Elements(perm[m..])
  {
    var a, b := perm[..m], perm[m..];
    forall k, l | 0 <= k < |a| && 0 <= l < |b| ensures a[k] != b[l] {
      assert a[k] == perm[k] && b[l] == perm[m + l];
    }
  }

  /** The two slices together hold the elements of the whole sequence. */
  lemma SlicesCover(perm: seq<nat>, m: nat)
    requires m <= |perm|
    ensures Elements(perm[..m]) + Elements(perm[m..]) == Elements(perm)
  {
    var a, b := perm[..m], perm[m..];
    forall x | x in Elements(perm) ensures x in Elements(a) + Elements(b) {
      var k :| 0 <= k < |perm| && perm[k] == x;
      if k < m {
        assert a[k] == x;
      } else {
        assert b[k - m] == x;
      }
    }
    forall x | x in Elements(a) + Elements(b) ensures x in Elements(perm) {
      if x in Elements(a) {
        var k :| 0 <= k < |a| && a[k] == x;
        assert perm[k] == x;
      } else {
        var k :| 0 <= k < |b| && b[k] == x;
        assert perm[m + k] == x;
      }
    }
  }

  /** The test rows and the training rows are disjoint and together are all
      the rows; for a given row count and shuffle the partition is fixed. */
  lemma SplitPartition(perm: seq<nat>, n: nat)
    requires IsPermutation(perm, n)
    ensures Elements(perm[..TestSize(n)]) !! Elements(perm[TestSize(n)..])
    ensures Elements(perm[..TestSize(n)]) + Elements(perm[TestSize(n)..]) == Range(n)
    ensures |Elements(perm[..TestSize(n)])| == TestSize(n)
    ensures |Elements(perm[TestSize(n)..])| == n - TestSize(n)
  {
    var m := TestSize(n);
    PermutationCovers(perm, n);
    SlicesDisjoint(perm, m);
    SlicesCover(perm, m);
    SliceDistinct(perm, 0, m);
    SliceDistinct(perm, m, n);
    assert perm[0..m] == perm[..m] && perm[m..n] == perm[m..];
    ElementsSize(perm[..m]);
    ElementsSize(perm[m..]);
  }

  lemma SliceDistinct(s: seq<nat>, i: nat, j: nat)
    requires Distinct(s) && i <= j <= |s|
    ensures Distinct(s[i..j])
  {
    forall k, l | 0 <= k < l < j - i ensures s[i..j][k] != s[i..j][l] {
      assert s[i..j][k] == s[i + k] && s[i..j][l] == s[i + l];
    }
  }
}
