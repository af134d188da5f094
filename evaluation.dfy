/** The label handling of the evaluation stage (`evaluate_model`): the binary
    default/non-default target used for the ROC curve, and the confusion
    matrix of actual against predicted loan statuses. */
module Evaluation {
  import opened Table

  /** The status that counts as "not defaulted". */
  const FullyPaid: string := "Fully Paid"

  // ---------------------------------------------------------------------
  // Binarization

  /** `(y_test != "Fully Paid").astype(int)`: 0 for a fully paid loan and 1
      for everything else, a missing status included. */
  function Binarize(y: seq<Cell>): (b: seq<int>)
    ensures |b| == |y|
    ensures forall i :: 0 <= i < |y| ==> (b[i] == 0 <==> y[i] == Str(FullyPaid))
    ensures forall i :: 0 <= i < |y| ==> b[i] == 0 || b[i] == 1
  {
    seq(|y|, i requires 0 <= i < |y| => if y[i] != Str(FullyPaid) then 1 else 0)
  }

  /** How many cells of `y` equal `c`. */
  function Occurrences(y: seq<Cell>, c: Cell): (n: nat)
    ensures n <= |y|
    ensures n == 0 <==> c !in y
  {
    if y == [] then 0
    else
      assert y == y[..|y| - 1] + [y[|y| - 1]];
      Occurrences(y[..|y| - 1], c) + (if y[|y| - 1] == c then 1 else 0)
  }

  function Sum(s: seq<int>): int {
    if s == [] then 0 else Sum(s[..|s| - 1]) + s[|s| - 1]
  }

  /** The positives of the binary target are exactly the loans that were not
      fully paid: its sum is the number of statuses other than "Fully Paid". */
  lemma {:induction false} BinarizeCountsDefaults(y: seq<Cell>)
    ensures Sum(Binarize(y)) == |y| - Occurrences(y, Str(FullyPaid))
  {
    if y != [] {
      var n := |y| - 1;
      assert Binarize(y)[..n] == Binarize(y[..n]);
      BinarizeCountsDefaults(y[..n]);
    }
  }

  // ---------------------------------------------------------------------
  // The order of the class labels

  /** Python's `<` on `str`: code point by code point, a proper prefix first. */
  predicate StrLess(a: string, b: string)
    decreases |a|
  {
    0 < |b| && (|a| == 0 || a[0] < b[0] || (a[0] == b[0] && StrLess(a[1..], b[1..])))
  }

  lemma {:induction false} StrLessIrreflexive(a: string)
    ensures !StrLess(a, a)
    decreases |a|
  {
    if |a| > 0 {
      StrLessIrreflexive(a[1..]);
    }
  }

  lemma {:induction false} StrLessTransitive(a: string, b: string, c: string)
    requires StrLess(a, b) && StrLess(b, c)
    ensures StrLess(a, c)
    decreases |a|
  {
    if |a| > 0 && a[0] == b[0] && b[0] == c[0] {
      StrLessTransitive(a[1..], b[1..], c[1..]);
    }
  }

  lemma StrLessAsymmetric(a: string, b: string)
    requires StrLess(a, b)
    ensures !StrLess(b, a)
  {
    if StrLess(b, a) {
      StrLessTransitive(a, b, a);
      StrLessIrreflexive(a);
    }
  }

  lemma {:induction false} StrLessTotal(a: string, b: string)
    ensures a == b || StrLess(a, b) || StrLess(b, a)
    decreases |a|
  {
    if |a| > 0 && |b| > 0 && a[0] == b[0] {
      StrLessTotal(a[1..], b[1..]);
      if a[1..] == b[1..] {
        assert a == [a[0]] + a[1..] && b == [b[0]] + b[1..];
      }
    }
  }

  predicate StrictlySorted(s: seq<string>) {
    forall i, j :: 0 <= i < j < |s| ==> StrLess(s[i], s[j])
  }

  /** Adds `x` to a sorted list of distinct labels, unless it is already there. */
  function Insert(x: string, s: seq<string>): (r: seq<string>)
    requires StrictlySorted(s)
    ensures StrictlySorted(r)
    ensures forall y :: y in r <==> y == x || y in s
    decreases |s|
  {
    if s == [] then [x]
    else if x == s[0] then s
    else if StrLess(x, s[0]) then
      assert forall j :: 0 < j < |s| ==> StrLess(x, s[j]) by {
        forall j | 0 < j < |s| ensures StrLess(x, s[j]) {
          StrLessTransitive(x, s[0], s[j]);
        }
      }
      [x] + s
    else
      StrLessTotal(x, s[0]);
      var rest := Insert(x, s[1..]);
      assert forall y :: y in rest ==> StrLess(s[0], y);
      [s[0]] + rest
  }

  /** `unique_labels(y_true, y_pred)`: the distinct labels of both sequences,
      in increasing order. */
  function UniqueLabels(xs: seq<string>): (r: seq<string>)
    ensures StrictlySorted(r)
    ensures forall y :: y in r <==> y in xs
  {
    if xs == [] then []
    else Insert(xs[|xs| - 1], UniqueLabels(xs[..|xs| - 1]))
  }

  /** A strictly sorted list has no repeated label. */
  lemma SortedDistinct(s: seq<string>)
    requires StrictlySorted(s)
    ensures Distinct(s)
  {
    forall i, j | 0 <= i < j < |s| ensures s[i] != s[j] {
      StrLessIrreflexive(s[i]);
    }
  }

  /** There is only one strictly sorted list of a given set of labels, so the
      label order of the matrix is determined by the labels alone. */
  lemma {:induction false} SortedListUnique(a: seq<string>, b: seq<string>)
    requires StrictlySorted(a) && StrictlySorted(b)
    requires forall y :: y in a <==> y in b
    ensures a == b
    decreases |a|
  {
    if a != [] {
      assert a[0] in b;
    }
    if b != [] {
      assert b[0] in a;
    }
    if a != [] && b != [] {
      var k :| 0 <= k < |b| && b[k] == a[0];
      var l :| 0 <= l < |a| && a[l] == b[0];
      StrLessIrreflexive(a[0]);
      if l > 0 {
        StrLessAsymmetric(a[0], a[l]);
      }
      assert !StrLess(b[0], a[0]);
      assert k == 0;
      SortedDistinct(a);
      SortedDistinct(b);
      forall y ensures y in a[1..] <==> y in b[1..] {
        if y in a[1..] {
          var i :| 0 <= i < |a| - 1 && a[1..][i] == y;
          assert a[i + 1] == y && y in b;
          var i' :| 0 <= i' < |b| && b[i'] == y;
          assert i' != 0 && b[1..][i' - 1] == y;
        }
        if y in b[1..] {
          var i :| 0 <= i < |b| - 1 && b[1..][i] == y;
          assert b[i + 1] == y && y in a;
          var i' :| 0 <= i' < |a| && a[i'] == y;
          assert i' != 0 && a[1..][i' - 1] == y;
        }
      }
      SortedListUnique(a[1..], b[1..]);
      assert a == [a[0]] + a[1..] && b == [b[0]] + b[1..];
    }
  }

  // ---------------------------------------------------------------------
  // The class the ROC score belongs to

  /** The class whose probability `predict_proba(X_test)[:, 1]` holds: the
      second of the classifier's classes, which are the distinct training
      labels in increasing order. */
  function ScoredClass(yTrain: seq<string>): (c: string)
    requires |UniqueLabels(yTrain)| >= 2
    ensures c in yTrain
    ensures StrLess(UniqueLabels(yTrain)[0], c)
    ensures forall y :: y in yTrain && StrLess(y, c) ==> y == UniqueLabels(yTrain)[0]
  {
    var labels := UniqueLabels(yTrain);
    forall y | y in yTrain && StrLess(y, labels[1]) ensures y == labels[0] {
      var k :| 0 <= k < |labels| && labels[k] == y;
      if k == 1 {
        StrLessIrreflexive(y);
      } else if k > 1 {
        StrLessAsymmetric(labels[1], y);
      }
    }
    labels[1]
  }

  /** With the two statuses of a closed loan, column 1 is the probability of
      "Fully Paid", the class the binary target marks 0, so the ROC curve
      scores non-default against default. */
  lemma ScoredClassIsFullyPaid() returns (yTrain: seq<string>)
    ensures |UniqueLabels(yTrain)| >= 2
    ensures ScoredClass(yTrain) == FullyPaid
    ensures Binarize([Str(ScoredClass(yTrain))]) == [0]
  {
    yTrain := ["Charged Off", FullyPaid];
    assert StrLess("Charged Off", FullyPaid) by {
      assert "Charged Off"[0] < FullyPaid[0];
    }
    SortedListUnique(UniqueLabels(yTrain), yTrain);
    BinarizeOne(Str(FullyPaid));
  }

  lemma BinarizeOne(c: Cell)
    ensures Binarize([c]) == [if c == Str(FullyPaid) then 0 else 1]
  {
    var b := Binarize([c]);
    assert b == [b[0]];
  }

  /** The positions of the classes whose probabilities add up to the
      probability of default: exactly the classes the binary target marks 1. */
  function DefaultClasses(classes: seq<string>): (idx: seq<nat>)
    ensures forall k :: 0 <= k < |idx| ==> idx[k] < |classes|
    ensures forall i :: 0 <= i < |classes| ==> (i in idx <==> Binarize([Str(classes[i])]) == [1])
  {
    if classes == [] then []
    else
      var n := |classes| - 1;
      var p := DefaultClasses(classes[..n]);
      assert forall i :: 0 <= i < n ==> classes[..n][i] == classes[i];
      BinarizeOne(Str(classes[n]));
      if classes[n] != FullyPaid then p + [n] else p
  }

  /** For the two statuses of a closed loan, the default score is the
      probability of "Charged Off", column 0. */
  lemma DefaultClassesOfClosedLoans()
    ensures DefaultClasses(["Charged Off", FullyPaid]) == [0]
  {
    var classes := ["Charged Off", FullyPaid];
    assert classes[..1] == ["Charged Off"];
    assert ["Charged Off"][..0] == [];
    BinarizeOne(Str("Charged Off"));
    BinarizeOne(Str(FullyPaid));
  }

  // ---------------------------------------------------------------------
  // The confusion matrix

  datatype EvalError = InconsistentLengths(actual: nat, predicted: nat)  // sklearn's ValueError

  /** The class labels in increasing order and `counts[i][j]`, the number of
      test rows of actual class `labels[i]` predicted as `labels[j]`. */
  datatype Confusion = Confusion(labels: seq<string>, counts: seq<seq<nat>>)

  predicate Square(m: seq<seq<nat>>, n: nat) {
    |m| == n && forall i :: 0 <= i < n ==> |m[i]| == n
  }

  /** The number of rows whose actual label is `a` and predicted label is `p`. */
  function CountPairs(actual: seq<string>, predicted: seq<string>, a: string, p: string): nat
    requires |actual| == |predicted|
  {
    if actual == [] then 0
    else
      var n := |actual| - 1;
      CountPairs(actual[..n], predicted[..n], a, p) + (if actual[n] == a && predicted[n] == p then 1 else 0)
  }

  function Zeros(n: nat): (m: seq<seq<nat>>)
    ensures Square(m, n)
    ensures forall i, j :: 0 <= i < n && 0 <= j < n ==> m[i][j] == 0
  {
    seq(n, _ => seq(n, _ => 0))
  }

  /** Adds one to cell `(i, j)`. */
  function Increment(m: seq<seq<nat>>, i: nat, j: nat): (r: seq<seq<nat>>)
    requires i < |m| && j < |m[i]|
  {
    m[i := m[i][j := m[i][j] + 1]]
  }

  /** The matrix built one pair at a time, as the sparse matrix sklearn
      assembles adds up the entries it gets for the same cell. */
  function Tally(labels: seq<string>, actual: seq<string>, predicted: seq<string>): (m: seq<seq<nat>>)
    requires |actual| == |predicted|
    requires forall k :: 0 <= k < |actual| ==> actual[k] in labels && predicted[k] in labels
    ensures Square(m, |labels|)
  {
    if actual == [] then Zeros(|labels|)
    else
      var n := |actual| - 1;
      var m := Tally(labels, actual[..n], predicted[..n]);
      Increment(m, IndexOf(labels, actual[n]), IndexOf(labels, predicted[n]))
  }

  /** `confusion_matrix(y_test, y_pred)`, or the error it raises when the
      two sequences differ in length. */
  function ConfusionMatrix(actual: seq<string>, predicted: seq<string>): (r: Result<Confusion, EvalError>)
    ensures r.Failure? <==> |actual| != |predicted|
    ensures r.Success? ==> Square(r.value.counts, |r.value.labels|)
  {
    if |actual| != |predicted| then Failure(InconsistentLengths(|actual|, |predicted|))
    else
      var labels := UniqueLabels(actual + predicted);
      assert forall k :: 0 <= k < |actual| ==> actual[k] in actual + predicted && predicted[k] in actual + predicted by {
        forall k | 0 <= k < |actual| ensures actual[k] in actual + predicted && predicted[k] in actual + predicted {
          assert (actual + predicted)[k] == actual[k];
          assert (actual + predicted)[|actual| + k] == predicted[k];
        }
      }
      Success(Confusion(labels, Tally(labels, actual, predicted)))
  }

  lemma IndexOfDistinct(labels: seq<string>, i: nat)
    requires Distinct(labels) && i < |labels|
    ensures IndexOf(labels, labels[i]) == i
  {
  }

  /** Every cell of the tally counts the rows with that pair of labels. */
  lemma {:induction false} TallyCounts(labels: seq<string>, actual: seq<string>, predicted: seq<string>)
    requires Distinct(labels)
    requires |actual| == |predicted|
    requires forall k :: 0 <= k < |actual| ==> actual[k] in labels && predicted[k] in labels
    ensures forall i, j :: 0 <= i < |labels| && 0 <= j < |labels| ==>
              Tally(labels, actual, predicted)[i][j] == CountPairs(actual, predicted, labels[i], labels[j])
  {
    if actual != [] {
      var n := |actual| - 1;
      TallyCounts(labels, actual[..n], predicted[..n]);
      var a, p := IndexOf(labels, actual[n]), IndexOf(labels, predicted[n]);
      var prev := Tally(labels, actual[..n], predicted[..n]);
      assert Tally(labels, actual, predicted) == Increment(prev, a, p);
      forall i, j | 0 <= i < |labels| && 0 <= j < |labels|
        ensures Tally(labels, actual, predicted)[i][j] == CountPairs(actual, predicted, labels[i], labels[j])
      {
        IndexOfDistinct(labels, i);
        IndexOfDistinct(labels, j);
        assert Increment(prev, a, p)[i][j] == prev[i][j] + (if i == a && j == p then 1 else 0);
        assert (i == a && j == p) <==> (actual[n] == labels[i] && predicted[n] == labels[j]);
      }
    }
  }

  function RowSums(m: seq<seq<nat>>): (s: seq<int>)
    ensures |s| == |m|
  {
    seq(|m|, i requires 0 <= i < |m| => Sum(m[i]))
  }

  /** The sum of all cells. */
  function Total(m: seq<seq<nat>>): int {
    Sum(RowSums(m))
  }

  lemma {:induction false} SumUpdate(s: seq<int>, j: nat, v: int)
    requires j < |s|
    ensures Sum(s[j := v]) == Sum(s) - s[j] + v
  {
    var n := |s| - 1;
    if j == n {
      assert s[j := v][..n] == s[..n];
    } else {
      assert s[j := v][..n] == s[..n][j := v];
      SumUpdate(s[..n], j, v);
    }
  }

  lemma {:induction false} SumZeros(n: nat)
    ensures Sum(seq(n, _ => 0)) == 0
  {
    if n > 0 {
      assert seq(n, _ => 0)[..n - 1] == seq(n - 1, _ => 0);
      SumZeros(n - 1);
    }
  }

  /** Incrementing one cell adds one to the total. */
  lemma IncrementTotal(m: seq<seq<nat>>, i: nat, j: nat)
    requires i < |m| && j < |m[i]|
    ensures Total(Increment(m, i, j)) == Total(m) + 1
  {
    var row := m[i][j := m[i][j] + 1];
    SumUpdate(m[i], j, m[i][j] + 1);
    assert RowSums(Increment(m, i, j)) == RowSums(m)[i := Sum(row)];
    SumUpdate(RowSums(m), i, Sum(row));
  }

  /** The cells of the tally add up to the number of rows. */
  lemma {:induction false} TallyTotal(labels: seq<string>, actual: seq<string>, predicted: seq<string>)
    requires |actual| == |predicted|
    requires forall k :: 0 <= k < |actual| ==> actual[k] in labels && predicted[k] in labels
    ensures Total(Tally(labels, actual, predicted)) == |actual|
  {
    if actual == [] {
      var z := Zeros(|labels|);
      SumZeros(|labels|);
      assert RowSums(z) == seq(|labels|, _ => 0);
      SumZeros(|labels|);
    } else {
      var n := |actual| - 1;
      TallyTotal(labels, actual[..n], predicted[..n]);
      IncrementTotal(Tally(labels, actual[..n], predicted[..n]),
                     IndexOf(labels, actual[n]), IndexOf(labels, predicted[n]));
    }
  }

  /** With one prediction per test row, the matrix is indexed by the sorted
      distinct labels of both sequences, cell `(i, j)` counts the rows of
      actual class `i` predicted as class `j`, and the cells sum to the
      number of test rows. */
  lemma ConfusionMatrixSpec(actual: seq<string>, predicted: seq<string>)
    requires |actual| == |predicted|
    ensures var r := ConfusionMatrix(actual, predicted);
            && r.Success?
            && StrictlySorted(r.value.labels)
            && (forall y :: y in r.value.labels <==> y in actual || y in predicted)
            && (forall i, j :: 0 <= i < |r.value.labels| && 0 <= j < |r.value.labels| ==>
                  r.value.counts[i][j] == CountPairs(actual, predicted, r.value.labels[i], r.value.labels[j]))
            && Total(r.value.counts) == |actual|
  {
    var labels := UniqueLabels(actual + predicted);
    assert forall k :: 0 <= k < |actual| ==> actual[k] in labels && predicted[k] in labels by {
      forall k | 0 <= k < |actual| ensures actual[k] in labels && predicted[k] in labels {
        assert (actual + predicted)[k] == actual[k];
        assert (actual + predicted)[|actual| + k] == predicted[k];
      }
    }
    SortedDistinct(labels);
    TallyCounts(labels, actual, predicted);
    TallyTotal(labels, actual, predicted);
  }
}
