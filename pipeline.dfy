/** The stage order of the pipeline script: clean, engineer features, then
    prepare the training data for the target `loan_status`.  The classifier
    itself is not modelled, so the pipeline ends with the prepared split and
    the binary target the evaluation derives from the test labels. */
module Pipeline {
  import opened Table
  import opened Frames
  import Cleaning
  import Features
  import Training
  import Evaluation

  /** The target column the script trains on. */
  const Target: string := "loan_status"

  datatype PipelineError =
    | FeatureFailure(feature: Features.FeatureError)
    | TrainFailure(train: Training.TrainError)

  /** The target column survives feature engineering unchanged: it is not
      one of the derived columns. */
  lemma TargetKept(c: Table, f: Table)
    requires Valid(c) && Valid(f) && Features.Extends(c, f)
    ensures Target in f.columns <==> Target in c.columns
    ensures Target in c.columns ==> ColumnValues(f, Target) == ColumnValues(c, Target)
  {
    if Target in c.columns {
      IndexOfPrefix(c.columns, f.columns, Target);
    }
    if Target in f.columns {
      var k := IndexOf(f.columns, Target);
      assert Target !in Features.DerivedColumns;
      assert k < |c.columns| && c.columns[k] == Target;
    }
  }

  /** `monthly_income` reaches the classifier exactly when `annual_inc` is
      an int64 or float64 column: divided from an object column it is an
      object column itself, which `select_dtypes` leaves out. */
  lemma MonthlyIncomeIsFeature(t: Table)
    requires Valid(t) && Features.EngineerFeatures(t).Success? && "annual_inc" in t.columns
    ensures var f := Features.EngineerFeatures(t).value;
            "monthly_income" in Training.SelectFeatures(f, Target).columns <==>
              Training.IsNumericDType(ColumnDType(t, "annual_inc"))
  {
    var f := Features.EngineerFeatures(t).value;
    Features.FeaturesMonthlyIncome(t);
    Training.SelectFeaturesSpec(f, Target);
  }

  /** `clean_data`, `engineer_features` and `train_model` up to the fit, in
      the order the script runs them; `perm` is the shuffle of the cleaned
      rows.  The split covers the cleaned rows, and the target never appears
      among the features. */
  function RunPipeline(t: Table, perm: seq<nat>): (r: Result<Training.Prepared, PipelineError>)
    requires Valid(t) && Training.IsPermutation(perm, |Cleaning.Clean(t).rows|)
    ensures r.Success? ==>
              var n := |Cleaning.Clean(t).rows|;
              && |r.value.yTest| == Training.TestSize(n) && |r.value.yTest| + |r.value.yTrain| == n <= |t.rows|
              && Target !in r.value.xTest.columns && Target !in r.value.xTrain.columns
  {
    var c := Cleaning.Clean(t);
    match Features.EngineerFeatures(c)
    case Failure(e) => Failure(FeatureFailure(e))
    case Success(f) =>
      Features.FeaturesExtend(c);
      match Training.PrepareTraining(f, Target, perm)
      case Failure(e) => Failure(TrainFailure(e))
      case Success(p) => Success(p)
  }

  /** The script run on frames: each stage returns a new frame and leaves its
      input unchanged. */
  method RunPipelineOn(df: Frame, perm: seq<nat>) returns (r: Result<Training.Prepared, PipelineError>)
    requires Valid(df.Value()) && Training.IsPermutation(perm, |Cleaning.Clean(df.Value()).rows|)
    ensures r == RunPipeline(df.Value(), perm)
    ensures df.Value() == old(df.Value())
  {
    var cleaned := Cleaning.CleanData(df);
    var features := Features.EngineerFeaturesOn(cleaned);
    if features.Failure? {
      return Failure(FeatureFailure(features.error));
    }
    Features.FeaturesExtend(cleaned.Value());
    var prepared := Training.TrainModel(features.value, Target, perm);
    if prepared.Failure? {
      return Failure(TrainFailure(prepared.error));
    }
    r := Success(prepared.value);
  }

  /** Without a `loan_status` column the run stops at training with the
      missing-target error, unless feature engineering has already failed;
      with it, training fails only for fewer than two cleaned rows. */
  lemma PipelineOutcome(t: Table, perm: seq<nat>)
    requires Valid(t) && Training.IsPermutation(perm, |Cleaning.Clean(t).rows|)
    ensures var c := Cleaning.Clean(t);
            && (RunPipeline(t, perm) == Failure(TrainFailure(Training.MissingTargetColumn(Target))) <==>
                  Features.EngineerFeatures(c).Success? && Target !in t.columns)
            && (RunPipeline(t, perm).Success? <==>
                  Features.EngineerFeatures(c).Success? && Target in t.columns && |c.rows| >= 2)
  {
    var c := Cleaning.Clean(t);
    if Features.EngineerFeatures(c).Success? {
      var f := Features.EngineerFeatures(c).value;
      Features.FeaturesExtend(c);
      TargetKept(c, f);
      Training.TrainOutcome(f, Target, perm);
    }
  }

  /** The labels handed to the evaluation are the cleaned loan statuses of
      the shuffled test rows, a fifth of the cleaned rows rounded up, and
      their binary target is 0 exactly for "Fully Paid". */
  lemma PipelineTestLabels(t: Table, perm: seq<nat>)
    requires Valid(t) && Training.IsPermutation(perm, |Cleaning.Clean(t).rows|)
    requires RunPipeline(t, perm).Success?
    ensures var c := Cleaning.Clean(t);
            var p := RunPipeline(t, perm).value;
            && Target in c.columns
            && |p.yTest| == Training.TestSize(|c.rows|)
            && |p.yTest| + |p.yTrain| == |c.rows| <= |t.rows|
            && (forall k :: 0 <= k < |p.yTest| ==> p.yTest[k] == ColumnValues(c, Target)[perm[k]])
            && (forall k :: 0 <= k < |p.yTest| ==>
                  (Evaluation.Binarize(p.yTest)[k] == 0 <==> ColumnValues(c, Target)[perm[k]] == Str(Evaluation.FullyPaid)))
  {
    var c := Cleaning.Clean(t);
    var f := Features.EngineerFeatures(c).value;
    Features.FeaturesExtend(c);
    TargetKept(c, f);
    Training.TrainSplitRows(f, Target, perm);
  }
}
