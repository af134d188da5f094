/** The feature engineering stage (`engineer_features`): up to three derived
    columns, each added only when the columns it is computed from exist. */
module Features {
  import opened Table
  import opened Frames

  /** The TypeError pandas raises when a text cell takes part in arithmetic. */
  datatype FeatureError = TypeError(column: string)

  // ---------------------------------------------------------------------
  // Float64 arithmetic on cells (NaN is Missing; rounding is not modelled)

  function Sign(x: Cell): int
    requires x.Num? || x.PosInf? || x.NegInf?
  {
    match x
    case PosInf => 1
    case NegInf => -1
    case Num(v) => if v > 0.0 then 1 else if v < 0.0 then -1 else 0
  }

  /** `x / d` for a positive constant divisor `d`. */
  function DivCell(x: Cell, d: real): (r: Cell)
    requires d > 0.0 && !x.Str?
    ensures !r.Str?
    ensures r == Missing <==> x == Missing
  {
    match x
    case Num(v) => Num(v / d)
    case _ => x
  }

  /** `x * y`: NaN absorbs everything, and an infinity times zero is NaN.
      Text may only face NaN: on an object column pandas multiplies just the
      rows where both operands are present and leaves NaN elsewhere. */
  function MulCell(x: Cell, y: Cell): (r: Cell)
    requires x.Str? ==> y == Missing
    requires y.Str? ==> x == Missing
    ensures !r.Str?
    ensures r == Missing <==> x == Missing || y == Missing || ((!x.Num? || !y.Num?) && Sign(x) * Sign(y) == 0)
    ensures x.Num? && y.Num? ==> r == Num(x.v * y.v)
  {
    if x == Missing || y == Missing then Missing
    else if x.Num? && y.Num? then Num(x.v * y.v)
    else if Sign(x) * Sign(y) == 0 then Missing
    else if Sign(x) * Sign(y) > 0 then PosInf
    else NegInf
  }

  predicate Numeric(col: seq<Cell>) {
    forall i :: 0 <= i < |col| ==> !col[i].Str?
  }

  /** Some row holds text in `a` facing a present cell in `b`.  That row is
      one pandas computes, and the text in it raises. */
  predicate TextMeetsValue(a: seq<Cell>, b: seq<Cell>) {
    exists i :: 0 <= i < |a| && i < |b| && a[i].Str? && b[i] != Missing
  }

  /** Whether text meets a present cell depends only on where `b` has gaps. */
  lemma TextMeetsSameGaps(a: seq<Cell>, b: seq<Cell>, b': seq<Cell>)
    requires |b| == |b'| && forall i :: 0 <= i < |b| ==> (b[i] == Missing <==> b'[i] == Missing)
    ensures TextMeetsValue(a, b) <==> TextMeetsValue(a, b')
  {
    if TextMeetsValue(a, b) {
      var i :| 0 <= i < |a| && i < |b| && a[i].Str? && b[i] != Missing;
      assert b'[i] != Missing;
    }
    if TextMeetsValue(a, b') {
      var i :| 0 <= i < |a| && i < |b'| && a[i].Str? && b'[i] != Missing;
      assert b[i] != Missing;
    }
  }

  /** The dtype of the result of arithmetic on operands of dtypes `a` and
      `b`: float64 when both are numeric (`/` always yields floats), object
      as soon as one operand is an object column. */
  function ArithDType(a: DType, b: DType): DType {
    if a == Other || b == Other then Other else Float64
  }

  // ---------------------------------------------------------------------
  // The ordinal encoding of `emp_length`

  const EmpLengthMap: map<string, nat> := map[
    "< 1 year" := 0, "1 year" := 1, "2 years" := 2, "3 years" := 3,
    "4 years" := 4, "5 years" := 5, "6 years" := 6, "7 years" := 7,
    "8 years" := 8, "9 years" := 9, "10+ years" := 10]

  /** `Series.map(emp_map)` on one cell: a label of the table gives its
      number, anything else (other text, numbers, NaN) gives NaN. */
  function EmpLengthNum(c: Cell): (r: Cell)
    ensures r != Missing ==> r.Num? && IsInteger(r.v) && 0.0 <= r.v <= 10.0
  {
    if c.Str? && c.s in EmpLengthMap then Num(EmpLengthMap[c.s] as real) else Missing
  }

  /** The label for `n` years of employment, written the way the data does. */
  function YearsLabel(n: nat): string
    requires n <= 10
  {
    if n == 0 then "< 1 year"
    else if n == 1 then "1 year"
    else if n == 10 then "10+ years"
    else ["0123456789"[n]] + " years"
  }

  /** The labels in order of the number of years they stand for. */
  const YearsLabels: seq<string> := ["< 1 year", "1 year", "2 years", "3 years", "4 years", "5 years",
                                     "6 years", "7 years", "8 years", "9 years", "10+ years"]

  lemma YearsLabelsListed(n: nat)
    requires n <= 10
    ensures YearsLabel(n) == YearsLabels[n]
  {
  }

  /** Each of the eleven labels is encoded as its number of years. */
  lemma EmpLengthKnown(n: nat)
    requires n <= 10
    ensures EmpLengthNum(Str(YearsLabel(n))) == Num(n as real)
  {
    YearsLabelsListed(n);
  }

  /** No cell other than one of the eleven labels is encoded as a number. */
  lemma EmpLengthOnlyLabels(c: Cell) returns (n: nat)
    requires EmpLengthNum(c) != Missing
    ensures n <= 10 && c == Str(YearsLabel(n))
  {
    assert c.s in YearsLabels;
    n := IndexOf(YearsLabels, c.s);
    YearsLabelsListed(n);
  }

  // ---------------------------------------------------------------------
  // The three rules and the stage

  const DerivedColumns: set<string> := {"monthly_income", "estimated_monthly_debt", "emp_length_num"}

  /** `annual_inc / 12`, row by row. */
  function IncomeValues(inc: seq<Cell>): (v: seq<Cell>)
    requires Numeric(inc)
    ensures |v| == |inc| && forall i :: 0 <= i < |v| ==> Fits(Float64, v[i])
    ensures forall i :: 0 <= i < |v| ==> (v[i] == Missing <==> inc[i] == Missing)
    ensures forall i :: 0 <= i < |v| && inc[i].Num? ==> v[i] == Num(inc[i].v / 12.0)
  {
    seq(|inc|, i requires 0 <= i < |inc| => DivCell(inc[i], 12.0))
  }

  /** `monthly_income * dti / 100`, row by row; a row where either factor
      is NaN gives NaN, whatever the other holds. */
  function DebtValues(income: seq<Cell>, dti: seq<Cell>): (v: seq<Cell>)
    requires |income| == |dti| && !TextMeetsValue(income, dti) && !TextMeetsValue(dti, income)
    ensures |v| == |income| && forall i :: 0 <= i < |v| ==> Fits(Float64, v[i])
    ensures forall i :: 0 <= i < |v| && (income[i] == Missing || dti[i] == Missing) ==> v[i] == Missing
    ensures forall i :: 0 <= i < |v| && income[i].Num? && dti[i].Num? ==>
              v[i] == Num(income[i].v * dti[i].v / 100.0)
  {
    seq(|income|, i requires 0 <= i < |income| => DivCell(MulCell(income[i], dti[i]), 100.0))
  }

  /** `emp_length.map(emp_map)`, row by row. */
  function EmpLengthValues(e: seq<Cell>): (v: seq<Cell>)
    ensures |v| == |e|
    ensures forall i :: 0 <= i < |e| ==> Fits(EncodedDType(e), v[i])
  {
    seq(|e|, i requires 0 <= i < |e| => EmpLengthNum(e[i]))
  }

  /** The dtype pandas gives the encoded column: int64 when every label was
      found, float64 once a NaN appears. */
  function EncodedDType(col: seq<Cell>): (d: DType)
    ensures d == Int64 || d == Float64
    ensures d == Int64 <==> forall i :: 0 <= i < |col| ==> EmpLengthNum(col[i]) != Missing
  {
    if forall i :: 0 <= i < |col| ==> EmpLengthNum(col[i]) != Missing then Int64 else Float64
  }

  /** Rule 1: `monthly_income = annual_inc / 12` when `annual_inc` exists;
      any text in `annual_inc` raises, since the divisor is present in every
      row. */
  function IncomeRule(t: Table): (r: Result<Table, FeatureError>)
    requires Valid(t)
    ensures r.Success? ==> Valid(r.value) && |r.value.rows| == |t.rows|
  {
    if "annual_inc" !in t.columns then Success(t)
    else
      var inc := ColumnValues(t, "annual_inc");
      if !Numeric(inc) then Failure(TypeError("annual_inc"))
      else Success(WithColumn(t, "monthly_income", ArithDType(ColumnDType(t, "annual_inc"), Int64), IncomeValues(inc)))
  }

  /** Rule 2: `estimated_monthly_debt = monthly_income * dti / 100` when both
      `dti` and `monthly_income` exist; it raises only when text in one
      factor faces a present cell in the other. */
  function DebtRule(t: Table): (r: Result<Table, FeatureError>)
    requires Valid(t)
    ensures r.Success? ==> Valid(r.value) && |r.value.rows| == |t.rows|
  {
    if "dti" !in t.columns || "monthly_income" !in t.columns then Success(t)
    else
      var income, dti := ColumnValues(t, "monthly_income"), ColumnValues(t, "dti");
      if TextMeetsValue(income, dti) then Failure(TypeError("monthly_income"))
      else if TextMeetsValue(dti, income) then Failure(TypeError("dti"))
      else Success(WithColumn(t, "estimated_monthly_debt",
                              ArithDType(ColumnDType(t, "monthly_income"), ColumnDType(t, "dti")), DebtValues(income, dti)))
  }

  /** Rule 3: `emp_length_num` encodes `emp_length` when it exists. */
  function EmpLengthRule(t: Table): (r: Table)
    requires Valid(t)
    ensures Valid(r) && |r.rows| == |t.rows|
  {
    if "emp_length" !in t.columns then t
    else
      var e := ColumnValues(t, "emp_length");
      WithColumn(t, "emp_length_num", EncodedDType(e), EmpLengthValues(e))
  }

  /** The table `engineer_features` returns, or the error it raises. */
  function EngineerFeatures(t: Table): (r: Result<Table, FeatureError>)
    requires Valid(t)
    ensures r.Success? ==> Valid(r.value) && |r.value.rows| == |t.rows|
  {
    match IncomeRule(t)
    case Failure(e) => Failure(e)
    case Success(t1) =>
      match DebtRule(t1)
      case Failure(e) => Failure(e)
      case Success(t2) => Success(EmpLengthRule(t2))
  }

  /** `engineer_features(df)`: the input frame is copied and the derived
      columns are assigned into the copy one rule at a time. */
  method EngineerFeaturesOn(df: Frame) returns (r: Result<Frame, FeatureError>)
    requires Valid(df.Value())
    ensures df.Value() == old(df.Value())
    ensures r.Failure? <==> EngineerFeatures(df.Value()).Failure?
    ensures r.Failure? ==> r.error == EngineerFeatures(df.Value()).error
    ensures r.Success? ==> fresh(r.value) && r.value.Value() == EngineerFeatures(df.Value()).value
  {
    var f := df.Copy();
    if "annual_inc" in f.columns {
      var inc := ColumnValues(f.Value(), "annual_inc");
      if !Numeric(inc) {
        return Failure(TypeError("annual_inc"));
      }
      f.SetColumn("monthly_income", ArithDType(ColumnDType(f.Value(), "annual_inc"), Int64), IncomeValues(inc));
    }
    assert IncomeRule(df.Value()) == Success(f.Value());
    if "dti" in f.columns && "monthly_income" in f.columns {
      var income, dti := ColumnValues(f.Value(), "monthly_income"), ColumnValues(f.Value(), "dti");
      if TextMeetsValue(income, dti) {
        return Failure(TypeError("monthly_income"));
      }
      if TextMeetsValue(dti, income) {
        return Failure(TypeError("dti"));
      }
      var d := ArithDType(ColumnDType(f.Value(), "monthly_income"), ColumnDType(f.Value(), "dti"));
      f.SetColumn("estimated_monthly_debt", d, DebtValues(income, dti));
    }
    assert DebtRule(IncomeRule(df.Value()).value) == Success(f.Value());
    if "emp_length" in f.columns {
      var e := ColumnValues(f.Value(), "emp_length");
      f.SetColumn("emp_length_num", EncodedDType(e), EmpLengthValues(e));
    }
    return Success(f);
  }

  // ---------------------------------------------------------------------
  // What each rule does to the columns

  /** `t'` has the columns of `t` plus possibly `name`, and every column of `t`
      other than `name` holds what it held. */
  ghost predicate SetOnly(t: Table, t': Table, name: string)
    requires Valid(t) && Valid(t')
  {
    && (forall y :: y in t'.columns <==> y in t.columns || y == name)
    && forall y :: y in t.columns && y != name ==>
         ColumnValues(t', y) == ColumnValues(t, y) && ColumnDType(t', y) == ColumnDType(t, y)
  }

  lemma WithColumnSetOnly(t: Table, name: string, d: DType, values: seq<Cell>)
    requires Valid(t) && |values| == |t.rows|
    requires forall i :: 0 <= i < |values| ==> Fits(d, values[i])
    ensures Valid(WithColumn(t, name, d, values)) && SetOnly(t, WithColumn(t, name, d, values), name)
    ensures ColumnValues(WithColumn(t, name, d, values), name) == values
    ensures ColumnDType(WithColumn(t, name, d, values), name) == d
  {
    var r := WithColumn(t, name, d, values);
    forall y | y in t.columns && y != name
      ensures ColumnValues(r, y) == ColumnValues(t, y) && ColumnDType(r, y) == ColumnDType(t, y)
    {
      WithColumnValues(t, name, d, values, y);
    }
    WithColumnValues(t, name, d, values, name);
  }

  lemma IncomeRuleFacts(t: Table)
    requires Valid(t) && IncomeRule(t).Success?
    ensures "annual_inc" !in t.columns ==> IncomeRule(t).value == t
    ensures "annual_inc" in t.columns ==>
              && Numeric(ColumnValues(t, "annual_inc"))
              && SetOnly(t, IncomeRule(t).value, "monthly_income")
              && ColumnValues(IncomeRule(t).value, "monthly_income") == IncomeValues(ColumnValues(t, "annual_inc"))
              && ColumnDType(IncomeRule(t).value, "monthly_income") == ArithDType(ColumnDType(t, "annual_inc"), Int64)
  {
    if "annual_inc" in t.columns {
      var d := ArithDType(ColumnDType(t, "annual_inc"), Int64);
      WithColumnSetOnly(t, "monthly_income", d, IncomeValues(ColumnValues(t, "annual_inc")));
    }
  }

  lemma DebtRuleFacts(t: Table)
    requires Valid(t) && DebtRule(t).Success?
    ensures !("dti" in t.columns && "monthly_income" in t.columns) ==> DebtRule(t).value == t
    ensures "dti" in t.columns && "monthly_income" in t.columns ==>
              && !TextMeetsValue(ColumnValues(t, "monthly_income"), ColumnValues(t, "dti"))
              && !TextMeetsValue(ColumnValues(t, "dti"), ColumnValues(t, "monthly_income"))
              && SetOnly(t, DebtRule(t).value, "estimated_monthly_debt")
              && ColumnValues(DebtRule(t).value, "estimated_monthly_debt")
                 == DebtValues(ColumnValues(t, "monthly_income"), ColumnValues(t, "dti"))
              && ColumnDType(DebtRule(t).value, "estimated_monthly_debt")
                 == ArithDType(ColumnDType(t, "monthly_income"), ColumnDType(t, "dti"))
  {
    if "dti" in t.columns && "monthly_income" in t.columns {
      var income, dti := ColumnValues(t, "monthly_income"), ColumnValues(t, "dti");
      var d := ArithDType(ColumnDType(t, "monthly_income"), ColumnDType(t, "dti"));
      WithColumnSetOnly(t, "estimated_monthly_debt", d, DebtValues(income, dti));
    }
  }

  lemma EmpLengthRuleFacts(t: Table)
    requires Valid(t)
    ensures "emp_length" !in t.columns ==> EmpLengthRule(t) == t
    ensures "emp_length" in t.columns ==>
              && SetOnly(t, EmpLengthRule(t), "emp_length_num")
              && ColumnValues(EmpLengthRule(t), "emp_length_num") == EmpLengthValues(ColumnValues(t, "emp_length"))
              && EmpLengthRule(t).dtypes[IndexOf(EmpLengthRule(t).columns, "emp_length_num")]
                 == EncodedDType(ColumnValues(t, "emp_length"))
  {
    if "emp_length" in t.columns {
      var e := ColumnValues(t, "emp_length");
      WithColumnSetOnly(t, "emp_length_num", EncodedDType(e), EmpLengthValues(e));
    }
  }

  // ---------------------------------------------------------------------
  // What the stage promises

  /** `r` is `t` with derived columns added or overwritten: same rows, every
      column of `t` still in its place, every other column of `t` unchanged,
      and only derived columns appended. */
  ghost predicate Extends(t: Table, r: Table)
    requires Valid(t) && Valid(r)
  {
    && |r.rows| == |t.rows|
    && |t.columns| <= |r.columns| && r.columns[..|t.columns|] == t.columns
    && (forall k :: |t.columns| <= k < |r.columns| ==> r.columns[k] in DerivedColumns)
    && forall k :: 0 <= k < |t.columns| && t.columns[k] !in DerivedColumns ==>
         r.dtypes[k] == t.dtypes[k] && forall i :: 0 <= i < |t.rows| ==> r.rows[i][k] == t.rows[i][k]
  }

  lemma ExtendsTransitive(a: Table, b: Table, c: Table)
    requires Valid(a) && Valid(b) && Valid(c)
    requires Extends(a, b) && Extends(b, c)
    ensures Extends(a, c)
  {
    forall k | |a.columns| <= k < |c.columns| ensures c.columns[k] in DerivedColumns {
      if k < |b.columns| {
        assert c.columns[k] == c.columns[..|b.columns|][k];
      }
    }
    forall k | 0 <= k < |a.columns| ensures c.columns[k] == a.columns[k] {
      assert c.columns[k] == c.columns[..|b.columns|][k];
      assert b.columns[k] == b.columns[..|a.columns|][k];
    }
    assert c.columns[..|a.columns|] == a.columns;
    forall k | 0 <= k < |a.columns| && a.columns[k] !in DerivedColumns
      ensures c.dtypes[k] == a.dtypes[k] && forall i :: 0 <= i < |a.rows| ==> c.rows[i][k] == a.rows[i][k]
    {
      assert b.columns[k] == b.columns[..|a.columns|][k];
    }
  }

  lemma WithDerivedExtends(t: Table, name: string, d: DType, values: seq<Cell>)
    requires Valid(t) && |values| == |t.rows| && name in DerivedColumns
    requires forall i :: 0 <= i < |values| ==> Fits(d, values[i])
    ensures Valid(WithColumn(t, name, d, values)) && Extends(t, WithColumn(t, name, d, values))
  {
  }

  lemma ExtendsSelf(t: Table)
    requires Valid(t)
    ensures Extends(t, t)
  {
    assert t.columns[..|t.columns|] == t.columns;
  }

  lemma IncomeRuleExtends(t: Table)
    requires Valid(t) && IncomeRule(t).Success?
    ensures Extends(t, IncomeRule(t).value)
  {
    if "annual_inc" in t.columns {
      var values := IncomeValues(ColumnValues(t, "annual_inc"));
      var d := ArithDType(ColumnDType(t, "annual_inc"), Int64);
      assert IncomeRule(t).value == WithColumn(t, "monthly_income", d, values);
      WithDerivedExtends(t, "monthly_income", d, values);
    } else {
      ExtendsSelf(t);
    }
  }

  lemma DebtRuleExtends(t: Table)
    requires Valid(t) && DebtRule(t).Success?
    ensures Extends(t, DebtRule(t).value)
  {
    if "dti" in t.columns && "monthly_income" in t.columns {
      var income, dti := ColumnValues(t, "monthly_income"), ColumnValues(t, "dti");
      var values := DebtValues(income, dti);
      var d := ArithDType(ColumnDType(t, "monthly_income"), ColumnDType(t, "dti"));
      assert DebtRule(t).value == WithColumn(t, "estimated_monthly_debt", d, values);
      WithDerivedExtends(t, "estimated_monthly_debt", d, values);
    } else {
      ExtendsSelf(t);
    }
  }

  lemma EmpLengthRuleExtends(t: Table)
    requires Valid(t)
    ensures Extends(t, EmpLengthRule(t))
  {
    if "emp_length" in t.columns {
      var e := ColumnValues(t, "emp_length");
      assert EmpLengthRule(t) == WithColumn(t, "emp_length_num", EncodedDType(e), EmpLengthValues(e));
      WithDerivedExtends(t, "emp_length_num", EncodedDType(e), EmpLengthValues(e));
    } else {
      ExtendsSelf(t);
    }
  }

  /** Feature engineering only adds: the row count, the position of every
      input column and the contents of every non-derived column are kept,
      and only derived columns are appended. */
  lemma FeaturesExtend(t: Table)
    requires Valid(t) && EngineerFeatures(t).Success?
    ensures Extends(t, EngineerFeatures(t).value)
  {
    var t1 := IncomeRule(t).value;
    IncomeRuleExtends(t);
    var t2 := DebtRule(t1).value;
    DebtRuleExtends(t1);
    EmpLengthRuleExtends(t2);
    ExtendsTransitive(t, t1, t2);
    ExtendsTransitive(t, t2, EmpLengthRule(t2));
  }

  /** Rule 1 in the result: with `annual_inc` present, `monthly_income` is
      `annual_inc / 12` row by row, NaN exactly where `annual_inc` is NaN,
      and float64 unless `annual_inc` is an object column. */
  lemma FeaturesMonthlyIncome(t: Table)
    requires Valid(t) && EngineerFeatures(t).Success? && "annual_inc" in t.columns
    ensures "monthly_income" in EngineerFeatures(t).value.columns
    ensures Numeric(ColumnValues(t, "annual_inc"))
    ensures forall i :: 0 <= i < |t.rows| ==>
              ColumnValues(EngineerFeatures(t).value, "monthly_income")[i] == DivCell(ColumnValues(t, "annual_inc")[i], 12.0)
    ensures forall i :: 0 <= i < |t.rows| ==>
              (ColumnValues(EngineerFeatures(t).value, "monthly_income")[i] == Missing <==> ColumnValues(t, "annual_inc")[i] == Missing)
    ensures ColumnDType(EngineerFeatures(t).value, "monthly_income") == ArithDType(ColumnDType(t, "annual_inc"), Int64)
  {
    var t1 := IncomeRule(t).value;
    var t2 := DebtRule(t1).value;
    IncomeRuleFacts(t);
    DebtRuleFacts(t1);
    EmpLengthRuleFacts(t2);
  }

  /** Rule 2 in the result: `estimated_monthly_debt` is there exactly when it
      was already there or `dti` is there together with `monthly_income` or
      with `annual_inc` (from which rule 1 makes `monthly_income`). */
  lemma FeaturesDebtPresent(t: Table)
    requires Valid(t) && EngineerFeatures(t).Success?
    ensures "estimated_monthly_debt" in EngineerFeatures(t).value.columns <==>
              "estimated_monthly_debt" in t.columns ||
              ("dti" in t.columns && ("annual_inc" in t.columns || "monthly_income" in t.columns))
  {
    var t1 := IncomeRule(t).value;
    var t2 := DebtRule(t1).value;
    IncomeRuleFacts(t);
    DebtRuleFacts(t1);
    EmpLengthRuleFacts(t2);
  }

  /** When rule 2 runs, each row of `estimated_monthly_debt` is
      `monthly_income * dti / 100`, the income being the one the result
      holds, and the column is float64 unless a factor is an object column. */
  lemma FeaturesDebt(t: Table)
    requires Valid(t) && EngineerFeatures(t).Success?
    requires "dti" in t.columns && ("annual_inc" in t.columns || "monthly_income" in t.columns)
    ensures var r := EngineerFeatures(t).value;
            && "monthly_income" in r.columns && "estimated_monthly_debt" in r.columns
            && !TextMeetsValue(ColumnValues(r, "monthly_income"), ColumnValues(t, "dti"))
            && !TextMeetsValue(ColumnValues(t, "dti"), ColumnValues(r, "monthly_income"))
            && ColumnValues(r, "estimated_monthly_debt")
               == DebtValues(ColumnValues(r, "monthly_income"), ColumnValues(t, "dti"))
            && ColumnDType(r, "estimated_monthly_debt")
               == ArithDType(ColumnDType(r, "monthly_income"), ColumnDType(t, "dti"))
  {
    var t1 := IncomeRule(t).value;
    IncomeRuleFacts(t);
    assert "monthly_income" in t1.columns;
    assert ColumnValues(t1, "dti") == ColumnValues(t, "dti") && ColumnDType(t1, "dti") == ColumnDType(t, "dti");
    var t2 := DebtRule(t1).value;
    DebtRuleFacts(t1);
    var income, d := ColumnValues(t1, "monthly_income"), ColumnDType(t1, "monthly_income");
    assert ColumnValues(t2, "monthly_income") == income && ColumnDType(t2, "monthly_income") == d;
    EmpLengthRuleFacts(t2);
    var r := EmpLengthRule(t2);
    assert EngineerFeatures(t).value == r;
    assert ColumnValues(r, "monthly_income") == income && ColumnDType(r, "monthly_income") == d;
    assert ColumnValues(r, "estimated_monthly_debt") == ColumnValues(t2, "estimated_monthly_debt");
    assert ColumnDType(r, "estimated_monthly_debt") == ColumnDType(t2, "estimated_monthly_debt");
  }

  /** Rule 3 in the result: with `emp_length` present, `emp_length_num` holds
      the encoding of each row's label, as int64 when every label was known
      and as float64 otherwise. */
  lemma FeaturesEmpLength(t: Table)
    requires Valid(t) && EngineerFeatures(t).Success? && "emp_length" in t.columns
    ensures "emp_length_num" in EngineerFeatures(t).value.columns
    ensures forall i :: 0 <= i < |t.rows| ==>
              ColumnValues(EngineerFeatures(t).value, "emp_length_num")[i] == EmpLengthNum(ColumnValues(t, "emp_length")[i])
    ensures var r := EngineerFeatures(t).value;
            r.dtypes[IndexOf(r.columns, "emp_length_num")] == EncodedDType(ColumnValues(t, "emp_length"))
  {
    var t2 := FirstTwoRulesKeep(t, "emp_length");
    EmpLengthRuleFacts(t2);
  }

  /** The first two rules leave a non-derived column as it was; the result
      is the third rule applied to what they produce. */
  lemma FirstTwoRulesKeep(t: Table, y: string) returns (t2: Table)
    requires Valid(t) && EngineerFeatures(t).Success?
    requires y in t.columns && y !in DerivedColumns
    ensures IncomeRule(t).Success? && DebtRule(IncomeRule(t).value).Success?
    ensures t2 == DebtRule(IncomeRule(t).value).value && Valid(t2)
    ensures EngineerFeatures(t).value == EmpLengthRule(t2)
    ensures y in t2.columns && ColumnValues(t2, y) == ColumnValues(t, y)
  {
    var t1 := IncomeRule(t).value;
    t2 := DebtRule(t1).value;
    IncomeRuleFacts(t);
    DebtRuleFacts(t1);
  }

  /** With none of the rules' source columns present the table comes back
      as it was. */
  lemma FeaturesNoRuleApplies(t: Table)
    requires Valid(t)
    requires "annual_inc" !in t.columns && "emp_length" !in t.columns
    requires "dti" !in t.columns || "monthly_income" !in t.columns
    ensures EngineerFeatures(t) == Success(t)
  {
  }

  /** The stage raises exactly when text meets arithmetic that pandas
      carries out: any text in `annual_inc` (rule 1), or, in rule 2, text in
      `dti` or in an input `monthly_income` that rule 1 does not replace,
      in a row where the other factor is present.  The income rule 1 makes
      is present exactly where `annual_inc` is. */
  lemma FeaturesFailIff(t: Table)
    requires Valid(t)
    ensures EngineerFeatures(t).Failure? <==>
              ("annual_inc" in t.columns && !Numeric(ColumnValues(t, "annual_inc")))
              || ("dti" in t.columns && "annual_inc" !in t.columns && "monthly_income" in t.columns
                  && (TextMeetsValue(ColumnValues(t, "monthly_income"), ColumnValues(t, "dti"))
                      || TextMeetsValue(ColumnValues(t, "dti"), ColumnValues(t, "monthly_income"))))
              || ("dti" in t.columns && "annual_inc" in t.columns
                  && TextMeetsValue(ColumnValues(t, "dti"), ColumnValues(t, "annual_inc")))
  {
    if IncomeRule(t).Success? {
      IncomeRuleFacts(t);
      var t1 := IncomeRule(t).value;
      if "dti" in t.columns && "annual_inc" in t.columns {
        var income, dti := ColumnValues(t1, "monthly_income"), ColumnValues(t1, "dti");
        assert dti == ColumnValues(t, "dti");
        assert !TextMeetsValue(income, dti);
        TextMeetsSameGaps(dti, income, ColumnValues(t, "annual_inc"));
      }
    }
  }
}
