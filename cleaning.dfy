/** The cleaning stage (`clean_data`): drop duplicate rows keeping the first,
    then forward-fill missing cells down each column, on a copy. */
module Cleaning {
  import opened Table
  import opened Frames

  /** The table `clean_data` returns. */
  function Clean(t: Table): (r: Table)
    ensures r.columns == t.columns && r.dtypes == t.dtypes
    ensures |r.rows| <= |t.rows|
    ensures t.rows == [] ==> r == t
    ensures Valid(t) && t.columns == [] ==> r == t
    ensures Valid(t) ==> Valid(r)
  {
    CleanValid(t);
    FFillNoColumns(t.rows);
    t.(rows := FFill(DropDuplicateRows(t)))
  }

  /** `clean_data(df)`: the input frame is copied, and only the copy is
      deduplicated and filled in place. */
  method CleanData(df: Frame) returns (r: Frame)
    ensures fresh(r) && r.Value() == Clean(df.Value())
    ensures df.Value() == old(df.Value())
  {
    r := df.Copy();
    r.DropDuplicates();
    r.ForwardFill();
  }

  /** Cleaning keeps a frame well formed: deduplication keeps whole rows of
      the input and forward fill moves cells only down their own column. */
  lemma CleanValid(t: Table)
    ensures Valid(t) ==> Valid(t.(rows := FFill(DropDuplicateRows(t))))
  {
    if !Valid(t) {
      return;
    }
    var w := |t.columns|;
    var d := DropDuplicateRows(t);
    assert Rectangular(d, w) by {
      forall i | 0 <= i < |d| ensures |d[i]| == w {
        assert d[i] in t.rows;
      }
    }
    forall i, k | 0 <= i < |d| && 0 <= k < w
      ensures Fits(t.dtypes[k], FFill(d)[i][k])
    {
      var j := FFillFromColumn(d, w, k, i);
      assert d[j] in t.rows;
    }
  }

  /** After cleaning, a cell is missing exactly when every cell at or above
      it in its column of the deduplicated rows is missing. */
  lemma CleanedMissingIff(t: Table, i: nat, c: nat)
    requires Valid(t) && c < |t.columns| && i < |Clean(t).rows|
    ensures Clean(t).rows[i][c] == Missing <==>
            MissingDownTo(KeepFirst(t.rows), c, i)
  {
    var d := KeepFirst(t.rows);
    assert Rectangular(d, |t.columns|) by {
      forall j | 0 <= j < |d| ensures |d[j]| == |t.columns| {
        assert d[j] in t.rows;
      }
    }
    assert DropDuplicateRows(t) == d;
    assert Clean(t).rows == FFill(d);
    FFillMissingIff(d, |t.columns|, c, i);
  }

  /** A gap in the first row has nothing above it to be filled from and
      survives cleaning. */
  lemma CleanKeepsFirstRowGap(t: Table, c: nat)
    requires Valid(t) && c < |t.columns| && t.rows != []
    requires t.rows[0][c] == Missing
    ensures Clean(t).rows != [] && Clean(t).rows[0][c] == Missing
  {
    var d := KeepFirst(t.rows);
    assert DropDuplicateRows(t) == d;
    KeepFirstIsFirstOccurrences(t.rows);
    var idx := FirstOccurrences(t.rows);
    assert 0 in idx;
    assert idx[0] == 0;
    CleanedMissingIff(t, 0, c);
  }

  /** Cleaning is not idempotent: filling can turn two distinct rows into
      duplicates, which a second pass then drops. */
  lemma CleanNotIdempotent() returns (t: Table)
    ensures Valid(t) && Clean(Clean(t)) != Clean(t)
  {
    var full := [Num(1.0), Num(2.0)];
    var gap := [Num(1.0), Missing];
    t := Table(["a", "b"], [Float64, Float64], [full, gap]);
    assert Valid(t) by {
      assert Distinct(t.columns) by {
        assert t.columns[0] != t.columns[1];
      }
    }
    FillMakesDuplicate(full, gap);
    var c := t.(rows := [full, full]);
    assert Clean(t) == c;
    DuplicateDropped(full);
    assert Clean(c).rows == [full];
  }

  /** The second pass drops the duplicate the first pass made. */
  lemma DuplicateDropped(full: Row)
    ensures KeepFirst([full, full]) == [full]
    ensures FFill([full]) == [full]
  {
    assert [full, full][..1] == [full];
    assert [full][..0] == [];
    assert KeepFirst([full]) == [full];
    assert FillRow([], full) == full;
    assert FFill([full]) == FFill([]) + [FillRow([], full)];
  }

  /** The two rows of the counterexample: distinct before filling, equal
      after. */
  lemma FillMakesDuplicate(full: Row, gap: Row)
    requires full == [Num(1.0), Num(2.0)] && gap == [Num(1.0), Missing]
    ensures KeepFirst([full, gap]) == [full, gap]
    ensures FFill([full, gap]) == [full, full]
  {
    assert [full, gap][..1] == [full];
    assert gap !in [full];
    FFillStep([full, gap], 0);
    assert FillRow([], full) == full;
    FFillStep([full, gap], 1);
    assert FillRow(full, gap) == full;
    assert FFill([full, gap])[0] == full && FFill([full, gap])[1] == full;
  }
}
