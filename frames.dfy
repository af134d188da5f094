/** A pandas DataFrame as a mutable object: the stages copy their input
    frame and then change the copy in place. */
module Frames {
  import opened Table

  class Frame {
    var columns: seq<string>
    var dtypes: seq<DType>
    var rows: seq<Row>

    /** The frame's current contents as a value. */
    function Value(): Table
      reads this
    {
      Table(columns, dtypes, rows)
    }

    constructor (t: Table)
      ensures Value() == t
    {
      columns, dtypes, rows := t.columns, t.dtypes, t.rows;
    }

    /** `df.copy()`: a new frame with the same contents; later changes to
        either frame do not reach the other. */
    method Copy() returns (f: Frame)
      ensures fresh(f) && f.Value() == Value()
    {
      f := new Frame(Value());
    }

    /** `df.drop_duplicates(inplace=True)`: an empty frame is left as it is;
        otherwise a scan keeps a row only when no earlier row is equal to it. */
    method DropDuplicates()
      modifies this
      ensures columns == old(columns) && dtypes == old(dtypes)
      ensures rows == DropDuplicateRows(old(Value()))
    {
      if columns == [] || rows == [] {
        return;
      }
      var kept: seq<Row> := [];
      var i := 0;
      while i < |rows|
        invariant 0 <= i <= |rows|
        invariant kept == KeepFirst(rows[..i])
      {
        assert rows[..i + 1][..i] == rows[..i];
        if rows[i] !in kept {
          kept := kept + [rows[i]];
        }
        i := i + 1;
      }
      assert rows[..i] == rows;
      rows := kept;
    }

    /** `df.fillna(method="ffill", inplace=True)`: a top-to-bottom scan that
        carries the last filled row and fills each missing cell from it. */
    method ForwardFill()
      modifies this
      ensures columns == old(columns) && dtypes == old(dtypes)
      ensures rows == FFill(old(rows))
    {
      var filled: seq<Row> := [];
      var last: Row := [];
      var i := 0;
      while i < |rows|
        invariant 0 <= i <= |rows|
        invariant filled == FFill(rows[..i])
        invariant last == if i == 0 then [] else filled[i - 1]
      {
        assert rows[..i + 1][..i] == rows[..i];
        last := FillRow(last, rows[i]);
        filled := filled + [last];
        i := i + 1;
      }
      assert rows[..i] == rows;
      rows := filled;
    }

    /** `df[name] = values`. */
    method SetColumn(name: string, d: DType, values: seq<Cell>)
      requires Valid(Value()) && |values| == |rows|
      modifies this
      ensures Value() == WithColumn(old(Value()), name, d, values)
    {
      var t := WithColumn(Value(), name, d, values);
      columns, dtypes, rows := t.columns, t.dtypes, t.rows;
    }

    /** `df.replace([inf, -inf], nan, inplace=True)`. */
    method ReplaceInfinities()
      modifies this
      ensures columns == old(columns) && dtypes == old(dtypes)
      ensures rows == MapCells(old(rows), InfToMissing)
    {
      rows := MapCells(rows, InfToMissing);
    }

    /** `df.fillna(0, inplace=True)`. */
    method FillMissingWithZero()
      modifies this
      ensures columns == old(columns) && dtypes == old(dtypes)
      ensures rows == MapCells(old(rows), MissingToZero)
    {
      rows := MapCells(rows, MissingToZero);
    }
  }
}
