/** The tabular values the pipeline stages pass to each other, and the
    pandas operations they use, as functions over those values.

    A data frame is modelled as its column names, one dtype tag per column
    and its rows.  NaN and None are both `Missing`; pandas treats them alike
    in `drop_duplicates` and `fillna`. */
module Table {

  datatype Cell = Missing | Num(v: real) | PosInf | NegInf | Str(s: string)

  /** The dtype tag of a column; `Other` stands for every dtype that is not
      int64 or float64 (object, bool, datetime, category, ...). */
  datatype DType = Int64 | Float64 | Other

  type Row = seq<Cell>

  /** The outcome of a step that raises instead of returning on bad input. */
  datatype Result<T, E> = Success(value: T) | Failure(error: E)

  datatype Table = Table(columns: seq<string>, dtypes: seq<DType>, rows: seq<Row>)

  predicate IsInteger(x: real) {
    x.Floor as real == x
  }

  /** What a column of dtype `d` can hold: an int64 column holds integers only,
      a float64 column holds numbers, infinities and NaN. */
  predicate Fits(d: DType, c: Cell) {
    match d
    case Int64 => c.Num? && IsInteger(c.v)
    case Float64 => !c.Str?
    case Other => true
  }

  predicate Distinct<T(==)>(s: seq<T>) {
    forall i, j :: 0 <= i < j < |s| ==> s[i] != s[j]
  }

  predicate Rectangular(rows: seq<Row>, width: nat) {
    forall i :: 0 <= i < |rows| ==> |rows[i]| == width
  }

  /** A well-formed frame: one dtype per column, unique column names, every
      row as wide as the header, every cell fitting its column's dtype. */
  predicate Valid(t: Table) {
    && |t.dtypes| == |t.columns|
    && Distinct(t.columns)
    && Rectangular(t.rows, |t.columns|)
    && forall i, k :: 0 <= i < |t.rows| && 0 <= k < |t.columns| ==> Fits(t.dtypes[k], t.rows[i][k])
  }

  /** Position of the first `x` in `s`. */
  function IndexOf<T(==)>(s: seq<T>, x: T): (k: nat)
    requires x in s
    ensures k < |s| && s[k] == x
    ensures forall j :: 0 <= j < k ==> s[j] != x
  {
    if s[0] == x then 0 else 1 + IndexOf(s[1..], x)
  }

  /** `df[name]`: the values of one column, top to bottom. */
  function ColumnValues(t: Table, name: string): (col: seq<Cell>)
    requires Valid(t) && name in t.columns
    ensures |col| == |t.rows|
  {
    var k := IndexOf(t.columns, name);
    seq(|t.rows|, i requires 0 <= i < |t.rows| => t.rows[i][k])
  }

  /** `df[name].dtype`. */
  function ColumnDType(t: Table, name: string): DType
    requires Valid(t) && name in t.columns
  {
    t.dtypes[IndexOf(t.columns, name)]
  }

  // ---------------------------------------------------------------------
  // drop_duplicates(keep="first")

  /** The rows of `s` that do not repeat an earlier row, in their order. */
  function KeepFirst(s: seq<Row>): (r: seq<Row>)
    ensures |r| <= |s|
    ensures forall x :: x in r <==> x in s
    ensures Distinct(r)
  {
    if s == [] then []
    else
      var p := KeepFirst(s[..|s| - 1]);
      if s[|s| - 1] in s[..|s| - 1] then p else p + [s[|s| - 1]]
  }

  /** No position before `i` holds the row at `i`. */
  predicate FirstAt(s: seq<Row>, i: nat)
    requires i < |s|
  {
    forall j :: 0 <= j < i ==> s[j] != s[i]
  }

  /** The positions of `s` holding a value that no earlier position holds,
      in increasing order: an index-level description of first occurrences. */
  function FirstOccurrences(s: seq<Row>): (idx: seq<nat>)
    ensures forall k :: 0 <= k < |idx| ==> idx[k] < |s|
    ensures forall k, l :: 0 <= k < l < |idx| ==> idx[k] < idx[l]
    ensures forall i :: 0 <= i < |s| ==> (i in idx <==> FirstAt(s, i))
  {
    if s == [] then []
    else
      var n := |s| - 1;
      var p := FirstOccurrences(s[..n]);
      assert forall i :: 0 <= i < n ==> (FirstAt(s[..n], i) <==> FirstAt(s, i));
      if FirstAt(s, n) then p + [n] else p
  }

  /** Deduplication keeps exactly the first occurrence of each distinct row,
      in the original relative order. */
  lemma {:induction false} KeepFirstIsFirstOccurrences(s: seq<Row>)
    ensures |KeepFirst(s)| == |FirstOccurrences(s)|
    ensures forall k :: 0 <= k < |KeepFirst(s)| ==> KeepFirst(s)[k] == s[FirstOccurrences(s)[k]]
  {
    if s != [] {
      var s' := s[..|s| - 1];
      KeepFirstIsFirstOccurrences(s');
      var p, idx := KeepFirst(s'), FirstOccurrences(s');
      var r, ridx := KeepFirst(s), FirstOccurrences(s);
      assert r == if s[|s| - 1] in s' then p else p + [s[|s| - 1]];
      assert FirstAt(s, |s| - 1) <==> s[|s| - 1] !in s' by {
        assert forall j :: 0 <= j < |s'| ==> s'[j] == s[j];
      }
      assert ridx == if s[|s| - 1] in s' then idx else idx + [|s| - 1];
      forall k | 0 <= k < |p| ensures p[k] == s[idx[k]] {
        assert s'[idx[k]] == s[idx[k]];
      }
    }
  }

  /** A sequence without repetitions is left as it is, so deduplicating twice
      is the same as deduplicating once. */
  lemma {:induction false} KeepFirstOfDistinct(s: seq<Row>)
    requires Distinct(s)
    ensures KeepFirst(s) == s
  {
    if s != [] {
      var s' := s[..|s| - 1];
      KeepFirstOfDistinct(s');
      assert s[|s| - 1] !in s' by {
        forall j | 0 <= j < |s'| ensures s'[j] != s[|s| - 1] {
          assert s'[j] == s[j];
        }
      }
      assert s' + [s[|s| - 1]] == s;
    }
  }

  /** `df.drop_duplicates()`: pandas returns an empty frame, one without rows
      or without columns, as it is; otherwise the first occurrence of each
      row is kept. */
  function DropDuplicateRows(t: Table): (rows: seq<Row>)
    ensures |rows| <= |t.rows|
    ensures forall r :: r in rows <==> r in t.rows
    ensures t.columns != [] ==> Distinct(rows)
    ensures t.columns == [] ==> rows == t.rows
  {
    if t.columns == [] || t.rows == [] then t.rows else KeepFirst(t.rows)
  }

  // ---------------------------------------------------------------------
  // fillna(method="ffill")

  /** One forward-fill step: a missing cell takes the value of the same column
      in the already-filled row above it. */
  function FillRow(prev: Row, row: Row): Row {
    seq(|row|, c requires 0 <= c < |row| => if row[c] == Missing && c < |prev| then prev[c] else row[c])
  }

  /** Rows without cells have nothing to fill. */
  lemma FFillNoColumns(s: seq<Row>)
    ensures Rectangular(s, 0) ==> FFill(s) == s
  {
    if Rectangular(s, 0) {
      assert forall i :: 0 <= i < |s| ==> FFill(s)[i] == s[i];
    }
  }

  /** Forward fill down every column: the rows are scanned top to bottom and
      each row is filled from the filled row above it. */
  function FFill(s: seq<Row>): (r: seq<Row>)
    ensures |r| == |s|
    ensures forall i :: 0 <= i < |s| ==> |r[i]| == |s[i]|
    ensures forall i, c :: 0 <= i < |s| && 0 <= c < |s[i]| && s[i][c] != Missing ==> r[i][c] == s[i][c]
  {
    if s == [] then []
    else
      var p := FFill(s[..|s| - 1]);
      p + [FillRow(if p == [] then [] else p[|p| - 1], s[|s| - 1])]
  }

  /** Row `i` of the filled rows is row `i` of the input filled from the
      filled row above it (from nothing for the first row). */
  lemma {:induction false} FFillStep(s: seq<Row>, i: nat)
    requires i < |s|
    ensures FFill(s)[i] == FillRow(if i == 0 then [] else FFill(s)[i - 1], s[i])
  {
    if i < |s| - 1 {
      var s' := s[..|s| - 1];
      FFillStep(s', i);
      assert FFill(s)[..|s| - 1] == FFill(s');
      assert s'[i] == s[i];
    }
  }

  /** A missing cell takes the value of the nearest earlier non-missing cell
      of its column. */
  lemma {:induction false} FFillNearest(s: seq<Row>, w: nat, c: nat, j: nat, i: nat)
    requires Rectangular(s, w) && c < w
    requires j <= i < |s|
    requires s[j][c] != Missing
    requires forall k :: j < k <= i ==> s[k][c] == Missing
    ensures FFill(s)[i][c] == s[j][c]
  {
    if i > j {
      FFillNearest(s, w, c, j, i - 1);
      FFillStep(s, i);
    }
  }

  /** Column `c` is missing in rows `0` to `i` of `s`. */
  predicate MissingDownTo(s: seq<Row>, c: nat, i: nat) {
    forall j :: 0 <= j <= i ==> j < |s| && c < |s[j]| && s[j][c] == Missing
  }

  /** A cell is missing after forward fill exactly when it and every cell
      above it in its column were missing. */
  lemma {:induction false} FFillMissingIff(s: seq<Row>, w: nat, c: nat, i: nat)
    requires Rectangular(s, w) && c < w
    requires i < |s|
    ensures FFill(s)[i][c] == Missing <==> MissingDownTo(s, c, i)
  {
    FFillStep(s, i);
    if i > 0 {
      FFillMissingIff(s, w, c, i - 1);
    }
  }

  /** Every filled cell is a value found at or above it in the same column. */
  lemma {:induction false} FFillFromColumn(s: seq<Row>, w: nat, c: nat, i: nat) returns (j: nat)
    requires Rectangular(s, w) && c < w
    requires i < |s|
    ensures j <= i && FFill(s)[i][c] == s[j][c]
  {
    FFillStep(s, i);
    if s[i][c] != Missing || i == 0 {
      j := i;
    } else {
      j := FFillFromColumn(s, w, c, i - 1);
    }
  }

  // ---------------------------------------------------------------------
  // df[name] = values

  /** Column assignment: an existing column is overwritten where it stands
      (taking the new dtype), a new one is appended on the right. */
  function WithColumn(t: Table, name: string, d: DType, values: seq<Cell>): (r: Table)
    requires Valid(t) && |values| == |t.rows|
    ensures r.columns == if name in t.columns then t.columns else t.columns + [name]
    ensures |r.dtypes| == |r.columns| && Rectangular(r.rows, |r.columns|) && |r.rows| == |t.rows|
    ensures r.dtypes[IndexOf(r.columns, name)] == d
    ensures forall i :: 0 <= i < |t.rows| ==> r.rows[i][IndexOf(r.columns, name)] == values[i]
    ensures forall k :: 0 <= k < |t.columns| && t.columns[k] != name ==> r.dtypes[k] == t.dtypes[k]
    ensures forall i, k :: 0 <= i < |t.rows| && 0 <= k < |t.columns| && t.columns[k] != name ==> r.rows[i][k] == t.rows[i][k]
    ensures (forall i :: 0 <= i < |values| ==> Fits(d, values[i])) ==> Valid(r)
  {
    if name in t.columns then ReplaceColumn(t, IndexOf(t.columns, name), d, values)
    else
      var r := AppendColumn(t, name, d, values);
      assert forall j :: 0 <= j < |t.columns| ==> r.columns[j] == t.columns[j];
      assert IndexOf(r.columns, name) == |t.columns|;
      r
  }

  /** Column `k` overwritten with `values` and retyped to `d`. */
  function ReplaceColumn(t: Table, k: nat, d: DType, values: seq<Cell>): (r: Table)
    requires Valid(t) && k < |t.columns| && |values| == |t.rows|
    ensures r.columns == t.columns && r.dtypes == t.dtypes[k := d] && |r.rows| == |t.rows|
    ensures forall i :: 0 <= i < |t.rows| ==> r.rows[i] == t.rows[i][k := values[i]]
    ensures (forall i :: 0 <= i < |values| ==> Fits(d, values[i])) ==> Valid(r)
  {
    Table(t.columns, t.dtypes[k := d], seq(|t.rows|, i requires 0 <= i < |t.rows| => t.rows[i][k := values[i]]))
  }

  /** A new last column `name` holding `values`. */
  function AppendColumn(t: Table, name: string, d: DType, values: seq<Cell>): (r: Table)
    requires Valid(t) && name !in t.columns && |values| == |t.rows|
    ensures r.columns == t.columns + [name] && r.dtypes == t.dtypes + [d] && |r.rows| == |t.rows|
    ensures forall i :: 0 <= i < |t.rows| ==> r.rows[i] == t.rows[i] + [values[i]]
    ensures (forall i :: 0 <= i < |values| ==> Fits(d, values[i])) ==> Valid(r)
  {
    var r := Table(t.columns + [name], t.dtypes + [d], seq(|t.rows|, i requires 0 <= i < |t.rows| => t.rows[i] + [values[i]]));
    assert Distinct(r.columns) by {
      assert forall j :: 0 <= j < |t.columns| ==> r.columns[j] == t.columns[j];
    }
    r
  }

  /** After `df[name] = values`, the named column holds `values` and every
      other column holds what it held before. */
  lemma WithColumnValues(t: Table, name: string, d: DType, values: seq<Cell>, x: string)
    requires Valid(t) && |values| == |t.rows|
    requires forall i :: 0 <= i < |values| ==> Fits(d, values[i])
    requires x == name || x in t.columns
    ensures x in WithColumn(t, name, d, values).columns
    ensures ColumnValues(WithColumn(t, name, d, values), x) == if x == name then values else ColumnValues(t, x)
    ensures ColumnDType(WithColumn(t, name, d, values), x) == if x == name then d else ColumnDType(t, x)
  {
    var r := WithColumn(t, name, d, values);
    if x != name {
      IndexOfPrefix(t.columns, r.columns, x);
    }
  }

  lemma {:induction false} IndexOfPrefix<T>(s: seq<T>, s': seq<T>, x: T)
    requires x in s && |s| <= |s'| && s'[..|s|] == s
    ensures x in s' && IndexOf(s', x) == IndexOf(s, x)
  {
    assert s'[0] == s[0];
    if s[0] != x {
      assert s'[1..][..|s| - 1] == s[1..];
      IndexOfPrefix(s[1..], s'[1..], x);
    }
  }

  // ---------------------------------------------------------------------
  // Column and row selection

  /** The columns at positions `keep`, in that order. */
  function Project(t: Table, keep: seq<nat>): (r: Table)
    requires Valid(t)
    requires forall j :: 0 <= j < |keep| ==> keep[j] < |t.columns|
    ensures |r.columns| == |keep| && |r.dtypes| == |keep| && |r.rows| == |t.rows|
    ensures forall j :: 0 <= j < |keep| ==> r.columns[j] == t.columns[keep[j]] && r.dtypes[j] == t.dtypes[keep[j]]
    ensures forall i :: 0 <= i < |t.rows| ==> |r.rows[i]| == |keep|
    ensures forall i, j :: 0 <= i < |t.rows| && 0 <= j < |keep| ==> r.rows[i][j] == t.rows[i][keep[j]]
    ensures (forall j, l :: 0 <= j < l < |keep| ==> keep[j] < keep[l]) ==> Valid(r)
  {
    ProjectValid(t, keep);
    Table(seq(|keep|, j requires 0 <= j < |keep| => t.columns[keep[j]]),
          seq(|keep|, j requires 0 <= j < |keep| => t.dtypes[keep[j]]),
          seq(|t.rows|, i requires 0 <= i < |t.rows| =>
            seq(|keep|, j requires 0 <= j < |keep| => t.rows[i][keep[j]])))
  }

  lemma ProjectValid(t: Table, keep: seq<nat>)
    requires Valid(t)
    requires forall j :: 0 <= j < |keep| ==> keep[j] < |t.columns|
    ensures var r := Table(seq(|keep|, j requires 0 <= j < |keep| => t.columns[keep[j]]),
                           seq(|keep|, j requires 0 <= j < |keep| => t.dtypes[keep[j]]),
                           seq(|t.rows|, i requires 0 <= i < |t.rows| =>
                             seq(|keep|, j requires 0 <= j < |keep| => t.rows[i][keep[j]])));
            (forall j, l :: 0 <= j < l < |keep| ==> keep[j] < keep[l]) ==> Valid(r)
  {
    var columns := seq(|keep|, j requires 0 <= j < |keep| => t.columns[keep[j]]);
    if forall j, l :: 0 <= j < l < |keep| ==> keep[j] < keep[l] {
      forall j, l | 0 <= j < l < |keep| ensures columns[j] != columns[l] {
        assert keep[j] < keep[l];
      }
    }
  }

  /** `df.iloc[idx]`: the rows at positions `idx`, in that order. */
  function TakeRows(t: Table, idx: seq<nat>): (r: Table)
    requires forall k :: 0 <= k < |idx| ==> idx[k] < |t.rows|
    ensures r.columns == t.columns && r.dtypes == t.dtypes && |r.rows| == |idx|
    ensures forall k :: 0 <= k < |idx| ==> r.rows[k] == t.rows[idx[k]]
    ensures Valid(t) ==> Valid(r)
  {
    t.(rows := seq(|idx|, k requires 0 <= k < |idx| => t.rows[idx[k]]))
  }

  /** `y.iloc[idx]`: the cells at positions `idx`, in that order. */
  function TakeCells(s: seq<Cell>, idx: seq<nat>): (r: seq<Cell>)
    requires forall k :: 0 <= k < |idx| ==> idx[k] < |s|
    ensures |r| == |idx| && forall k :: 0 <= k < |idx| ==> r[k] == s[idx[k]]
  {
    seq(|idx|, k requires 0 <= k < |idx| => s[idx[k]])
  }

  // ---------------------------------------------------------------------
  // replace([inf, -inf], nan) and fillna(value)

  /** The same function applied to every cell. */
  function MapCells(rows: seq<Row>, f: Cell -> Cell): (r: seq<Row>)
    ensures |r| == |rows|
    ensures forall i :: 0 <= i < |rows| ==> |r[i]| == |rows[i]|
    ensures forall i, c :: 0 <= i < |rows| && 0 <= c < |rows[i]| ==> r[i][c] == f(rows[i][c])
  {
    seq(|rows|, i requires 0 <= i < |rows| =>
      seq(|rows[i]|, c requires 0 <= c < |rows[i]| => f(rows[i][c])))
  }

  function InfToMissing(c: Cell): Cell {
    if c.PosInf? || c.NegInf? then Missing else c
  }

  function MissingToZero(c: Cell): Cell {
    if c == Missing then Num(0.0) else c
  }
}
