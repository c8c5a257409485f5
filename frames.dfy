/** A pandas DataFrame as the scripts use it: an ordered list of distinct
    column names and a sequence of rows, plus the three DataFrame
    operations the core relies on (column assignment, drop, and the
    null-normalising bulk insert of db_normalization.py). */
module Frames {

  import opened Wrappers
  import opened Cells

  datatype Frame = Frame(columns: seq<string>, rows: seq<Row>)

  predicate Distinct(s: seq<string>) {
    forall i, j :: 0 <= i < j < |s| ==> s[i] != s[j]
  }

  function ColumnSet(cols: seq<string>): set<string> {
    set c | c in cols
  }

  /** What read_csv produces: distinct column names (duplicates are renamed
      on read) and every row holding exactly those columns. */
  predicate WellFormed(f: Frame) {
    && Distinct(f.columns)
    && forall i :: 0 <= i < |f.rows| ==> f.rows[i].Keys == ColumnSet(f.columns)
  }

  /** Every name in `sel` is a column of `cols`. */
  predicate Covers(cols: seq<string>, sel: seq<string>) {
    forall c :: c in sel ==> c in cols
  }

  /** Selecting covered columns of a well-formed frame cannot fail on any row. */
  lemma CoveredRowsHaveColumns(f: Frame, sel: seq<string>)
    requires WellFormed(f) && Covers(f.columns, sel)
    ensures forall i :: 0 <= i < |f.rows| ==> HasColumns(f.rows[i], sel)
  {
  }

  /** `cols` without the names in `names`, order kept. */
  function Without(cols: seq<string>, names: seq<string>): (r: seq<string>)
    ensures forall c :: c in r <==> c in cols && c !in names
    ensures Distinct(cols) ==> Distinct(r)
    ensures |r| <= |cols|
  {
    if cols == [] then []
    else if cols[0] in names then Without(cols[1..], names)
    else [cols[0]] + Without(cols[1..], names)
  }

  /** The column list after `df[name] = ...`. */
  function Assigned(cols: seq<string>, name: string): (r: seq<string>)
    ensures forall c :: c in r <==> c in cols || c == name
    ensures Distinct(cols) ==> Distinct(r)
  {
    if name in cols then cols else cols + [name]
  }

  /** `df[name] = vals`: overwrites the column in place when it exists,
      otherwise appends it as the last column. */
  function WithColumn(f: Frame, name: string, vals: seq<Value>): (r: Frame)
    requires WellFormed(f) && |vals| == |f.rows|
    ensures WellFormed(r)
    ensures r.columns == Assigned(f.columns, name)
    ensures name in f.columns ==> r.columns == f.columns
    ensures |r.rows| == |f.rows|
    ensures forall i :: 0 <= i < |r.rows| ==> r.rows[i] == f.rows[i][name := vals[i]]
  {
    var cols := Assigned(f.columns, name);
    assert ColumnSet(cols) == ColumnSet(f.columns) + {name};
    Frame(cols, seq(|f.rows|, i requires 0 <= i < |f.rows| => f.rows[i][name := vals[i]]))
  }

  /** `df.drop(columns=names)`; pandas raises KeyError for a name that is not
      a column, which no caller here can reach. */
  function Drop(f: Frame, names: seq<string>): (r: Frame)
    requires WellFormed(f) && Covers(f.columns, names)
    ensures WellFormed(r)
    ensures r.columns == Without(f.columns, names)
    ensures |r.rows| == |f.rows|
    ensures forall i :: 0 <= i < |r.rows| ==> r.rows[i] == f.rows[i] - ColumnSet(names)
  {
    var cols := Without(f.columns, names);
    assert ColumnSet(cols) == ColumnSet(f.columns) - ColumnSet(names);
    Frame(cols, seq(|f.rows|, i requires 0 <= i < |f.rows| => f.rows[i] - ColumnSet(names)))
  }

  /** `df.values.tolist()`: each row's cells in column order. */
  function Table(f: Frame): (t: seq<seq<Value>>)
    requires WellFormed(f)
    ensures |t| == |f.rows|
    ensures forall i :: 0 <= i < |t| ==> |t[i]| == |f.columns|
    ensures forall i, j :: 0 <= i < |t| && 0 <= j < |f.columns| ==> t[i][j] == f.rows[i][f.columns[j]]
  {
    seq(|f.rows|, i requires 0 <= i < |f.rows| =>
      seq(|f.columns|, j requires 0 <= j < |f.columns| => f.rows[i][f.columns[j]]))
  }

  /** The frame with every cell passed through NullIfMissing. */
  function NormalizeFrame(f: Frame): (r: Frame)
    ensures r.columns == f.columns && |r.rows| == |f.rows|
    ensures forall i :: 0 <= i < |r.rows| ==> r.rows[i].Keys == f.rows[i].Keys
    ensures forall i, c :: 0 <= i < |r.rows| && c in f.rows[i] ==> r.rows[i][c] == NullIfMissing(f.rows[i][c])
  {
    Frame(f.columns, seq(|f.rows|, i requires 0 <= i < |f.rows| =>
      map c | c in f.rows[i] :: NullIfMissing(f.rows[i][c])))
  }

  /** One batched INSERT: the target table, the column list when the
      statement names one, and the rows of values. */
  datatype Insert = Insert(table: string, columns: Option<seq<string>>, values: seq<seq<Value>>)

  /** `pd_data[column] = pd_data[column].apply(...)` for one column. */
  function NormalizeColumn(rows: seq<Row>, c: string): (r: seq<Row>)
    ensures |r| == |rows|
    ensures forall i :: 0 <= i < |r| ==> r[i].Keys == rows[i].Keys
    ensures forall i, d :: 0 <= i < |r| && d in rows[i] ==>
      r[i][d] == if d == c then NullIfMissing(rows[i][d]) else rows[i][d]
  {
    seq(|rows|, i requires 0 <= i < |rows| =>
      if c in rows[i] then rows[i][c := NullIfMissing(rows[i][c])] else rows[i])
  }

  /** Every cell of `rows` is the original cell, normalised when its column
      is in `done`. */
  predicate NormalizedOn(orig: seq<Row>, rows: seq<Row>, done: set<string>) {
    && |rows| == |orig|
    && (forall i :: 0 <= i < |rows| ==> rows[i].Keys == orig[i].Keys)
    && forall i, c :: 0 <= i < |rows| && c in rows[i] ==>
         rows[i][c] == if c in done then NullIfMissing(orig[i][c]) else orig[i][c]
  }

  lemma NormalizeStep(orig: seq<Row>, rows: seq<Row>, done: set<string>, c: string)
    requires NormalizedOn(orig, rows, done) && c !in done
    ensures NormalizedOn(orig, NormalizeColumn(rows, c), done + {c})
  {
    var next := NormalizeColumn(rows, c);
    forall i, d | 0 <= i < |next| && d in next[i]
      ensures next[i][d] == if d in done + {c} then NullIfMissing(orig[i][d]) else orig[i][d]
    {
      assert d in rows[i];
    }
  }

  /** insert_data: normalises the frame column by column, then issues one
      INSERT that lists the columns in frame order. */
  method InsertData(pdData: Frame, dbTableName: string) returns (q: Insert)
    requires WellFormed(pdData)
    ensures q.table == dbTableName && q.columns == Some(pdData.columns)
    ensures |q.values| == |pdData.rows|
    ensures forall i :: 0 <= i < |q.values| ==> |q.values[i]| == |pdData.columns|
    ensures forall i, j :: 0 <= i < |q.values| && 0 <= j < |pdData.columns| ==>
      q.values[i][j] == NullIfMissing(pdData.rows[i][pdData.columns[j]])
  {
    var columns := pdData.columns;
    var rows := pdData.rows;
    ghost var done: set<string> := {};
    for k := 0 to |columns|
      invariant done == ColumnSet(columns[..k])
      invariant NormalizedOn(pdData.rows, rows, done)
    {
      assert columns[..k + 1] == columns[..k] + [columns[k]];
      assert columns[k] !in done;
      NormalizeStep(pdData.rows, rows, done, columns[k]);
      rows := NormalizeColumn(rows, columns[k]);
      done := done + {columns[k]};
    }
    assert columns[..|columns|] == columns;
    q := Insert(dbTableName, Some(columns), Table(Frame(columns, rows)));
  }

  /** Normalising is idempotent: a second pass changes nothing. */
  lemma NormalizeIdempotent(f: Frame)
    ensures NormalizeFrame(NormalizeFrame(f)) == NormalizeFrame(f)
  {
    var once := NormalizeFrame(f);
    var twice := NormalizeFrame(once);
    assert |twice.rows| == |once.rows|;
    forall i | 0 <= i < |once.rows|
      ensures twice.rows[i] == once.rows[i]
    {
      assert twice.rows[i].Keys == once.rows[i].Keys;
    }
  }

  /** After normalising, no cell is NA or '' and every present, non-empty
      cell is unchanged. */
  lemma NormalizeLeavesNoMissing(f: Frame, i: nat, c: string)
    requires i < |f.rows| && c in f.rows[i]
    ensures var v := NormalizeFrame(f).rows[i][c];
      && v != Str("") && !v.NaN?
      && (v == Null <==> IsNa(f.rows[i][c]) || f.rows[i][c] == Str(""))
      && (v != Null ==> v == f.rows[i][c])
  {
  }
}
