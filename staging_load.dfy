/** The load loop of homework_2/basic_sql_operators.py: every CSV is bulk
    inserted positionally, product rows going to the staging table, after
    '' and NA cells have been turned into None. */
module StagingLoad {

  import opened Wrappers
  import opened Cells
  import opened Frames

  /** `data.replace('', None)`. */
  function ReplaceEmpty(f: Frame): (r: Frame)
    ensures r.columns == f.columns && |r.rows| == |f.rows|
    ensures forall i :: 0 <= i < |r.rows| ==> r.rows[i].Keys == f.rows[i].Keys
    ensures forall i, c :: 0 <= i < |r.rows| && c in f.rows[i] ==>
      r.rows[i][c] == if f.rows[i][c] == Str("") then Null else f.rows[i][c]
  {
    Frame(f.columns, seq(|f.rows|, i requires 0 <= i < |f.rows| =>
      map c | c in f.rows[i] :: if f.rows[i][c] == Str("") then Null else f.rows[i][c]))
  }

  /** `data.where(pd.notna(data), None)`. */
  function WhereNotNa(f: Frame): (r: Frame)
    ensures r.columns == f.columns && |r.rows| == |f.rows|
    ensures forall i :: 0 <= i < |r.rows| ==> r.rows[i].Keys == f.rows[i].Keys
    ensures forall i, c :: 0 <= i < |r.rows| && c in f.rows[i] ==>
      r.rows[i][c] == if IsNa(f.rows[i][c]) then Null else f.rows[i][c]
  {
    Frame(f.columns, seq(|f.rows|, i requires 0 <= i < |f.rows| =>
      map c | c in f.rows[i] :: if IsNa(f.rows[i][c]) then Null else f.rows[i][c]))
  }

  /** Both scripts normalise nulls alike: replace-then-where is insert_data's
      per-cell rule. */
  lemma CleanIsNormalize(f: Frame)
    ensures WhereNotNa(ReplaceEmpty(f)) == NormalizeFrame(f)
  {
    var a := WhereNotNa(ReplaceEmpty(f));
    var b := NormalizeFrame(f);
    assert |a.rows| == |b.rows|;
    forall i | 0 <= i < |a.rows|
      ensures a.rows[i] == b.rows[i]
    {
      assert a.rows[i].Keys == b.rows[i].Keys;
    }
  }

  /** After the load loop's normalisation no cell is '' or NA, and every
      other cell keeps its value. */
  lemma CleanLeavesNoMissing(f: Frame, i: nat, c: string)
    requires i < |f.rows| && c in f.rows[i]
    ensures var v := WhereNotNa(ReplaceEmpty(f)).rows[i][c];
      && v != Str("") && !v.NaN?
      && (v == Null <==> IsNa(f.rows[i][c]) || f.rows[i][c] == Str(""))
      && (v != Null ==> v == f.rows[i][c])
  {
  }

  /** Lines 128-139: one positional INSERT per table, in order; product rows
      go to the staging table product_temp, every other table keeps its name. */
  method LoadTables(tables: seq<(string, Frame)>) returns (inserts: seq<Insert>)
    requires forall n :: 0 <= n < |tables| ==> WellFormed(tables[n].1)
    ensures |inserts| == |tables|
    ensures forall n :: 0 <= n < |tables| ==>
      && inserts[n].table == (if tables[n].0 == "product" then "product_temp" else tables[n].0)
      && inserts[n].columns == None
      && |inserts[n].values| == |tables[n].1.rows|
      && forall i :: 0 <= i < |tables[n].1.rows| ==> |inserts[n].values[i]| == |tables[n].1.columns|
    ensures forall n, i, j :: 0 <= n < |tables| && 0 <= i < |tables[n].1.rows| && 0 <= j < |tables[n].1.columns| ==>
      && j < |inserts[n].values[i]| && tables[n].1.columns[j] in tables[n].1.rows[i]
      && inserts[n].values[i][j] == NullIfMissing(tables[n].1.rows[i][tables[n].1.columns[j]])
  {
    inserts := [];
    for n := 0 to |tables|
      invariant |inserts| == n
      invariant forall h :: 0 <= h < n ==>
        && inserts[h].table == (if tables[h].0 == "product" then "product_temp" else tables[h].0)
        && inserts[h].columns == None
        && inserts[h].values == Table(NormalizeFrame(tables[h].1))
    {
      var tableName := tables[n].0;
      var data := tables[n].1;
      if tableName == "product" {
        tableName := "product_temp";
      }
      data := ReplaceEmpty(data);
      data := WhereNotNa(data);
      CleanIsNormalize(tables[n].1);
      inserts := inserts + [Insert(tableName, None, Table(data))];
    }
  }
}
