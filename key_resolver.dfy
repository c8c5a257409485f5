/** get_ids_by_composite_key: the map from composite-key token to surrogate
    id, built from the rows of a dimension table. The SELECT itself is not
    modelled; its result is the sequence of fetched rows. */
module KeyResolver {

  import opened Wrappers
  import opened Cells
  import opened CompositeKey

  /** A row of `SELECT id, <key columns> FROM <table>`. */
  datatype Fetched = Fetched(id: int, cells: Row)

  /** Token to id. A key-column name seeded by dict.fromkeys maps to None. */
  type KeyMap = map<string, Option<int>>

  /** Every fetched row carries every key column, as the SELECT guarantees. */
  predicate Selected(rows: seq<Fetched>, cols: seq<string>) {
    forall i :: 0 <= i < |rows| ==> HasColumns(rows[i].cells, cols)
  }

  function TokenAt(rows: seq<Fetched>, cols: seq<string>, i: nat): string
    requires Selected(rows, cols) && i < |rows|
  {
    RowToken(rows[i].cells, cols)
  }

  /** `dict.fromkeys(columns)`. */
  function Seed(cols: seq<string>): (m: KeyMap)
    ensures forall k :: k in m <==> k in cols
    ensures forall k :: k in m ==> m[k] == None
  {
    map c | c in cols :: None
  }

  /** `for row in rows: result[token(row)] = row['id']`, starting from `start`. */
  function Fold(start: KeyMap, cols: seq<string>, rows: seq<Fetched>): (m: KeyMap)
    requires Selected(rows, cols)
    ensures start.Keys <= m.Keys
    ensures forall i :: 0 <= i < |rows| ==> TokenAt(rows, cols, i) in m
    decreases |rows|
  {
    if rows == [] then start
    else
      var n := |rows| - 1;
      assert forall i :: 0 <= i < n ==> TokenAt(rows[..n], cols, i) == TokenAt(rows, cols, i);
      Fold(start, cols, rows[..n])[TokenAt(rows, cols, n) := Some(rows[n].id)]
  }

  /** The map get_ids_by_composite_key returns. */
  function KeyMapOf(cols: seq<string>, rows: seq<Fetched>): (m: KeyMap)
    requires Selected(rows, cols)
    ensures forall c :: c in cols ==> c in m
    ensures forall i :: 0 <= i < |rows| ==> TokenAt(rows, cols, i) in m
  {
    Fold(Seed(cols), cols, rows)
  }

  /** The same map built from an empty dictionary: every entry is a real id. */
  function CorrectedKeyMapOf(cols: seq<string>, rows: seq<Fetched>): (m: KeyMap)
    requires Selected(rows, cols)
    ensures forall t :: t in m ==> m[t].Some?
  {
    FoldFromEmptyHoldsIds(cols, rows);
    Fold(map[], cols, rows)
  }

  lemma {:induction false} FoldFromEmptyHoldsIds(cols: seq<string>, rows: seq<Fetched>)
    requires Selected(rows, cols)
    ensures forall t :: t in Fold(map[], cols, rows) ==> Fold(map[], cols, rows)[t].Some?
    decreases |rows|
  {
    if rows != [] {
      FoldFromEmptyHoldsIds(cols, rows[..|rows| - 1]);
    }
  }

  /** Index of the last fetched row whose token is `t`, or -1 if none is. */
  function LastIndex(rows: seq<Fetched>, cols: seq<string>, t: string): (j: int)
    requires Selected(rows, cols)
    ensures -1 <= j < |rows|
    ensures j >= 0 ==> TokenAt(rows, cols, j) == t
    ensures forall k :: j < k < |rows| ==> TokenAt(rows, cols, k) != t
    decreases |rows|
  {
    if rows == [] then -1
    else if TokenAt(rows, cols, |rows| - 1) == t then |rows| - 1
    else
      var j := LastIndex(rows[..|rows| - 1], cols, t);
      assert forall k :: 0 <= k < |rows| - 1 ==> TokenAt(rows[..|rows| - 1], cols, k) == TokenAt(rows, cols, k);
      j
  }

  /** What the fold holds under any token: the last write, else the seed. */
  lemma {:induction false} FoldAt(start: KeyMap, cols: seq<string>, rows: seq<Fetched>, t: string)
    requires Selected(rows, cols)
    ensures var m := Fold(start, cols, rows); var j := LastIndex(rows, cols, t);
      && (t in m <==> t in start || j >= 0)
      && (j >= 0 ==> m[t] == Some(rows[j].id))
      && (j < 0 && t in start ==> m[t] == start[t])
    decreases |rows|
  {
    if rows != [] {
      var n := |rows| - 1;
      var front := rows[..n];
      var tok := TokenAt(rows, cols, n);
      assert Fold(start, cols, rows) == Fold(start, cols, front)[tok := Some(rows[n].id)];
      FoldAt(start, cols, front, t);
      if tok == t {
        assert LastIndex(rows, cols, t) == n;
      } else {
        var j := LastIndex(front, cols, t);
        assert LastIndex(rows, cols, t) == j;
        assert j >= 0 ==> front[j] == rows[j];
      }
    }
  }

  /** get_ids_by_composite_key: seed with the column names, then one write
      per fetched row. */
  method GetIdsByCompositeKey(columns: seq<string>, rows: seq<Fetched>) returns (result: KeyMap)
    requires Selected(rows, columns)
    ensures result == KeyMapOf(columns, rows)
  {
    result := map c | c in columns :: None;
    for n := 0 to |rows|
      invariant result == Fold(Seed(columns), columns, rows[..n])
    {
      var row := rows[n];
      assert rows[..n + 1][..n] == rows[..n];
      assert TokenAt(rows[..n + 1], columns, n) == RowToken(row.cells, columns);
      result := result[RowToken(row.cells, columns) := Some(row.id)];
    }
    assert rows[..|rows|] == rows;
  }

  /** Every key is a seeded column name or the token of a fetched row. */
  lemma KeyMapKeys(cols: seq<string>, rows: seq<Fetched>, t: string)
    requires Selected(rows, cols)
    ensures t in KeyMapOf(cols, rows) <==>
      t in cols || exists i :: 0 <= i < |rows| && TokenAt(rows, cols, i) == t
  {
    FoldAt(Seed(cols), cols, rows, t);
    var j := LastIndex(rows, cols, t);
    if j >= 0 {
      assert TokenAt(rows, cols, j) == t;
    }
  }

  /** Last write wins: a row's token maps to the id of the last fetched row
      with that token, which is this row or a later one. */
  lemma LastWriteWins(cols: seq<string>, rows: seq<Fetched>, i: nat)
    requires Selected(rows, cols) && i < |rows|
    ensures var t := TokenAt(rows, cols, i); var j := LastIndex(rows, cols, t);
      && i <= j
      && t in KeyMapOf(cols, rows)
      && KeyMapOf(cols, rows)[t] == Some(rows[j].id)
      && forall k :: j < k < |rows| ==> TokenAt(rows, cols, k) != t
  {
    FoldAt(Seed(cols), cols, rows, TokenAt(rows, cols, i));
  }

  /** With pairwise different tokens every row's token maps to its own id. */
  lemma OwnIdWhenTokensUnique(cols: seq<string>, rows: seq<Fetched>, i: nat)
    requires Selected(rows, cols) && i < |rows|
    requires forall a, b :: 0 <= a < b < |rows| ==> TokenAt(rows, cols, a) != TokenAt(rows, cols, b)
    ensures TokenAt(rows, cols, i) in KeyMapOf(cols, rows)
    ensures KeyMapOf(cols, rows)[TokenAt(rows, cols, i)] == Some(rows[i].id)
  {
    LastWriteWins(cols, rows, i);
  }

  /** A seeded column name keeps None unless some row's token equals it. */
  lemma SeededNameStaysNull(cols: seq<string>, rows: seq<Fetched>, c: string)
    requires Selected(rows, cols) && c in cols
    requires forall i :: 0 <= i < |rows| ==> TokenAt(rows, cols, i) != c
    ensures c in KeyMapOf(cols, rows) && KeyMapOf(cols, rows)[c] == None
  {
    FoldAt(Seed(cols), cols, rows, c);
  }

  /** The map from an empty start holds exactly the fetched tokens, each
      bound to an id (never None). */
  lemma CorrectedKeysAreTokens(cols: seq<string>, rows: seq<Fetched>, t: string)
    requires Selected(rows, cols)
    ensures t in CorrectedKeyMapOf(cols, rows) <==> exists i :: 0 <= i < |rows| && TokenAt(rows, cols, i) == t
    ensures t in CorrectedKeyMapOf(cols, rows) ==>
      var j := LastIndex(rows, cols, t); j >= 0 && CorrectedKeyMapOf(cols, rows)[t] == Some(rows[j].id)
  {
    FoldAt(map[], cols, rows, t);
    var j := LastIndex(rows, cols, t);
    if j >= 0 {
      assert TokenAt(rows, cols, j) == t;
    }
  }

  /** The returned map is the seed overridden by the corrected map. */
  lemma KeyMapIsSeedPlusCorrected(cols: seq<string>, rows: seq<Fetched>)
    requires Selected(rows, cols)
    ensures KeyMapOf(cols, rows) == Seed(cols) + CorrectedKeyMapOf(cols, rows)
  {
    var m := KeyMapOf(cols, rows);
    var u := Seed(cols) + CorrectedKeyMapOf(cols, rows);
    forall t
      ensures t in m <==> t in u
      ensures t in m ==> m[t] == u[t]
    {
      FoldAt(Seed(cols), cols, rows, t);
      FoldAt(map[], cols, rows, t);
    }
  }
}
