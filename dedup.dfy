/** INSERT_TO_PRODUCTION_QUERY of homework_2/basic_sql_operators.py: from
    the staging rows, per product_id, keep the row ranked first by
    list_price descending. SQL leaves the choice among equal prices open,
    so the query is specified by the predicate RankOne; Dedup is one
    result it allows. */
module Dedup {

  import opened Cells

  /** A product_temp row: the seven columns the query projects, with
      list_price as an integer. */
  datatype ProductRow = ProductRow(
    productId: int,
    brand: Value,
    productLine: Value,
    productClass: Value,
    productSize: Value,
    listPrice: int,
    standardCost: Value)

  function Ids(rows: seq<ProductRow>): set<int> {
    set r | r in rows :: r.productId
  }

  /** No two rows share a product_id (the product table's primary key). */
  predicate OnePerId(rows: seq<ProductRow>) {
    forall i, j :: 0 <= i < j < |rows| ==> rows[i].productId != rows[j].productId
  }

  /** `out` is a result of the query on `staging`: staging rows only, one per
      product_id of the staging rows, each with the highest list_price of
      its partition. */
  predicate RankOne(staging: seq<ProductRow>, out: seq<ProductRow>)
  {
    && (forall i :: 0 <= i < |out| ==> out[i] in staging)
    && OnePerId(out)
    && Ids(out) == Ids(staging)
    && (forall i, s :: 0 <= i < |out| && s in staging && s.productId == out[i].productId ==>
          s.listPrice <= out[i].listPrice)
  }

  /** The product_ids of `rows` in order of first appearance. */
  function DistinctIds(rows: seq<ProductRow>): (d: seq<int>)
    ensures forall i, j :: 0 <= i < j < |d| ==> d[i] != d[j]
    ensures forall x :: x in d <==> x in Ids(rows)
    decreases |rows|
  {
    if rows == [] then []
    else
      var front := rows[..|rows| - 1];
      var last := rows[|rows| - 1];
      assert rows == front + [last];
      assert Ids(rows) == Ids(front) + {last.productId};
      var d := DistinctIds(front);
      if last.productId in d then d else d + [last.productId]
  }

  /** The first row of the partition `pid` with the top list_price. */
  function BestFor(rows: seq<ProductRow>, pid: int): (r: ProductRow)
    requires pid in Ids(rows)
    ensures r in rows && r.productId == pid
    ensures forall s :: s in rows && s.productId == pid ==> s.listPrice <= r.listPrice
    decreases |rows|
  {
    assert rows == [rows[0]] + rows[1..];
    if rows[0].productId != pid then BestFor(rows[1..], pid)
    else if pid !in Ids(rows[1..]) then rows[0]
    else
      var b := BestFor(rows[1..], pid);
      if b.listPrice <= rows[0].listPrice then rows[0] else b
  }

  /** One result the query may produce (ties go to the earliest staging row). */
  function Dedup(staging: seq<ProductRow>): (out: seq<ProductRow>)
    ensures RankOne(staging, out)
  {
    var d := DistinctIds(staging);
    var out := seq(|d|, i requires 0 <= i < |d| => BestFor(staging, d[i]));
    assert forall i :: 0 <= i < |out| ==> out[i].productId == d[i];
    assert Ids(out) == Ids(staging) by {
      forall x | x in Ids(staging) ensures x in Ids(out) {
        var i :| 0 <= i < |d| && d[i] == x;
        assert out[i].productId == x;
      }
    }
    out
  }

  lemma {:induction false} IdsBound(rows: seq<ProductRow>)
    ensures |Ids(rows)| <= |rows|
    decreases |rows|
  {
    if rows != [] {
      var front := rows[..|rows| - 1];
      assert rows == front + [rows[|rows| - 1]];
      assert Ids(rows) == Ids(front) + {rows[|rows| - 1].productId};
      IdsBound(front);
    }
  }

  lemma {:induction false} IdsOfOnePerId(rows: seq<ProductRow>)
    requires OnePerId(rows)
    ensures |Ids(rows)| == |rows|
    decreases |rows|
  {
    if rows != [] {
      var front := rows[..|rows| - 1];
      var last := rows[|rows| - 1];
      assert rows == front + [last];
      assert Ids(rows) == Ids(front) + {last.productId};
      assert last.productId !in Ids(front);
      IdsOfOnePerId(front);
    }
  }

  /** The output has exactly one row per distinct staging product_id, so it
      is never longer than the staging table. */
  lemma RankOneSize(staging: seq<ProductRow>, out: seq<ProductRow>)
    requires RankOne(staging, out)
    ensures |out| == |Ids(staging)| && |out| <= |staging|
  {
    IdsOfOnePerId(out);
    IdsBound(staging);
  }

  /** Every staging product_id has its row in the output, and that row's
      price is the top price of its partition. */
  lemma RankOneCovers(staging: seq<ProductRow>, out: seq<ProductRow>, s: ProductRow)
    requires RankOne(staging, out) && s in staging
    ensures exists i :: 0 <= i < |out| && out[i].productId == s.productId && s.listPrice <= out[i].listPrice
  {
    assert s.productId in Ids(out);
    var r :| r in out && r.productId == s.productId;
    var i :| 0 <= i < |out| && out[i] == r;
  }

  /** Whatever tie-break PostgreSQL applies, the surviving product_ids and
      each survivor's price are the same. */
  lemma RankOnePriceDetermined(staging: seq<ProductRow>, a: seq<ProductRow>, b: seq<ProductRow>, i: nat, j: nat)
    requires RankOne(staging, a) && RankOne(staging, b)
    requires i < |a| && j < |b| && a[i].productId == b[j].productId
    ensures a[i].listPrice == b[j].listPrice
  {
    assert a[i] in staging && b[j] in staging;
  }

  /** The predicate does not fix which of two equally priced rows survives. */
  lemma TieBreakOpen()
    ensures var x := ProductRow(1, Str("Solex"), Null, Null, Null, 10, Null);
      var y := ProductRow(1, Str("Norco"), Null, Null, Null, 10, Null);
      RankOne([x, y], [x]) && RankOne([x, y], [y]) && [x] != [y]
  {
    var x := ProductRow(1, Str("Solex"), Null, Null, Null, 10, Null);
    var y := ProductRow(1, Str("Norco"), Null, Null, Null, 10, Null);
    assert Ids([x, y]) == {1};
    assert Ids([x]) == {1} && Ids([y]) == {1};
  }

  /** Staging rows (1, 10), (1, 25), (2, 5) deduplicate to exactly (1, 25)
      and (2, 5). */
  lemma ExampleKeepsHighestPrice(out: seq<ProductRow>)
    requires RankOne([ProductRow(1, Null, Null, Null, Null, 10, Null),
                      ProductRow(1, Null, Null, Null, Null, 25, Null),
                      ProductRow(2, Null, Null, Null, Null, 5, Null)], out)
    ensures |out| == 2
    ensures (set r | r in out) == {ProductRow(1, Null, Null, Null, Null, 25, Null),
                                   ProductRow(2, Null, Null, Null, Null, 5, Null)}
  {
    var a := ProductRow(1, Null, Null, Null, Null, 10, Null);
    var b := ProductRow(1, Null, Null, Null, Null, 25, Null);
    var c := ProductRow(2, Null, Null, Null, Null, 5, Null);
    var staging := [a, b, c];
    assert a in staging && b in staging && c in staging;
    forall i | 0 <= i < |out| ensures out[i] == b || out[i] == c {
      assert out[i] in staging;
      assert b.listPrice > a.listPrice;
    }
    assert 1 in Ids(out) && 2 in Ids(out);
    var ib :| 0 <= ib < |out| && out[ib].productId == 1;
    var ic :| 0 <= ic < |out| && out[ic].productId == 2;
    assert out[ib] == b && out[ic] == c;
    assert Ids(staging) == {1, 2} by {
      forall x | x in Ids(staging) ensures x == 1 || x == 2 {
        var r :| r in staging && r.productId == x;
      }
    }
    RankOneSize(staging, out);
  }

  /** The CHECK constraints on product_class and product_size (NULL passes). */
  predicate SatisfiesChecks(r: ProductRow) {
    && (r.productClass.Null? || r.productClass in {Str("low"), Str("medium"), Str("high")})
    && (r.productSize.Null? || r.productSize in {Str("small"), Str("medium"), Str("large")})
  }

  /** The query only copies staging rows, and the staging table carries the
      same CHECKs, so the product table's CHECKs and primary key hold too. */
  lemma RankOneKeepsConstraints(staging: seq<ProductRow>, out: seq<ProductRow>)
    requires RankOne(staging, out)
    requires forall s :: s in staging ==> SatisfiesChecks(s)
    ensures forall i :: 0 <= i < |out| ==> SatisfiesChecks(out[i])
    ensures OnePerId(out)
  {
  }
}
