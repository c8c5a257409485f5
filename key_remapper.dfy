/** The remapping steps of db_normalization.py: each dependent row's natural
    key is turned into a token by an inline f-string, looked up in a map
    built by get_ids_by_composite_key, and stored as a surrogate-key column;
    the natural-key columns are then dropped before the bulk insert. */
module KeyRemapper {

  import opened Wrappers
  import opened Cells
  import opened Frames
  import opened CompositeKey
  import opened KeyResolver

  /** The exceptions that abort the run: a token missing from a key map,
      or selected columns missing from the frame (both KeyError). */
  datatype Error = KeyNotFound(token: string) | MissingColumns(names: seq<string>)

  /** The key lists the script passes to get_ids_by_composite_key. */
  const JobColumns: seq<string> := ["job_title", "job_industry_category", "wealth_segment"]
  const PostalColumns: seq<string> := ["postcode", "state"]
  const ProductColumns: seq<string> :=
    ["product_number", "brand", "product_line", "product_class", "product_size"]

  /** The transaction columns that name a product; `product_id` here is the
      product number, not the product table's id. */
  const ProductReference: seq<string> :=
    ["product_id", "brand", "product_line", "product_class", "product_size"]

  const CustomerDropped: seq<string> :=
    ["job_title", "job_industry_category", "wealth_segment", "postcode", "state"]
  const TransactionDropped: seq<string> := ["brand", "product_line", "product_class", "product_size"]

  /** The three inline lookups: job and postal object for customers,
      product for transactions. */
  datatype Lookup = JobLookup | PostalLookup | ProductLookup

  /** The columns each lookup selects from the dependent frame. */
  function Selection(k: Lookup): seq<string> {
    match k
    case JobLookup => JobColumns
    case PostalLookup => PostalColumns
    case ProductLookup => ProductReference
  }

  /** One f-string field `{x[c] if x[c] else "_"}`. */
  function Field(v: Value): (r: string)
    ensures r == Part(v)
  {
    Render(if Truthy(v) then v else Str("_"))
  }

  /** The key the lambda builds, written as the f-string writes it. */
  function InlineToken(k: Lookup, x: Row): (r: string)
    requires HasColumns(x, Selection(k))
    ensures |r| >= 2 * |Selection(k)| - 1
  {
    match k
    case JobLookup =>
      Field(x["job_title"]) + "_" + Field(x["job_industry_category"]) + "_" + Field(x["wealth_segment"])
    case PostalLookup =>
      Field(x["postcode"]) + "_" + Field(x["state"])
    case ProductLookup =>
      Field(x["product_id"]) + "_" + Field(x["brand"]) + "_" + Field(x["product_line"]) + "_"
        + Field(x["product_class"]) + "_" + Field(x["product_size"])
  }

  lemma JoinParts(ps: seq<string>)
    requires |ps| >= 2
    ensures Join(ps) == ps[0] + "_" + Join(ps[1..])
  {
  }

  /** The customer job lambda (lines 188-192) builds the resolver's token. */
  lemma JobTokenAgrees(x: Row)
    requires HasColumns(x, JobColumns)
    ensures InlineToken(JobLookup, x) == RowToken(x, JobColumns)
  {
    var ps := Parts(Project(x, JobColumns));
    assert ps == [Field(x["job_title"]), Field(x["job_industry_category"]), Field(x["wealth_segment"])];
    JoinParts(ps);
    JoinParts(ps[1..]);
    assert ps[1..][1..] == [ps[2]];
  }

  /** The customer postal lambda (lines 200-203) builds the resolver's token. */
  lemma PostalTokenAgrees(x: Row)
    requires HasColumns(x, PostalColumns)
    ensures InlineToken(PostalLookup, x) == RowToken(x, PostalColumns)
  {
    var ps := Parts(Project(x, PostalColumns));
    assert ps == [Field(x["postcode"]), Field(x["state"])];
    JoinParts(ps);
    assert ps[1..] == [ps[1]];
  }

  /** A postal key as the postal_object schema declares it: an integer
      postcode and a non-empty state, here also non-zero and free of "_". */
  predicate CleanPostalKey(x: Row) {
    && HasColumns(x, PostalColumns)
    && x["postcode"].Int? && x["postcode"].i != 0
    && x["state"].Str? && x["state"].s != "" && NoSeparator(x["state"].s)
  }

  /** For such keys the postal token determines the postcode and the state,
      so postal keys that differ in postcode or state never share a token. */
  lemma PostalTokenDeterminesKey(x: Row, y: Row)
    requires CleanPostalKey(x) && CleanPostalKey(y)
    requires InlineToken(PostalLookup, x) == InlineToken(PostalLookup, y)
    ensures x["postcode"] == y["postcode"] && x["state"] == y["state"]
  {
    PostalTokenAgrees(x);
    PostalTokenAgrees(y);
    IntRenderHasNoUnderscore(x["postcode"].i);
    IntRenderHasNoUnderscore(y["postcode"].i);
    var a, b := Project(x, PostalColumns), Project(y, PostalColumns);
    assert a == [x["postcode"], x["state"]] && b == [y["postcode"], y["state"]];
    TokenDeterminesParts(a, b);
    assert Parts(a)[0] == Parts(b)[0] && Parts(a)[1] == Parts(b)[1];
    IntRenderInjective(x["postcode"].i, y["postcode"].i);
  }

  /** The transaction product lambda (lines 243-249) builds the resolver's
      token over the referencing columns. */
  lemma ProductTokenAgrees(x: Row)
    requires HasColumns(x, ProductReference)
    ensures InlineToken(ProductLookup, x) == RowToken(x, ProductReference)
  {
    var ps := Parts(Project(x, ProductReference));
    assert ps == [Field(x["product_id"]), Field(x["brand"]), Field(x["product_line"]),
                  Field(x["product_class"]), Field(x["product_size"])];
    JoinFive(ps[0], ps[1], ps[2], ps[3], ps[4]);
  }

  lemma JoinFive(a: string, b: string, c: string, d: string, e: string)
    ensures Join([a, b, c, d, e]) == a + "_" + b + "_" + c + "_" + d + "_" + e
  {
    calc {
      Join([a, b, c, d, e]);
      { JoinParts([a, b, c, d, e]); assert [a, b, c, d, e][1..] == [b, c, d, e]; }
      a + "_" + Join([b, c, d, e]);
      { JoinParts([b, c, d, e]); assert [b, c, d, e][1..] == [c, d, e]; }
      a + "_" + (b + "_" + Join([c, d, e]));
      { JoinParts([c, d, e]); assert [c, d, e][1..] == [d, e]; }
      a + "_" + (b + "_" + (c + "_" + Join([d, e])));
      { JoinParts([d, e]); assert [d, e][1..] == [e]; }
      a + "_" + (b + "_" + (c + "_" + (d + "_" + e)));
    }
  }

  lemma InlineTokenAgrees(k: Lookup, x: Row)
    requires HasColumns(x, Selection(k))
    ensures InlineToken(k, x) == RowToken(x, Selection(k))
  {
    match k
    case JobLookup => JobTokenAgrees(x);
    case PostalLookup => PostalTokenAgrees(x);
    case ProductLookup => ProductTokenAgrees(x);
  }

  /** The cell stored for a map entry: the id, or None for a seeded name. */
  function AsCell(o: Option<int>): (r: Value)
    ensures r.Int? <==> o.Some?
    ensures o.Some? ==> r.i == o.value
    ensures o.None? ==> r.Null?
  {
    match o
    case Some(id) => Int(id)
    case None => Null
  }

  predicate AllHaveColumns(rows: seq<Row>, k: Lookup) {
    forall i :: 0 <= i < |rows| ==> HasColumns(rows[i], Selection(k))
  }

  /** `frame[cols].apply(lambda x: m[token(x)], axis=1)`: one lookup per row
      in row order; the first missing token raises KeyError. */
  function ResolveColumn(rows: seq<Row>, m: KeyMap, k: Lookup): (r: Result<seq<Value>, Error>)
    requires AllHaveColumns(rows, k)
    ensures r.Success? <==> forall i :: 0 <= i < |rows| ==> InlineToken(k, rows[i]) in m
    ensures r.Success? ==> |r.value| == |rows|
    ensures r.Success? ==> forall i :: 0 <= i < |rows| ==> r.value[i] == AsCell(m[InlineToken(k, rows[i])])
    ensures r.Failure? ==>
      exists i :: (&& 0 <= i < |rows| && InlineToken(k, rows[i]) !in m
                   && r.error == KeyNotFound(InlineToken(k, rows[i]))
                   && forall h :: 0 <= h < i ==> InlineToken(k, rows[h]) in m)
    decreases |rows|
  {
    if rows == [] then Success([])
    else
      var t := InlineToken(k, rows[0]);
      if t !in m then Failure(KeyNotFound(t))
      else
        var rest := ResolveColumn(rows[1..], m, k);
        if rest.Failure? then
          ghost var i' :| 0 <= i' < |rows| - 1 && InlineToken(k, rows[1..][i']) !in m
            && rest.error == KeyNotFound(InlineToken(k, rows[1..][i']))
            && forall h :: 0 <= h < i' ==> InlineToken(k, rows[1..][h]) in m;
          assert InlineToken(k, rows[i' + 1]) !in m;
          Failure(rest.error)
        else
          Success([AsCell(m[t])] + rest.value)
  }

  /** Every row of `f` has the lookup's columns and its token is in `m`. */
  predicate Resolves(f: Frame, m: KeyMap, k: Lookup) {
    && Covers(f.columns, Selection(k))
    && forall i :: 0 <= i < |f.rows| ==> HasColumns(f.rows[i], Selection(k)) && InlineToken(k, f.rows[i]) in m
  }

  /** `df[target] = df[Selection(k)].apply(lookup, axis=1)`. */
  function AssignLookup(f: Frame, m: KeyMap, k: Lookup, target: string): (r: Result<Frame, Error>)
    requires WellFormed(f)
    ensures r.Success? <==> Resolves(f, m, k)
    ensures r.Failure? && r.error.MissingColumns? ==> !Covers(f.columns, Selection(k))
    ensures r.Failure? && r.error.KeyNotFound? ==>
      exists i :: 0 <= i < |f.rows| && HasColumns(f.rows[i], Selection(k))
        && r.error.token == InlineToken(k, f.rows[i]) && r.error.token !in m
    ensures r.Success? ==>
      && WellFormed(r.value)
      && r.value.columns == Assigned(f.columns, target)
      && |r.value.rows| == |f.rows|
      && forall i :: 0 <= i < |f.rows| ==>
           r.value.rows[i] == f.rows[i][target := AsCell(m[InlineToken(k, f.rows[i])])]
  {
    if !Covers(f.columns, Selection(k)) then Failure(MissingColumns(Without(Selection(k), f.columns)))
    else
      CoveredRowsHaveColumns(f, Selection(k));
      var ids := ResolveColumn(f.rows, m, k);
      if ids.Failure? then Failure(ids.error)
      else Success(WithColumn(f, target, ids.value))
  }

  /** Assigning a column the lookup does not select leaves its tokens alone. */
  lemma ResolvesAfterAssign(f: Frame, g: Frame, m: KeyMap, k: Lookup, target: string, vals: seq<Value>)
    requires WellFormed(f) && WellFormed(g) && target !in Selection(k) && |vals| == |f.rows|
    requires g.columns == Assigned(f.columns, target) && |g.rows| == |f.rows|
    requires forall i :: 0 <= i < |f.rows| ==> g.rows[i] == f.rows[i][target := vals[i]]
    ensures Resolves(g, m, k) <==> Resolves(f, m, k)
    ensures forall i :: 0 <= i < |f.rows| && HasColumns(f.rows[i], Selection(k)) ==>
      HasColumns(g.rows[i], Selection(k)) && InlineToken(k, g.rows[i]) == InlineToken(k, f.rows[i])
  {
    forall i | 0 <= i < |f.rows| && HasColumns(f.rows[i], Selection(k))
      ensures HasColumns(g.rows[i], Selection(k)) && InlineToken(k, g.rows[i]) == InlineToken(k, f.rows[i])
    {
      forall c | c in Selection(k) ensures c in g.rows[i] && g.rows[i][c] == f.rows[i][c] { }
      InlineTokenAgrees(k, f.rows[i]);
      InlineTokenAgrees(k, g.rows[i]);
      assert Project(g.rows[i], Selection(k)) == Project(f.rows[i], Selection(k));
    }
    assert Covers(g.columns, Selection(k)) <==> Covers(f.columns, Selection(k));
  }

  /** One customer row after remapping: the two ids stored, the natural-key
      columns removed. */
  function CustomerRow(x: Row, jobIds: KeyMap, postalIds: KeyMap): (y: Row)
    requires HasColumns(x, JobColumns) && InlineToken(JobLookup, x) in jobIds
    requires HasColumns(x, PostalColumns) && InlineToken(PostalLookup, x) in postalIds
    ensures y.Keys == (x.Keys + {"job_id", "postal_object_id"}) - ColumnSet(CustomerDropped)
  {
    x["job_id" := AsCell(jobIds[InlineToken(JobLookup, x)])]
     ["postal_object_id" := AsCell(postalIds[InlineToken(PostalLookup, x)])]
      - ColumnSet(CustomerDropped)
  }

  /** Lines 185-213: job_id and postal_object_id from the two key maps,
      then the five natural-key columns dropped. */
  function RemapCustomer(f: Frame, jobIds: KeyMap, postalIds: KeyMap): (r: Result<Frame, Error>)
    requires WellFormed(f)
    ensures r.Success? <==> Resolves(f, jobIds, JobLookup) && Resolves(f, postalIds, PostalLookup)
    ensures r.Failure? && r.error.MissingColumns? ==>
      !Covers(f.columns, JobColumns) || !Covers(f.columns, PostalColumns)
    ensures r.Failure? && r.error.KeyNotFound? ==>
      exists i :: 0 <= i < |f.rows| && (
        || (HasColumns(f.rows[i], JobColumns) && r.error.token == InlineToken(JobLookup, f.rows[i])
            && r.error.token !in jobIds)
        || (HasColumns(f.rows[i], PostalColumns) && r.error.token == InlineToken(PostalLookup, f.rows[i])
            && r.error.token !in postalIds))
    ensures r.Success? ==>
      && WellFormed(r.value)
      && |r.value.rows| == |f.rows|
      && r.value.columns == Without(Assigned(Assigned(f.columns, "job_id"), "postal_object_id"), CustomerDropped)
    ensures r.Success? ==> forall i :: 0 <= i < |f.rows| ==>
      r.value.rows[i] == CustomerRow(f.rows[i], jobIds, postalIds)
  {
    var job := AssignLookup(f, jobIds, JobLookup, "job_id");
    if job.Failure? then Failure(job.error)
    else
      var withJob := job.value;
      ghost var jobCells := seq(|f.rows|, i requires 0 <= i < |f.rows| => AsCell(jobIds[InlineToken(JobLookup, f.rows[i])]));
      ResolvesAfterAssign(f, withJob, postalIds, PostalLookup, "job_id", jobCells);
      var postal := AssignLookup(withJob, postalIds, PostalLookup, "postal_object_id");
      if postal.Failure? then Failure(postal.error)
      else
        Success(Drop(postal.value, CustomerDropped))
  }

  /** One transaction row after remapping: product_id replaced by the
      resolved id, the other product columns removed. */
  function TransactionRow(x: Row, productIds: KeyMap): (y: Row)
    requires HasColumns(x, ProductReference) && InlineToken(ProductLookup, x) in productIds
    ensures y.Keys == x.Keys - ColumnSet(TransactionDropped)
    ensures "product_id" in y
  {
    x["product_id" := AsCell(productIds[InlineToken(ProductLookup, x)])] - ColumnSet(TransactionDropped)
  }

  /** Lines 235-256: product_id overwritten in place with the product
      table's id, then brand, line, class and size dropped. */
  function RemapTransactions(f: Frame, productIds: KeyMap): (r: Result<Frame, Error>)
    requires WellFormed(f)
    ensures r.Success? <==> Resolves(f, productIds, ProductLookup)
    ensures r.Failure? && r.error.MissingColumns? ==> !Covers(f.columns, ProductReference)
    ensures r.Failure? && r.error.KeyNotFound? ==>
      exists i :: 0 <= i < |f.rows| && HasColumns(f.rows[i], ProductReference)
        && r.error.token == InlineToken(ProductLookup, f.rows[i]) && r.error.token !in productIds
    ensures r.Success? ==>
      && WellFormed(r.value)
      && |r.value.rows| == |f.rows|
      && r.value.columns == Without(f.columns, TransactionDropped)
      && "product_id" in r.value.columns
    ensures r.Success? ==> forall i :: 0 <= i < |f.rows| ==>
      r.value.rows[i] == TransactionRow(f.rows[i], productIds)
  {
    var product := AssignLookup(f, productIds, ProductLookup, "product_id");
    if product.Failure? then Failure(product.error)
    else Success(Drop(product.value, TransactionDropped))
  }

  /** After remapping, each transaction row holds the product table's id
      under product_id, has lost brand, line, class and size, and keeps every
      other column; product_id stays a column, in its original position. */
  lemma TransactionRemapContents(f: Frame, productIds: KeyMap, i: nat)
    requires WellFormed(f) && i < |f.rows|
    requires Resolves(f, productIds, ProductLookup)
    ensures RemapTransactions(f, productIds).Success?
    ensures var g := RemapTransactions(f, productIds).value; var y := g.rows[i];
      && "product_id" in g.columns
      && "product_id" in y
      && y["product_id"] == AsCell(productIds[InlineToken(ProductLookup, f.rows[i])])
      && (forall c :: c in TransactionDropped ==> c !in y)
      && (forall c :: c in f.rows[i] && c !in TransactionDropped && c != "product_id" ==>
            c in y && y[c] == f.rows[i][c])
  {
    TransactionRowContents(f.rows[i], productIds);
  }

  lemma TransactionRowContents(x: Row, productIds: KeyMap)
    requires HasColumns(x, ProductReference) && InlineToken(ProductLookup, x) in productIds
    ensures var y := TransactionRow(x, productIds);
      && "product_id" in y
      && y["product_id"] == AsCell(productIds[InlineToken(ProductLookup, x)])
      && (forall c :: c in TransactionDropped ==> c !in y)
      && (forall c :: c in x && c !in TransactionDropped && c != "product_id" ==> c in y && y[c] == x[c])
  {
    assert "product_id" !in ColumnSet(TransactionDropped);
  }

  /** After remapping, each customer row holds the resolved job_id and
      postal_object_id, has lost the five natural-key columns, and keeps
      every other column unchanged. */
  lemma CustomerRemapContents(f: Frame, jobIds: KeyMap, postalIds: KeyMap, i: nat)
    requires WellFormed(f) && i < |f.rows|
    requires Resolves(f, jobIds, JobLookup) && Resolves(f, postalIds, PostalLookup)
    ensures RemapCustomer(f, jobIds, postalIds).Success?
    ensures var y := RemapCustomer(f, jobIds, postalIds).value.rows[i];
      && "job_id" in y && "postal_object_id" in y
      && y["job_id"] == AsCell(jobIds[InlineToken(JobLookup, f.rows[i])])
      && y["postal_object_id"] == AsCell(postalIds[InlineToken(PostalLookup, f.rows[i])])
      && (forall c :: c in CustomerDropped ==> c !in y)
      && (forall c :: c in f.rows[i] && c !in CustomerDropped && c != "job_id" && c != "postal_object_id" ==>
            c in y && y[c] == f.rows[i][c])
  {
    CoveredRowsHaveColumns(f, JobColumns);
    CoveredRowsHaveColumns(f, PostalColumns);
    CustomerRowContents(f.rows[i], jobIds, postalIds);
  }

  lemma CustomerRowContents(x: Row, jobIds: KeyMap, postalIds: KeyMap)
    requires HasColumns(x, JobColumns) && InlineToken(JobLookup, x) in jobIds
    requires HasColumns(x, PostalColumns) && InlineToken(PostalLookup, x) in postalIds
    ensures var y := CustomerRow(x, jobIds, postalIds);
      && "job_id" in y && "postal_object_id" in y
      && y["job_id"] == AsCell(jobIds[InlineToken(JobLookup, x)])
      && y["postal_object_id"] == AsCell(postalIds[InlineToken(PostalLookup, x)])
      && (forall c :: c in CustomerDropped ==> c !in y)
      && (forall c :: c in x && c !in CustomerDropped && c != "job_id" && c != "postal_object_id" ==>
            c in y && y[c] == x[c])
  {
    assert "job_id" !in ColumnSet(CustomerDropped) && "postal_object_id" !in ColumnSet(CustomerDropped);
  }

  /** The row's selected values agree, up to falsiness, with the key values
      of some fetched row. */
  predicate MatchesSome(x: Row, k: Lookup, dimCols: seq<string>, dim: seq<Fetched>)
    requires HasColumns(x, Selection(k)) && Selected(dim, dimCols)
  {
    exists j :: 0 <= j < |dim| && AgreeUpToFalsiness(Project(x, Selection(k)), Project(dim[j].cells, dimCols))
  }

  /** Round trip (resolver, then remapper): when every dependent row's
      selected values agree, up to falsiness, with the key values of some
      fetched row, no lookup fails and each row gets the id of the last
      fetched row with its token. */
  lemma ResolveRoundTrip(k: Lookup, rows: seq<Row>, dimCols: seq<string>, dim: seq<Fetched>)
    requires Selected(dim, dimCols) && AllHaveColumns(rows, k)
    requires forall i :: 0 <= i < |rows| ==> MatchesSome(rows[i], k, dimCols, dim)
    ensures var r := ResolveColumn(rows, KeyMapOf(dimCols, dim), k);
      && r.Success?
      && forall i :: 0 <= i < |rows| ==>
           var j := LastIndex(dim, dimCols, InlineToken(k, rows[i]));
           j >= 0 && r.value[i] == Int(dim[j].id)
  {
    var m := KeyMapOf(dimCols, dim);
    forall i | 0 <= i < |rows|
      ensures InlineToken(k, rows[i]) in m
      ensures var j := LastIndex(dim, dimCols, InlineToken(k, rows[i])); j >= 0 && m[InlineToken(k, rows[i])] == Some(dim[j].id)
    {
      assert MatchesSome(rows[i], k, dimCols, dim);
      var j :| 0 <= j < |dim| && AgreeUpToFalsiness(Project(rows[i], Selection(k)), Project(dim[j].cells, dimCols));
      AgreeingValuesSameToken(Project(rows[i], Selection(k)), Project(dim[j].cells, dimCols));
      InlineTokenAgrees(k, rows[i]);
      LastWriteWins(dimCols, dim, j);
    }
  }

  /** With pairwise different fetched tokens each dependent row resolves to
      the id of the fetched row it agrees with. */
  lemma ResolveToMatchingRow(k: Lookup, rows: seq<Row>, dimCols: seq<string>, dim: seq<Fetched>, i: nat, j: nat)
    requires Selected(dim, dimCols) && AllHaveColumns(rows, k)
    requires forall a, b :: 0 <= a < b < |dim| ==> TokenAt(dim, dimCols, a) != TokenAt(dim, dimCols, b)
    requires i < |rows| && j < |dim|
    requires AgreeUpToFalsiness(Project(rows[i], Selection(k)), Project(dim[j].cells, dimCols))
    ensures InlineToken(k, rows[i]) in KeyMapOf(dimCols, dim)
    ensures KeyMapOf(dimCols, dim)[InlineToken(k, rows[i])] == Some(dim[j].id)
  {
    AgreeingValuesSameToken(Project(rows[i], Selection(k)), Project(dim[j].cells, dimCols));
    InlineTokenAgrees(k, rows[i]);
    OwnIdWhenTokensUnique(dimCols, dim, j);
  }

  /** As written: a lookup fails exactly when some row's token is neither a
      fetched row's token nor one of the seeded key-column names. */
  lemma AsWrittenKeyError(k: Lookup, rows: seq<Row>, dimCols: seq<string>, dim: seq<Fetched>)
    requires Selected(dim, dimCols) && AllHaveColumns(rows, k)
    ensures ResolveColumn(rows, KeyMapOf(dimCols, dim), k).Failure? <==>
      exists i :: 0 <= i < |rows| && InlineToken(k, rows[i]) !in dimCols &&
        forall j :: 0 <= j < |dim| ==> TokenAt(dim, dimCols, j) != InlineToken(k, rows[i])
  {
    forall i | 0 <= i < |rows|
      ensures InlineToken(k, rows[i]) in KeyMapOf(dimCols, dim) <==>
        InlineToken(k, rows[i]) in dimCols || exists j :: 0 <= j < |dim| && TokenAt(dim, dimCols, j) == InlineToken(k, rows[i])
    {
      KeyMapKeys(dimCols, dim, InlineToken(k, rows[i]));
    }
  }

  /** Corrected map: a lookup fails exactly when some row's token is not a
      fetched row's token, and every resolved value is a fetched row's id. */
  lemma CorrectedKeyError(k: Lookup, rows: seq<Row>, dimCols: seq<string>, dim: seq<Fetched>)
    requires Selected(dim, dimCols) && AllHaveColumns(rows, k)
    ensures var r := ResolveColumn(rows, CorrectedKeyMapOf(dimCols, dim), k);
      && (r.Failure? <==>
            exists i :: (0 <= i < |rows| &&
              forall j :: 0 <= j < |dim| ==> TokenAt(dim, dimCols, j) != InlineToken(k, rows[i])))
      && (r.Success? ==> forall i :: 0 <= i < |rows| ==>
            var j := LastIndex(dim, dimCols, InlineToken(k, rows[i]));
            j >= 0 && r.value[i] == Int(dim[j].id))
  {
    forall i | 0 <= i < |rows|
      ensures var t := InlineToken(k, rows[i]);
        && (t in CorrectedKeyMapOf(dimCols, dim) <==> exists j :: 0 <= j < |dim| && TokenAt(dim, dimCols, j) == t)
        && (t in CorrectedKeyMapOf(dimCols, dim) ==>
              var j := LastIndex(dim, dimCols, t); j >= 0 && CorrectedKeyMapOf(dimCols, dim)[t] == Some(dim[j].id))
    {
      CorrectedKeysAreTokens(dimCols, dim, InlineToken(k, rows[i]));
    }
  }

  /** Lines 185-214: remap, then insert_data into customer. A KeyError in
      the remap raises before the INSERT, so nothing is inserted. */
  method LoadCustomers(dataCustomer: Frame, jobIds: KeyMap, postalIds: KeyMap) returns (r: Result<Insert, Error>)
    requires WellFormed(dataCustomer)
    ensures r.Success? <==> Resolves(dataCustomer, jobIds, JobLookup) && Resolves(dataCustomer, postalIds, PostalLookup)
    ensures r.Success? ==>
      var g := RemapCustomer(dataCustomer, jobIds, postalIds).value;
      && r.value.table == "customer"
      && r.value.columns == Some(g.columns)
      && |r.value.values| == |dataCustomer.rows|
      && (forall i :: 0 <= i < |r.value.values| ==> |r.value.values[i]| == |g.columns|)
      && forall i, j :: 0 <= i < |r.value.values| && 0 <= j < |g.columns| ==>
           j < |r.value.values[i]| && r.value.values[i][j] == NullIfMissing(g.rows[i][g.columns[j]])
  {
    var remapped := RemapCustomer(dataCustomer, jobIds, postalIds);
    if remapped.Failure? {
      return Failure(remapped.error);
    }
    var q := InsertData(remapped.value, "customer");
    r := Success(q);
  }

  /** Lines 235-257: remap, then insert_data into transaction. */
  method LoadTransactions(dataTransactions: Frame, productIds: KeyMap) returns (r: Result<Insert, Error>)
    requires WellFormed(dataTransactions)
    ensures r.Success? <==> Resolves(dataTransactions, productIds, ProductLookup)
    ensures r.Success? ==>
      var g := RemapTransactions(dataTransactions, productIds).value;
      && r.value.table == "transaction"
      && r.value.columns == Some(g.columns)
      && |r.value.values| == |dataTransactions.rows|
      && (forall i :: 0 <= i < |r.value.values| ==> |r.value.values[i]| == |g.columns|)
      && forall i, j :: 0 <= i < |r.value.values| && 0 <= j < |g.columns| ==>
           j < |r.value.values[i]| && r.value.values[i][j] == NullIfMissing(g.rows[i][g.columns[j]])
  {
    var remapped := RemapTransactions(dataTransactions, productIds);
    if remapped.Failure? {
      return Failure(remapped.error);
    }
    var q := InsertData(remapped.value, "transaction");
    r := Success(q);
  }

  /** A customer whose job is ("job", "industry", "category"), and a job
      table holding one other job. */
  const SampleCustomer: Row :=
    map["job_title" := Str("job"), "job_industry_category" := Str("industry"),
        "wealth_segment" := Str("category")]
  const SampleJobs: seq<Fetched> :=
    [Fetched(7, map["job_title" := Str("Analyst"), "job_industry_category" := Str("IT"),
                    "wealth_segment" := Str("Mass Customer")])]

  lemma SampleCustomerToken()
    ensures HasColumns(SampleCustomer, JobColumns)
    ensures InlineToken(JobLookup, SampleCustomer) == "job_industry_category"
  {
    var x := SampleCustomer;
    assert x["job_title"] == Str("job") && x["job_industry_category"] == Str("industry");
    assert x["wealth_segment"] == Str("category");
    assert Field(Str("job")) == "job" && Field(Str("industry")) == "industry";
    assert Field(Str("category")) == "category";
    assert "job" + "_" + "industry" + "_" + "category" == "job_industry_category";
  }

  lemma SampleJobToken()
    ensures Selected(SampleJobs, JobColumns)
    ensures TokenAt(SampleJobs, JobColumns, 0)[0] == 'A'
  {
    var y := SampleJobs[0].cells;
    assert y["job_title"] == Str("Analyst");
    assert HasColumns(y, JobColumns);
    JobTokenAgrees(y);
    assert Field(Str("Analyst")) == "Analyst";
  }

  lemma SampleMaps()
    ensures Selected(SampleJobs, JobColumns)
    ensures var t := TokenAt(SampleJobs, JobColumns, 0);
      && KeyMapOf(JobColumns, SampleJobs) == Seed(JobColumns)[t := Some(7)]
      && CorrectedKeyMapOf(JobColumns, SampleJobs) == map[t := Some(7)]
  {
    SampleJobToken();
    assert SampleJobs[..0] == [];
  }

  /** The sample customer's token is the key-column name
      "job_industry_category": with the map as written the lookup yields None
      instead of a KeyError, with the corrected map it raises. */
  lemma SeededNameMasksMissingKey()
    ensures Selected(SampleJobs, JobColumns) && AllHaveColumns([SampleCustomer], JobLookup)
    ensures ResolveColumn([SampleCustomer], KeyMapOf(JobColumns, SampleJobs), JobLookup) == Success([Null])
    ensures ResolveColumn([SampleCustomer], CorrectedKeyMapOf(JobColumns, SampleJobs), JobLookup)
      == Failure(KeyNotFound("job_industry_category"))
  {
    SampleCustomerToken();
    SampleJobToken();
    SampleMaps();
    var t := "job_industry_category";
    assert t != TokenAt(SampleJobs, JobColumns, 0) by {
      assert t[0] == 'j';
    }
    assert t in Seed(JobColumns);
    assert KeyMapOf(JobColumns, SampleJobs)[t] == None;
    assert t !in CorrectedKeyMapOf(JobColumns, SampleJobs);
    var asWritten := ResolveColumn([SampleCustomer], KeyMapOf(JobColumns, SampleJobs), JobLookup);
    assert asWritten.Success? && |asWritten.value| == 1 && asWritten.value[0] == AsCell(None);
    assert asWritten.value == [Null];
  }
}
