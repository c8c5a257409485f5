/** The composite-key token of get_ids_by_composite_key: the key columns in
    declared order, each written as str(value) when the value is truthy and
    as the sentinel "_" otherwise, joined with "_". */
module CompositeKey {

  import opened Cells

  /** One part of a token: str(v) for a truthy value, "_" otherwise. */
  function Part(v: Value): (r: string)
    ensures |r| >= 1
    ensures r == "_" ==> !Truthy(v) || v == Str("_")
  {
    if Truthy(v) then Render(v) else "_"
  }

  /** `'_'.join(parts)`. */
  function Join(parts: seq<string>): (r: string)
    ensures r == "" <==> parts == [] || (|parts| == 1 && parts[0] == "")
  {
    if parts == [] then ""
    else if |parts| == 1 then parts[0]
    else parts[0] + "_" + Join(parts[1..])
  }

  /** One part per value, in order. */
  function Parts(vals: seq<Value>): (r: seq<string>)
    ensures |r| == |vals|
    ensures forall i :: 0 <= i < |vals| ==> r[i] == Part(vals[i])
  {
    seq(|vals|, i requires 0 <= i < |vals| => Part(vals[i]))
  }

  /** The token of a key: empty only for an empty key-column list. */
  function Token(vals: seq<Value>): (r: string)
    ensures r == "" <==> vals == []
  {
    Join(Parts(vals))
  }

  /** `[row[c] for c in cols]`. */
  function Project(row: Row, cols: seq<string>): (r: seq<Value>)
    requires HasColumns(row, cols)
    ensures |r| == |cols|
    ensures forall i :: 0 <= i < |cols| ==> r[i] == row[cols[i]]
  {
    seq(|cols|, i requires 0 <= i < |cols| => row[cols[i]])
  }

  /** The token computed for one row and one key-column list. */
  function RowToken(row: Row, cols: seq<string>): (r: string)
    requires HasColumns(row, cols)
    ensures r == "" <==> cols == []
  {
    Token(Project(row, cols))
  }

  /** `s.split('_')`. */
  function Split(s: string): (r: seq<string>)
    ensures |r| >= 1
  {
    if s == [] then [""]
    else if s[0] == '_' then [""] + Split(s[1..])
    else var t := Split(s[1..]); [[s[0]] + t[0]] + t[1..]
  }

  predicate NoSeparator(p: string) {
    '_' !in p
  }

  lemma {:induction false} SplitPrefix(p: string, t: string)
    requires NoSeparator(p)
    ensures Split(p + t) == [p + Split(t)[0]] + Split(t)[1..]
    decreases |p|
  {
    if p != [] {
      assert (p + t)[0] == p[0] && (p + t)[1..] == p[1..] + t;
      SplitPrefix(p[1..], t);
      assert [p[0]] + (p[1..] + Split(t)[0]) == p + Split(t)[0];
    } else {
      assert p + t == t;
      assert p + Split(t)[0] == Split(t)[0];
      assert Split(t) == [Split(t)[0]] + Split(t)[1..];
    }
  }

  /** Splitting a token whose parts hold no separator gives the parts back. */
  lemma {:induction false} SplitJoin(parts: seq<string>)
    requires |parts| >= 1
    requires forall i :: 0 <= i < |parts| ==> NoSeparator(parts[i])
    ensures Split(Join(parts)) == parts
    decreases |parts|
  {
    if |parts| == 1 {
      SplitPrefix(parts[0], "");
      assert parts[0] + "" == parts[0];
    } else {
      var rest := parts[1..];
      SplitJoin(rest);
      SplitPrefix(parts[0], "_" + Join(rest));
      assert Split("_" + Join(rest)) == [""] + Split(Join(rest));
      assert parts[0] + "_" + Join(rest) == parts[0] + ("_" + Join(rest));
      assert parts[0] + "" == parts[0];
      assert parts == [parts[0]] + rest;
    }
  }

  /** Values whose parts cannot be confused: all truthy, none rendering
      with a "_" in it. */
  predicate Unambiguous(vals: seq<Value>) {
    && |vals| >= 1
    && forall i :: 0 <= i < |vals| ==> Truthy(vals[i]) && NoSeparator(Render(vals[i]))
  }

  /** For unambiguous values the token determines the parts, and so the
      number of key columns too. */
  lemma TokenDeterminesParts(a: seq<Value>, b: seq<Value>)
    requires Unambiguous(a) && Unambiguous(b)
    requires Token(a) == Token(b)
    ensures Parts(a) == Parts(b) && |a| == |b|
  {
    SplitJoin(Parts(a));
    SplitJoin(Parts(b));
  }

  /** The number of parts of a token is the number of key columns: the token
      of n unambiguous values splits into exactly n pieces. */
  lemma TokenHasOnePartPerColumn(vals: seq<Value>)
    requires Unambiguous(vals)
    ensures |Split(Token(vals))| == |vals|
    ensures forall i :: 0 <= i < |vals| ==> Split(Token(vals))[i] == Render(vals[i])
  {
    SplitJoin(Parts(vals));
  }

  /** Values that agree up to falsiness give the same token: a database NULL
      and a CSV '' in the same position are both written "_". */
  predicate AgreeUpToFalsiness(a: seq<Value>, b: seq<Value>) {
    && |a| == |b|
    && forall i :: 0 <= i < |a| ==> a[i] == b[i] || (!Truthy(a[i]) && !Truthy(b[i]))
  }

  lemma AgreeingValuesSameToken(a: seq<Value>, b: seq<Value>)
    requires AgreeUpToFalsiness(a, b)
    ensures Token(a) == Token(b)
  {
    assert Parts(a) == Parts(b);
  }

  /** Different key tuples can share a token: a falsy value and the string
      "_" print alike, and a "_" inside a value moves the part boundary. */
  lemma TokenCollisions()
    ensures Token([Null]) == Token([Str("_")]) == Token([Int(0)]) == Token([Str("")])
    ensures Token([Str("a_b"), Str("c")]) == Token([Str("a"), Str("b_c")])
    ensures Token([Null, Null]) == Token([Str("_"), Str("_")]) == "___"
  {
    assert Parts([Str("a_b"), Str("c")]) == ["a_b", "c"];
    assert Parts([Str("a"), Str("b_c")]) == ["a", "b_c"];
    assert Parts([Null, Null]) == ["_", "_"];
    assert Parts([Str("_"), Str("_")]) == ["_", "_"];
  }
}
