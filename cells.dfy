/** Scalar cell values as the loading scripts see them: what a pandas
    DataFrame read with keep_default_na=False holds, and what psycopg2
    hands back for a fetched row. */
module Cells {

  datatype Value =
    | Null           // Python None; also SQL NULL as returned by psycopg2
    | NaN            // a pandas missing marker (float NaN)
    | Str(s: string)
    | Int(i: int)
    | Bool(b: bool)

  /** A row: column name to cell, as a pandas row Series or a DictCursor row. */
  type Row = map<string, Value>

  /** Every named column can be read from the row without a KeyError. */
  predicate HasColumns(row: Row, cols: seq<string>) {
    forall c :: c in cols ==> c in row
  }

  /** Python truthiness: None, '', 0 and False are falsy, everything else
      (NaN included) is truthy. */
  predicate Truthy(v: Value)
    ensures !Truthy(v) ==> Render(v) in {"None", "", "0", "False"}
  {
    match v
    case Null => false
    case NaN => true
    case Str(s) => s != ""
    case Int(i) => i != 0
    case Bool(b) => b
  }

  /** pd.isna on a scalar. Of the two NA markers only NaN is truthy, so the
      token and the insert-time rule treat NaN differently. */
  predicate IsNa(v: Value)
    ensures IsNa(v) ==> (Truthy(v) <==> v.NaN?)
  {
    v.Null? || v.NaN?
  }

  function DigitChar(d: nat): char
    requires d < 10
  {
    "0123456789"[d]
  }

  /** Decimal digits of a natural number, most significant first. */
  function Decimal(n: nat): (r: string)
    ensures |r| >= 1
    decreases n
  {
    if n < 10 then [DigitChar(n)] else Decimal(n / 10) + [DigitChar(n % 10)]
  }

  /** str(v); for these types it is also what an f-string field renders. */
  function Render(v: Value): (r: string)
    ensures r == "" <==> v == Str("")
  {
    match v
    case Null => "None"
    case NaN => "nan"
    case Str(s) => s
    case Int(i) => if i < 0 then "-" + Decimal(-i) else Decimal(i)
    case Bool(b) => if b then "True" else "False"
  }

  /** The value insert_data writes for a cell: None when the cell is NA or
      the empty string, the cell itself otherwise. */
  function NullIfMissing(v: Value): (r: Value)
    ensures r == Null <==> IsNa(v) || v == Str("")
    ensures r != Null ==> r == v
  {
    if IsNa(v) || v == Str("") then Null else v
  }

  lemma {:induction false} DecimalHasNoUnderscore(n: nat)
    ensures '_' !in Decimal(n)
    decreases n
  {
    if n >= 10 {
      DecimalHasNoUnderscore(n / 10);
      assert Decimal(n) == Decimal(n / 10) + [DigitChar(n % 10)];
    }
  }

  /** Decimal text holds digits only. */
  lemma {:induction false} DecimalIsDigits(n: nat)
    ensures forall k :: 0 <= k < |Decimal(n)| ==> '0' <= Decimal(n)[k] <= '9'
    ensures Decimal(n)[0] != '-'
    decreases n
  {
    if n >= 10 {
      DecimalIsDigits(n / 10);
      assert Decimal(n) == Decimal(n / 10) + [DigitChar(n % 10)];
    }
  }

  /** Different naturals have different decimal text. */
  lemma {:induction false} DecimalInjective(n: nat, m: nat)
    requires Decimal(n) == Decimal(m)
    ensures n == m
    decreases n
  {
    if n >= 10 && m >= 10 {
      var a, b := Decimal(n / 10), Decimal(m / 10);
      assert Decimal(n) == a + [DigitChar(n % 10)] && Decimal(m) == b + [DigitChar(m % 10)];
      assert a == Decimal(n)[..|Decimal(n)| - 1] && b == Decimal(m)[..|Decimal(m)| - 1];
      DecimalInjective(n / 10, m / 10);
    }
  }

  /** str() of an integer determines the integer. */
  lemma IntRenderInjective(i: int, j: int)
    requires Render(Int(i)) == Render(Int(j))
    ensures i == j
  {
    if i < 0 && j < 0 {
      assert Render(Int(i)) == "-" + Decimal(-i) && Render(Int(j)) == "-" + Decimal(-j);
      assert Decimal(-i) == Render(Int(i))[1..];
      DecimalInjective(-i, -j);
    } else if i >= 0 && j >= 0 {
      DecimalInjective(i, j);
    } else if i < 0 {
      assert Render(Int(i))[0] == '-' && Render(Int(j)) == Decimal(j);
      DecimalIsDigits(j);
    } else {
      assert Render(Int(j))[0] == '-' && Render(Int(i)) == Decimal(i);
      DecimalIsDigits(i);
    }
  }

  /** The text of an integer never contains the token separator. */
  lemma IntRenderHasNoUnderscore(i: int)
    ensures '_' !in Render(Int(i))
  {
    if i < 0 {
      DecimalHasNoUnderscore(-i);
    } else {
      DecimalHasNoUnderscore(i);
    }
  }
}
