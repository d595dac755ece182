/** Rows of a CSV table and the two row helpers of the CSV table class:
    reading the values of named attributes out of a parsed row, and writing
    values back into it. A row is the list of fields a CSV reader yields for
    one line; CSV text itself is not modelled. */
module Table {

  type Row = seq<string>

  datatype Option<T> = None | Some(value: T)

  /** The exceptions that escape the anonymiser. */
  datatype Error =
    | UnknownAttribute(name: string)   // KeyError(name) from the attribute dictionary
    | MissingColumn(column: nat)        // IndexError: the parsed row has no such column
    | NoAttributeToGeneralize          // every domain is empty while groups still violate k

  datatype Result<T> = Ok(value: T) | Err(error: Error)

  predicate Distinct<T(==)>(s: seq<T>)
  {
    forall i, j :: 0 <= i < j < |s| ==> s[i] != s[j]
  }

  /** The table's attribute dictionary: names in insertion order, and the
      column of each name. */
  datatype Schema = Schema(names: seq<string>, column: map<string, nat>)

  /** Fills the attribute dictionary from the header row: every name is
      mapped to its column, a repeated name to its last column, and the
      dictionary keeps the position where a name was first inserted. */
  function SchemaOf(header: Row): (s: Schema)
  {
    if header == [] then Schema([], map[])
    else
      var s := SchemaOf(header[..|header| - 1]);
      var a := header[|header| - 1];
      Schema(if a in s.column then s.names else s.names + [a], s.column[a := |header| - 1])
  }

  /** The loop of _init_table that fills the attribute dictionary. */
  method ReadHeader(header: Row) returns (s: Schema)
    ensures s == SchemaOf(header)
  {
    s := Schema([], map[]);
    var i := 0;
    while i < |header|
      invariant 0 <= i <= |header|
      invariant s == SchemaOf(header[..i])
    {
      assert header[..i + 1][..i] == header[..i];
      var a := header[i];
      s := Schema(if a in s.column then s.names else s.names + [a], s.column[a := i]);
      i := i + 1;
    }
    assert header[..i] == header;
  }

  /** The dictionary holds each header name once, maps it to the last column
      carrying it, and lists exactly the names it maps. */
  lemma {:induction false} SchemaOfFacts(header: Row)
    ensures var s := SchemaOf(header);
      && Distinct(s.names)
      && (forall n :: n in s.names <==> n in s.column)
      && (forall n :: n in s.column <==> n in header)
      && (forall n :: n in s.column ==> s.column[n] < |header| && header[s.column[n]] == n)
      && (forall n, j :: n in s.column && s.column[n] < j < |header| ==> header[j] != n)
  {
    SchemaNames(header);
    SchemaColumns(header);
  }

  /** The names are listed once each, and are exactly the names mapped. */
  lemma {:induction false} SchemaNames(header: Row)
    ensures var s := SchemaOf(header);
      Distinct(s.names) && forall n :: n in s.names <==> n in s.column
  {
    if header != [] {
      SchemaNames(header[..|header| - 1]);
    }
  }

  /** The names mapped are the header's, each to the last column carrying it. */
  lemma {:induction false} SchemaColumns(header: Row)
    ensures var s := SchemaOf(header);
      && (forall n :: n in s.column <==> n in header)
      && (forall n :: n in s.column ==> s.column[n] < |header| && header[s.column[n]] == n)
      && (forall n, j :: n in s.column && s.column[n] < j < |header| ==> header[j] != n)
  {
    if header != [] {
      var init := header[..|header| - 1];
      var a := header[|header| - 1];
      SchemaColumns(init);
      var s0 := SchemaOf(init);
      var s := SchemaOf(header);
      assert header == init + [a];
      forall n | n in s.column ensures n in header {
        if n != a {
          assert n in s0.column;
        }
      }
      forall n | n in header ensures n in s.column {
        if n != a {
          var j :| 0 <= j < |header| && header[j] == n;
          assert init[j] == n;
        }
      }
    }
  }

  /** The dictionary lists the header's names in the order each first
      appears: every occurrence of a later name comes after some occurrence
      of each earlier one. */
  lemma {:induction false} SchemaOfFirstAppearance(header: Row)
    ensures var s := SchemaOf(header);
      forall i, j, q :: 0 <= i < j < |s.names| && 0 <= q < |header| && header[q] == s.names[j] ==>
        s.names[i] in header[..q]
  {
    if header != [] {
      var init := header[..|header| - 1];
      var a := header[|header| - 1];
      SchemaOfFirstAppearance(init);
      SchemaOfFacts(init);
      var s0 := SchemaOf(init);
      var s := SchemaOf(header);
      assert header == init + [a];
      forall i, j, q | 0 <= i < j < |s.names| && 0 <= q < |header| && header[q] == s.names[j]
        ensures s.names[i] in header[..q]
      {
        assert s.names[i] in s0.names;
        if q < |init| {
          assert init[q] == s.names[j];
          assert header[..q] == init[..q];
        } else {
          assert header[..q] == init;
        }
      }
    }
  }

  /** With a header whose names are distinct, the dictionary lists the
      header in order and maps each name to its own column. */
  lemma SchemaOfDistinctHeader(header: Row)
    requires Distinct(header)
    ensures SchemaOf(header).names == header
    ensures forall j :: 0 <= j < |header| ==>
              header[j] in SchemaOf(header).column && SchemaOf(header).column[header[j]] == j
  {
    DistinctHeaderNames(header);
    var s := SchemaOf(header);
    SchemaOfFacts(header);
    forall j | 0 <= j < |header|
      ensures header[j] in s.column && s.column[header[j]] == j
    {
      assert header[j] in header;
      var c := s.column[header[j]];
      assert header[c] == header[j];
    }
  }

  lemma {:induction false} DistinctHeaderNames(header: Row)
    requires Distinct(header)
    ensures SchemaOf(header).names == header
  {
    if header != [] {
      var init := header[..|header| - 1];
      var a := header[|header| - 1];
      assert Distinct(init);
      DistinctHeaderNames(init);
      SchemaOfFacts(init);
      assert a !in init;
      assert header == init + [a];
    }
  }

  /** Prepends values already read to the outcome of reading the rest. */
  function Prefixed(values: seq<string>, r: Result<seq<string>>): Result<seq<string>>
  {
    match r
    case Ok(rest) => Ok(values + rest)
    case Err(e) => Err(e)
  }

  /** The values of the attributes `attrs` in `row`, in the order of `attrs`.
      The first attribute that is not a column name raises KeyError; the
      first one whose column lies past the end of the row raises IndexError. */
  function Extract(row: Row, attrs: seq<string>, schema: Schema): (r: Result<seq<string>>)
    ensures r.Ok? <==> forall a :: a in attrs ==> a in schema.column && schema.column[a] < |row|
    ensures r.Ok? ==> |r.value| == |attrs|
    ensures r.Ok? ==> forall i :: 0 <= i < |attrs| ==> r.value[i] == row[schema.column[attrs[i]]]
  {
    if attrs == [] then Ok([])
    else if attrs[0] !in schema.column then Err(UnknownAttribute(attrs[0]))
    else if schema.column[attrs[0]] >= |row| then Err(MissingColumn(schema.column[attrs[0]]))
    else Prefixed([row[schema.column[attrs[0]]]], Extract(row, attrs[1..], schema))
  }

  /** The error Extract raises is the one of the first attribute that fails:
      an unknown name raises KeyError with that name. */
  lemma {:induction false} ExtractRaisesFirstFailure(row: Row, attrs: seq<string>, schema: Schema, i: nat)
    requires i < |attrs|
    requires forall j :: 0 <= j < i ==> attrs[j] in schema.column && schema.column[attrs[j]] < |row|
    ensures attrs[i] !in schema.column ==> Extract(row, attrs, schema) == Err(UnknownAttribute(attrs[i]))
    ensures attrs[i] in schema.column && schema.column[attrs[i]] >= |row| ==>
              Extract(row, attrs, schema) == Err(MissingColumn(schema.column[attrs[i]]))
  {
    if i > 0 {
      ExtractRaisesFirstFailure(row, attrs[1..], schema, i - 1);
    }
  }

  /** With a header of distinct names and a row as wide as the header,
      reading every attribute of the dictionary gives back the row itself. */
  lemma ExtractAllColumns(header: Row, row: Row)
    requires Distinct(header) && |row| == |header|
    ensures Extract(row, SchemaOf(header).names, SchemaOf(header)) == Ok(row)
  {
    SchemaOfDistinctHeader(header);
    ExtractInColumnOrder(row, header, SchemaOf(header));
  }

  /** Reading attributes whose columns are their own positions gives back a
      row as wide as the list of attributes. */
  lemma ExtractInColumnOrder(row: Row, attrs: seq<string>, schema: Schema)
    requires |row| == |attrs|
    requires forall i :: 0 <= i < |attrs| ==> attrs[i] in schema.column && schema.column[attrs[i]] == i
    ensures Extract(row, attrs, schema) == Ok(row)
  {
    forall a | a in attrs ensures a in schema.column && schema.column[a] < |row| {
      var i :| 0 <= i < |attrs| && attrs[i] == a;
    }
    var r := Extract(row, attrs, schema);
    assert r.value == row;
  }

  lemma PrefixedNothing(r: Result<seq<string>>)
    ensures Prefixed([], r) == r
  {
    if r.Ok? {
      assert [] + r.value == r.value;
    }
  }

  lemma PrefixedTwice(first: seq<string>, second: seq<string>, r: Result<seq<string>>)
    ensures Prefixed(first, Prefixed(second, r)) == Prefixed(first + second, r)
  {
    if r.Ok? {
      assert first + (second + r.value) == (first + second) + r.value;
    }
  }

  /** CsvTable._get_values: the header row (index 0) yields nothing;
      any other row yields the values of `attrs`, or raises. */
  method GetValues(row: Row, attrs: seq<string>, rowIndex: nat, schema: Schema)
    returns (r: Result<Option<seq<string>>>)
    ensures rowIndex == 0 ==> r == Ok(None)
    ensures rowIndex != 0 ==>
              match Extract(row, attrs, schema)
              case Ok(vs) => r == Ok(Some(vs))
              case Err(e) => r == Err(e)
  {
    if rowIndex == 0 {
      return Ok(None);
    }
    var values: seq<string> := [];
    var i := 0;
    assert attrs[0..] == attrs;
    PrefixedNothing(Extract(row, attrs, schema));
    while i < |attrs|
      invariant 0 <= i <= |attrs|
      invariant Extract(row, attrs, schema) == Prefixed(values, Extract(row, attrs[i..], schema))
    {
      assert attrs[i..][1..] == attrs[i + 1..];
      var a := attrs[i];
      if a !in schema.column {
        return Err(UnknownAttribute(a));
      }
      var c := schema.column[a];
      if c >= |row| {
        return Err(MissingColumn(c));
      }
      PrefixedTwice(values, [row[c]], Extract(row, attrs[i + 1..], schema));
      values := values + [row[c]];
      i := i + 1;
    }
    assert attrs[i..] == [] && values + [] == values;
    return Ok(Some(values));
  }

  /** Writes values[i] into the column of attrs[i], for each i in order. An
      unknown name raises KeyError, a column past the end of the row
      IndexError. */
  function Substitute(row: Row, values: seq<string>, attrs: seq<string>, schema: Schema): (r: Result<Row>)
    requires |values| == |attrs|
    ensures r.Ok? <==> forall a :: a in attrs ==> a in schema.column && schema.column[a] < |row|
    ensures r.Ok? ==> |r.value| == |row|
    ensures r.Ok? ==> forall c :: 0 <= c < |row| && (forall a :: a in attrs ==> schema.column[a] != c) ==>
                               r.value[c] == row[c]
    decreases |attrs|
  {
    if attrs == [] then Ok(row)
    else if attrs[0] !in schema.column then Err(UnknownAttribute(attrs[0]))
    else if schema.column[attrs[0]] >= |row| then Err(MissingColumn(schema.column[attrs[0]]))
    else Substitute(row[schema.column[attrs[0]] := values[0]], values[1..], attrs[1..], schema)
  }

  /** CsvTable._set_values: writes the values into the row in place and
      returns the row (its CSV formatting is not modelled). */
  method SetValues(row: Row, values: seq<string>, attrs: seq<string>, schema: Schema)
    returns (r: Result<Row>)
    requires |values| == |attrs|
    ensures r == Substitute(row, values, attrs, schema)
  {
    var current := row;
    var i := 0;
    assert attrs[0..] == attrs && values[0..] == values;
    while i < |attrs|
      invariant 0 <= i <= |attrs|
      invariant Substitute(row, values, attrs, schema) == Substitute(current, values[i..], attrs[i..], schema)
    {
      assert attrs[i..][1..] == attrs[i + 1..] && values[i..][1..] == values[i + 1..];
      var a := attrs[i];
      if a !in schema.column {
        return Err(UnknownAttribute(a));
      }
      var c := schema.column[a];
      if c >= |current| {
        return Err(MissingColumn(c));
      }
      current := current[c := values[i]];
      i := i + 1;
    }
    assert attrs[i..] == [] && values[i..] == [];
    return Ok(current);
  }

  /** The columns of the attributes. */
  function Columns(attrs: seq<string>, schema: Schema): (cols: seq<nat>)
    requires forall a :: a in attrs ==> a in schema.column
    ensures |cols| == |attrs|
  {
    seq(|attrs|, i requires 0 <= i < |attrs| => schema.column[attrs[i]])
  }

  /** The position of `x` in `s`. */
  function IndexOf(s: seq<nat>, x: nat): (i: nat)
    requires x in s
    ensures i < |s| && s[i] == x
    ensures forall j :: 0 <= j < i ==> s[j] != x
  {
    if s[0] == x then 0 else 1 + IndexOf(s[1..], x)
  }

  /** The row with column cols[i] holding values[i], every other column as
      it was: the reference meaning of writing a group's key into a row. */
  function Overlay(row: Row, values: seq<string>, cols: seq<nat>): (r: Row)
    requires |values| == |cols|
    ensures |r| == |row|
    ensures forall c :: 0 <= c < |row| && c !in cols ==> r[c] == row[c]
    ensures Distinct(cols) ==> forall i :: 0 <= i < |cols| && cols[i] < |row| ==> r[cols[i]] == values[i]
  {
    seq(|row|, c requires 0 <= c < |row| => if c in cols then values[IndexOf(cols, c)] else row[c])
  }

  /** Writing the values of distinct attributes with distinct, present
      columns gives the overlay: each attribute's column holds its value and
      every other column is unchanged. */
  lemma {:induction false} SubstituteIsOverlay(row: Row, values: seq<string>, attrs: seq<string>, schema: Schema)
    requires |values| == |attrs|
    requires forall a :: a in attrs ==> a in schema.column && schema.column[a] < |row|
    requires Distinct(Columns(attrs, schema))
    ensures Substitute(row, values, attrs, schema) == Ok(Overlay(row, values, Columns(attrs, schema)))
    decreases |attrs|
  {
    var cols := Columns(attrs, schema);
    if attrs == [] {
      assert Overlay(row, values, cols) == row;
    } else {
      var c0 := schema.column[attrs[0]];
      var row' := row[c0 := values[0]];
      var cols' := Columns(attrs[1..], schema);
      assert cols' == cols[1..];
      assert Distinct(cols');
      SubstituteIsOverlay(row', values[1..], attrs[1..], schema);
      forall c | 0 <= c < |row|
        ensures Overlay(row', values[1..], cols')[c] == Overlay(row, values, cols)[c]
      {
        if c in cols' {
          var i := IndexOf(cols', c);
          assert cols[i + 1] == c;
          assert c != c0;
          assert IndexOf(cols, c) == i + 1;
        } else if c == c0 {
          assert cols[0] == c;
        }
      }
      assert Overlay(row', values[1..], cols') == Overlay(row, values, cols);
    }
  }
}
