/** The reconstruction step of _Table.anonymize: the table is read again
    from the top; every data row is read in full and, for each group (in
    dictionary order) that holds the row's index, the row is rewritten with
    that group's QI tuple and written out. */
module Publication {
  import opened Table
  import opened Frequency

  /** What reconstruction writes: the lines written, and the exception that
      stopped it, if one did. */
  datatype Output = Output(lines: seq<Row>, failure: Option<Error>)

  /** Writing `first`, then, unless it raised, `next`. */
  function Then(first: Output, next: Output): (r: Output)
    ensures first.failure.None? ==> r.lines == first.lines + next.lines && r.failure == next.failure
    ensures first.failure.Some? ==> r == first
  {
    if first.failure.Some? then first else Output(first.lines + next.lines, next.failure)
  }

  /** The inner loop for the data row `row` with index i over the keys
      `keys`: each key whose group holds i rewrites the row in place, and
      the rewritten row is written. */
  function EmitFor(row: Row, i: nat, keys: seq<Key>, groups: map<Key, Group>, qi: seq<string>,
                   schema: Schema): Output
    requires forall key :: key in keys ==> key in groups && |key| == |qi|
    decreases |keys|
  {
    if keys == [] then Output([], None)
    else if i in groups[keys[0]].rows then
      match Substitute(row, keys[0], qi, schema)
      case Err(e) => Output([], Some(e))
      case Ok(line) => Then(Output([line], None), EmitFor(line, i, keys[1..], groups, qi, schema))
    else EmitFor(row, i, keys[1..], groups, qi, schema)
  }

  /** What one row of the table contributes: nothing for the header, the
      exception raised reading a data row in full, or the inner loop. */
  function RowOutput(row: Row, i: nat, f: Freq, qi: seq<string>, schema: Schema): Output
    requires Valid(f) && Shaped(f, |qi|)
  {
    if i == 0 then Output([], None)
    else
      match Extract(row, schema.names, schema)
      case Err(e) => Output([], Some(e))
      case Ok(values) => EmitFor(values, i, f.order, f.groups, qi, schema)
  }

  /** What the rows from index `from` on contribute. */
  function PublishFrom(table: seq<Row>, from: nat, f: Freq, qi: seq<string>, schema: Schema): Output
    requires Valid(f) && Shaped(f, |qi|)
    decreases |table| - from
  {
    if from >= |table| then Output([], None)
    else Then(RowOutput(table[from], from, f, qi, schema), PublishFrom(table, from + 1, f, qi, schema))
  }

  /** One key of the inner loop: a key whose group does not hold row i is
      passed over; otherwise the row is rewritten, and the rewritten row is
      written before the rest of the keys are tried. */
  lemma EmitForUnfold(row: Row, i: nat, keys: seq<Key>, groups: map<Key, Group>, qi: seq<string>,
                      schema: Schema)
    requires keys != [] && forall key :: key in keys ==> key in groups && |key| == |qi|
    ensures i !in groups[keys[0]].rows ==>
              EmitFor(row, i, keys, groups, qi, schema) == EmitFor(row, i, keys[1..], groups, qi, schema)
    ensures i in groups[keys[0]].rows && Substitute(row, keys[0], qi, schema).Err? ==>
              EmitFor(row, i, keys, groups, qi, schema) == Output([], Some(Substitute(row, keys[0], qi, schema).error))
    ensures i in groups[keys[0]].rows && Substitute(row, keys[0], qi, schema).Ok? ==>
              var line := Substitute(row, keys[0], qi, schema).value;
              EmitFor(row, i, keys, groups, qi, schema)
              == Then(Output([line], None), EmitFor(line, i, keys[1..], groups, qi, schema))
  {
  }

  /** Writing `lines`, then `more`, then `next` is writing `lines + more`,
      then `next`. */
  lemma ThenJoin(lines: seq<Row>, more: seq<Row>, next: Output)
    ensures Then(Output(lines, None), Then(Output(more, None), next)) == Then(Output(lines + more, None), next)
  {
    assert lines + (more + next.lines) == (lines + more) + next.lines;
  }

  /** The body of the inner loop for the first of `keys`: nothing when its
      group does not hold row i, otherwise the row rewritten in place with
      the key, or the exception the rewrite raised. */
  method EmitKey(current: Row, i: nat, keys: seq<Key>, groups: map<Key, Group>, qi: seq<string>, schema: Schema)
    returns (line: Option<Row>, failure: Option<Error>)
    requires keys != [] && forall key :: key in keys ==> key in groups && |key| == |qi|
    ensures failure.Some? ==> EmitFor(current, i, keys, groups, qi, schema) == Output([], failure)
    ensures failure.None? && line.None? ==>
              EmitFor(current, i, keys, groups, qi, schema) == EmitFor(current, i, keys[1..], groups, qi, schema)
    ensures failure.None? && line.Some? ==>
              EmitFor(current, i, keys, groups, qi, schema)
              == Then(Output([line.value], None), EmitFor(line.value, i, keys[1..], groups, qi, schema))
  {
    EmitForUnfold(current, i, keys, groups, qi, schema);
    line, failure := None, None;
    if i in groups[keys[0]].rows {
      var written := SetValues(current, keys[0], qi, schema);
      if written.Err? {
        failure := Some(written.error);
      } else {
        line := Some(written.value);
      }
    }
  }

  /** The inner loop over the dictionary for one data row. */
  method EmitRow(row: Row, i: nat, f: Freq, qi: seq<string>, schema: Schema) returns (out: Output)
    requires Valid(f) && Shaped(f, |qi|)
    ensures out == EmitFor(row, i, f.order, f.groups, qi, schema)
  {
    var current := row;
    var lines: seq<Row> := [];
    var rest := f.order;
    while rest != []
      invariant forall key :: key in rest ==> key in f.groups && |key| == |qi|
      invariant EmitFor(row, i, f.order, f.groups, qi, schema)
             == Then(Output(lines, None), EmitFor(current, i, rest, f.groups, qi, schema))
      decreases |rest|
    {
      var line, failure := EmitKey(current, i, rest, f.groups, qi, schema);
      if failure.Some? {
        assert lines + [] == lines;
        return Output(lines, failure);
      }
      if line.Some? {
        current := line.value;
        ThenJoin(lines, [current], EmitFor(current, i, rest[1..], f.groups, qi, schema));
        lines := lines + [current];
      }
      rest := rest[1..];
    }
    assert lines + [] == lines;
    return Output(lines, None);
  }

  /** The reconstruction loop: every row of the table is read again, the
      header skipped, and each data row's lines written. */
  method Reconstruct(table: seq<Row>, f: Freq, qi: seq<string>, schema: Schema) returns (out: Output)
    requires Valid(f) && Shaped(f, |qi|)
    ensures out == PublishFrom(table, 0, f, qi, schema)
  {
    var lines: seq<Row> := [];
    var i := 0;
    while i < |table|
      invariant 0 <= i <= |table|
      invariant PublishFrom(table, 0, f, qi, schema) == Then(Output(lines, None), PublishFrom(table, i, f, qi, schema))
    {
      var rest := PublishFrom(table, i + 1, f, qi, schema);
      var got := GetValues(table[i], schema.names, i, schema);
      if got.Err? {
        return Output(lines, Some(got.error));
      }
      if got.value.Some? {
        var emitted := EmitRow(got.value.value, i, f, qi, schema);
        if emitted.failure.Some? {
          return Output(lines + emitted.lines, emitted.failure);
        }
        assert lines + (emitted.lines + rest.lines) == (lines + emitted.lines) + rest.lines;
        lines := lines + emitted.lines;
      } else {
        assert lines + ([] + rest.lines) == lines + rest.lines;
      }
      i := i + 1;
    }
    assert lines + [] == lines;
    return Output(lines, None);
  }

  /** The lines a well-formed run writes from row `from` on: each data row
      that belongs to a group, with the group's QI tuple written into the QI
      columns and its other fields as read. */
  ghost function Published(table: seq<Row>, from: nat, f: Freq, qi: seq<string>, schema: Schema): seq<Row>
    requires Shaped(f, |qi|) && forall a :: a in qi ==> a in schema.column
    decreases |table| - from
  {
    if from >= |table| then []
    else if from != 0 && exists key :: Holds(f, key, from) then
      var key :| Holds(f, key, from);
      [Overlay(table[from], key, Columns(qi, schema))] + Published(table, from + 1, f, qi, schema)
    else Published(table, from + 1, f, qi, schema)
  }

  /** Distinct QI names in the header have distinct columns. */
  lemma ColumnsDistinct(header: Row, qi: seq<string>)
    requires Distinct(qi) && forall a :: a in qi ==> a in header
    ensures forall a :: a in qi ==> a in SchemaOf(header).column
    ensures Distinct(Columns(qi, SchemaOf(header)))
  {
    SchemaOfFacts(header);
    var s := SchemaOf(header);
    var cols := Columns(qi, s);
    forall i, j | 0 <= i < j < |cols| ensures cols[i] != cols[j] {
      assert header[s.column[qi[i]]] == qi[i] && header[s.column[qi[j]]] == qi[j];
    }
  }

  /** Over distinct keys with row sets that do not overlap, the inner loop
      writes nothing for a row no group holds, and exactly the overlaid row
      for the one group that holds it. */
  lemma {:induction false} EmitForSingle(row: Row, i: nat, keys: seq<Key>, f: Freq, qi: seq<string>, schema: Schema)
    requires Distinct(keys) && Disjoint(f)
    requires forall key :: key in keys ==> key in f.groups && |key| == |qi|
    requires forall a :: a in qi ==> a in schema.column && schema.column[a] < |row|
    requires Distinct(Columns(qi, schema))
    ensures (forall key :: key in keys ==> !Holds(f, key, i)) ==>
              EmitFor(row, i, keys, f.groups, qi, schema) == Output([], None)
    ensures forall key :: key in keys && Holds(f, key, i) ==>
              EmitFor(row, i, keys, f.groups, qi, schema) == Output([Overlay(row, key, Columns(qi, schema))], None)
    decreases |keys|
  {
    if keys != [] {
      var rest := keys[1..];
      assert Distinct(rest) && keys[0] !in rest;
      assert forall key :: key in keys <==> key == keys[0] || key in rest;
      EmitForSingle(row, i, rest, f, qi, schema);
      if i in f.groups[keys[0]].rows {
        SubstituteIsOverlay(row, keys[0], qi, schema);
        var line := Overlay(row, keys[0], Columns(qi, schema));
        forall key | key in rest ensures !Holds(f, key, i) {
          assert Holds(f, keys[0], i);
        }
        EmitForSingle(line, i, rest, f, qi, schema);
      }
    }
  }

  /** A data row as wide as a distinct header is read back whole, so what it
      contributes is the inner loop over the dictionary for the row itself. */
  lemma RowOutputIsEmitFor(row: Row, i: nat, header: Row, f: Freq, qi: seq<string>)
    requires i != 0 && Distinct(header) && |row| == |header|
    requires Valid(f) && Shaped(f, |qi|)
    ensures RowOutput(row, i, f, qi, SchemaOf(header)) == EmitFor(row, i, f.order, f.groups, qi, SchemaOf(header))
  {
    ExtractAllColumns(header, row);
  }

  /** Distinct QI names of the header have distinct columns, all inside a
      row as wide as the header. */
  lemma QIColumnsFit(header: Row, row: Row, qi: seq<string>)
    requires |row| == |header| && Distinct(qi) && forall a :: a in qi ==> a in header
    ensures forall a :: a in qi ==> a in SchemaOf(header).column && SchemaOf(header).column[a] < |row|
    ensures Distinct(Columns(qi, SchemaOf(header)))
  {
    ColumnsDistinct(header, qi);
    SchemaOfFacts(header);
  }

  /** A data row that no group holds writes nothing. */
  lemma RowInNoGroup(row: Row, i: nat, header: Row, f: Freq, qi: seq<string>)
    requires i != 0 && Distinct(header) && |row| == |header|
    requires Distinct(qi) && forall a :: a in qi ==> a in header
    requires Valid(f) && Shaped(f, |qi|) && Disjoint(f)
    requires forall key :: !Holds(f, key, i)
    ensures RowOutput(row, i, f, qi, SchemaOf(header)) == Output([], None)
  {
    RowOutputIsEmitFor(row, i, header, f, qi);
    QIColumnsFit(header, row, qi);
    EmitForSingle(row, i, f.order, f, qi, SchemaOf(header));
  }

  /** A data row that the group of `key` holds writes exactly its overlay
      with `key`. */
  lemma RowInOneGroup(row: Row, i: nat, header: Row, f: Freq, qi: seq<string>, key: Key)
    requires i != 0 && Distinct(header) && |row| == |header|
    requires Distinct(qi) && forall a :: a in qi ==> a in header
    requires Valid(f) && Shaped(f, |qi|) && Disjoint(f)
    requires Holds(f, key, i)
    ensures forall a :: a in qi ==> a in SchemaOf(header).column
    ensures RowOutput(row, i, f, qi, SchemaOf(header)) == Output([Overlay(row, key, Columns(qi, SchemaOf(header)))], None)
  {
    RowOutputIsEmitFor(row, i, header, f, qi);
    QIColumnsFit(header, row, qi);
    EmitForSingle(row, i, f.order, f, qi, SchemaOf(header));
  }

  /** When the header names are distinct, the data row `from` is as wide as
      the header, the QI names are distinct header names and no row is in
      two groups, the row writes nothing when no group holds it and exactly
      its overlay with the group's key when one does. */
  lemma RowOutputIsOverlay(table: seq<Row>, from: nat, header: Row, f: Freq, qi: seq<string>)
    requires 0 < from < |table| && Distinct(header) && |table[from]| == |header|
    requires Distinct(qi) && forall a :: a in qi ==> a in header
    requires Valid(f) && Shaped(f, |qi|) && Disjoint(f)
    ensures forall a :: a in qi ==> a in SchemaOf(header).column
    ensures (forall key :: !Holds(f, key, from)) ==>
              RowOutput(table[from], from, f, qi, SchemaOf(header)) == Output([], None)
    ensures forall key :: Holds(f, key, from) ==>
              RowOutput(table[from], from, f, qi, SchemaOf(header))
              == Output([Overlay(table[from], key, Columns(qi, SchemaOf(header)))], None)
  {
    ColumnsDistinct(header, qi);
    if forall key :: !Holds(f, key, from) {
      RowInNoGroup(table[from], from, header, f, qi);
    }
    forall key | Holds(f, key, from)
      ensures RowOutput(table[from], from, f, qi, SchemaOf(header))
              == Output([Overlay(table[from], key, Columns(qi, SchemaOf(header)))], None)
    {
      RowInOneGroup(table[from], from, header, f, qi, key);
    }
  }

  /** When the header names are distinct, every data row is as wide as the
      header, the QI names are distinct header names and no row is in two
      groups, reconstruction raises nothing and writes exactly the
      published lines. */
  lemma {:induction false} PublishFromIsPublished(table: seq<Row>, from: nat, header: Row, f: Freq, qi: seq<string>)
    requires Distinct(header) && forall i :: 1 <= i < |table| ==> |table[i]| == |header|
    requires Distinct(qi) && forall a :: a in qi ==> a in header
    requires Valid(f) && Shaped(f, |qi|) && Disjoint(f)
    ensures forall a :: a in qi ==> a in SchemaOf(header).column
    ensures PublishFrom(table, from, f, qi, SchemaOf(header))
         == Output(Published(table, from, f, qi, SchemaOf(header)), None)
    decreases |table| - from
  {
    ColumnsDistinct(header, qi);
    if from < |table| {
      PublishFromIsPublished(table, from + 1, header, f, qi);
      if from != 0 {
        RowOutputIsOverlay(table, from, header, f, qi);
      }
    }
  }
}
