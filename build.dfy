/** The frequency builder of _Table.anonymize: one pass over the rows of the
    table that groups the data rows by their QI tuple, fills one domain set
    per QI index and sets every generalisation level to 0. */
module Build {
  import opened Table
  import opened Frequency

  /** The state before the first row: no groups, empty domains, levels 0. */
  function Initial(n: nat): (st: Engine)
    ensures Wellformed(st, n)
    ensures st.freq.groups == map[] && Rows(st.freq) == {}
    ensures forall j :: 0 <= j < n ==> st.domains[j] == {} && st.levels[j] == 0
  {
    Engine(Freq([], map[]), seq(n, _ => {}), seq(n, _ => 0))
  }

  /** Adds each value to the domain of its QI index. */
  function AddValues(domains: seq<set<string>>, values: seq<string>): seq<set<string>>
    requires |values| == |domains|
  {
    seq(|domains|, j requires 0 <= j < |domains| => domains[j] + {values[j]})
  }

  /** The loop that adds a new tuple's values to the domains. */
  method AddToDomains(domains: seq<set<string>>, values: seq<string>) returns (d: seq<set<string>>)
    requires |values| == |domains|
    ensures d == AddValues(domains, values)
  {
    d := domains;
    var j := 0;
    while j < |values|
      invariant 0 <= j <= |values| && |d| == |domains|
      invariant forall i :: 0 <= i < j ==> d[i] == domains[i] + {values[i]}
      invariant forall i :: j <= i < |d| ==> d[i] == domains[i]
    {
      d := d[j := d[j] + {values[j]}];
      j := j + 1;
    }
    assert d == AddValues(domains, values);
  }

  /** Counts one data row under its QI tuple: a known tuple gets the row
      appended and its count raised; a new tuple gets a group of its own and
      adds its values to the domains. */
  function Tally(st: Engine, idx: nat, values: Key): Engine
    requires |values| == |st.domains|
  {
    if values in st.freq.groups then
      var g := st.freq.groups[values];
      st.(freq := Put(st.freq, values, Group(g.rows + {idx}, g.count + 1)))
    else
      Engine(Put(st.freq, values, Group({idx}, 1)), AddValues(st.domains, values), st.levels)
  }

  /** One step of the pass: the header row (index 0) and a row with no QI
      values are skipped; a row whose QI values cannot be read raises. */
  function Absorb(st: Engine, idx: nat, row: Row, qi: seq<string>, schema: Schema): (r: Result<Engine>)
    requires Wellformed(st, |qi|)
    ensures r.Ok? ==> Wellformed(r.value, |qi|) && r.value.levels == st.levels
  {
    if idx == 0 then Ok(st)
    else
      match Extract(row, qi, schema)
      case Err(e) => Err(e)
      case Ok(values) => if values == [] then Ok(st) else Ok(Tally(st, idx, values))
  }

  /** The state after the first n rows of the table. */
  function Built(table: seq<Row>, n: nat, qi: seq<string>, schema: Schema): (r: Result<Engine>)
    requires n <= |table|
    ensures r.Ok? ==> Wellformed(r.value, |qi|) && r.value.levels == seq(|qi|, _ => 0)
  {
    if n == 0 then Ok(Initial(|qi|))
    else
      match Built(table, n - 1, qi, schema)
      case Err(e) => Err(e)
      case Ok(st) => Absorb(st, n - 1, table[n - 1], qi, schema)
  }

  /** The last row of a pass that raised nothing: the header row and an
      empty QI read leave the state as it was; any other row is counted. */
  lemma BuiltStep(table: seq<Row>, n: nat, qi: seq<string>, schema: Schema)
    requires 0 < n <= |table| && Built(table, n, qi, schema).Ok?
    ensures Built(table, n - 1, qi, schema).Ok?
    ensures n - 1 != 0 ==> Extract(table[n - 1], qi, schema).Ok?
    ensures var st := Built(table, n - 1, qi, schema).value;
      (n - 1 == 0 || Extract(table[n - 1], qi, schema).value == []) ==> Built(table, n, qi, schema).value == st
    ensures var st := Built(table, n - 1, qi, schema).value;
      n - 1 != 0 && Extract(table[n - 1], qi, schema).value != [] ==>
        Built(table, n, qi, schema).value == Tally(st, n - 1, Extract(table[n - 1], qi, schema).value)
  {
  }

  /** Once a row has raised, the pass has raised. */
  lemma {:induction false} BuiltErrSticks(table: seq<Row>, n: nat, m: nat, qi: seq<string>, schema: Schema)
    requires n <= m <= |table| && Built(table, n, qi, schema).Err?
    ensures Built(table, m, qi, schema) == Built(table, n, qi, schema)
    decreases m
  {
    if n < m {
      BuiltErrSticks(table, n, m - 1, qi, schema);
    }
  }

  /** The body of the frequency-building loop for a data row with QI values.
      It is Tally as a method because a new tuple's values go through the
      domain loop AddToDomains. */
  method Count(st: Engine, idx: nat, values: Key) returns (r: Engine)
    requires |values| == |st.domains|
    ensures r == Tally(st, idx, values)
  {
    if values in st.freq.groups {
      var g := st.freq.groups[values];
      r := st.(freq := Put(st.freq, values, Group(g.rows + {idx}, g.count + 1)));
    } else {
      var domains := AddToDomains(st.domains, values);
      r := Engine(Put(st.freq, values, Group({idx}, 1)), domains, st.levels);
    }
  }

  /** The frequency-building loop of _Table.anonymize. */
  method BuildFrequency(table: seq<Row>, qi: seq<string>, schema: Schema) returns (r: Result<Engine>)
    ensures r == Built(table, |table|, qi, schema)
  {
    var st := Initial(|qi|);
    var idx := 0;
    while idx < |table|
      invariant 0 <= idx <= |table|
      invariant Built(table, idx, qi, schema) == Ok(st)
    {
      var got := GetValues(table[idx], qi, idx, schema);
      assert Built(table, idx + 1, qi, schema) == Absorb(st, idx, table[idx], qi, schema);
      if got.Err? {
        BuiltErrSticks(table, idx + 1, |table|, qi, schema);
        return Err(got.error);
      }
      if got.value.Some? && got.value.value != [] {
        var values := got.value.value;
        assert Built(table, idx + 1, qi, schema) == Ok(Tally(st, idx, values));
        st := Count(st, idx, values);
      } else {
        assert Built(table, idx + 1, qi, schema) == Ok(st);
      }
      idx := idx + 1;
    }
    return Ok(st);
  }

  /** The data rows among the first n rows: every index but the header's. */
  function DataRows(n: nat): (s: set<nat>)
    ensures forall r :: r in s <==> 1 <= r < n
  {
    if n <= 1 then {} else DataRows(n - 1) + {n - 1}
  }

  /** Counting a row that is in no group yet keeps the row sets disjoint and
      exactly counted, and adds that row. */
  lemma TallyPartition(st: Engine, idx: nat, values: Key)
    requires |values| == |st.domains| && Valid(st.freq)
    requires Disjoint(st.freq) && CountsMatch(st.freq) && Populated(st.freq)
    requires idx !in Rows(st.freq)
    ensures var f' := Tally(st, idx, values).freq;
      Disjoint(f') && CountsMatch(f') && Populated(f') && Rows(f') == Rows(st.freq) + {idx}
  {
    var f := st.freq;
    var g := if values in f.groups then f.groups[values] else Group({}, 0);
    assert idx !in g.rows by {
      if values in f.groups { assert !Holds(f, values, idx); }
    }
    assert values in f.groups ==> g.count == |g.rows|;
    var g' := Group(g.rows + {idx}, g.count + 1);
    if values !in f.groups {
      assert g'.rows == {idx};
    }
    assert Tally(st, idx, values).freq == Put(f, values, g');
    PutPartition(f, values, g', {idx});
  }

  /** After the pass every data row is in exactly one group (none when there
      are no QI names), the header row in none, and each count is the
      number of rows of its group. */
  lemma {:induction false} BuiltPartitionsRows(table: seq<Row>, n: nat, qi: seq<string>, schema: Schema)
    requires n <= |table| && Built(table, n, qi, schema).Ok?
    ensures var f := Built(table, n, qi, schema).value.freq;
      && Disjoint(f) && CountsMatch(f) && Populated(f)
      && Rows(f) == (if |qi| == 0 then {} else DataRows(n))
  {
    if n > 0 {
      BuiltStep(table, n, qi, schema);
      BuiltPartitionsRows(table, n - 1, qi, schema);
      var st := Built(table, n - 1, qi, schema).value;
      var idx := n - 1;
      if idx != 0 {
        var values := Extract(table[idx], qi, schema).value;
        if values != [] {
          TallyPartition(st, idx, values);
        }
      }
    }
  }

  /** A row of a group after counting a row was in that group before, or is
      the counted row under its tuple. */
  lemma TallyHolds(st: Engine, idx: nat, values: Key, key: Key, r: nat)
    requires |values| == |st.domains|
    requires Holds(Tally(st, idx, values).freq, key, r)
    ensures Holds(st.freq, key, r) || (r == idx && key == values)
  {
  }

  /** After the pass each row of a group has that group's key as its QI values. */
  lemma {:induction false} BuiltGroupsByValues(table: seq<Row>, n: nat, qi: seq<string>, schema: Schema)
    requires n <= |table| && Built(table, n, qi, schema).Ok?
    ensures var f := Built(table, n, qi, schema).value.freq;
      forall key, r: nat :: Holds(f, key, r) ==> 1 <= r < n && Extract(table[r], qi, schema) == Ok(key)
  {
    if n > 0 {
      BuiltStep(table, n, qi, schema);
      BuiltGroupsByValues(table, n - 1, qi, schema);
      var st := Built(table, n - 1, qi, schema).value;
      var idx := n - 1;
      if idx != 0 && Extract(table[idx], qi, schema).value != [] {
        var values := Extract(table[idx], qi, schema).value;
        forall key, r: nat | Holds(Tally(st, idx, values).freq, key, r)
          ensures 1 <= r < n && Extract(table[r], qi, schema) == Ok(key)
        {
          TallyHolds(st, idx, values, key, r);
        }
      }
    }
  }

  /** Counting a row keeps every domain equal to the values the keys hold
      at its index. */
  lemma TallyDomains(st: Engine, idx: nat, values: Key)
    requires |values| == |st.domains|
    requires forall j :: 0 <= j < |st.domains| ==> st.domains[j] == ValuesAt(st.freq, j)
    ensures var st' := Tally(st, idx, values);
      forall j :: 0 <= j < |st.domains| ==> st'.domains[j] == ValuesAt(st'.freq, j)
  {
    var st' := Tally(st, idx, values);
    forall j | 0 <= j < |st.domains| ensures st'.domains[j] == ValuesAt(st'.freq, j) {
      if values in st.freq.groups {
        assert st'.freq.groups.Keys == st.freq.groups.Keys;
      } else {
        assert ValuesAt(st'.freq, j) == ValuesAt(st.freq, j) + {values[j]};
      }
    }
  }

  /** After the pass domain j holds exactly the j-th values of the keys. */
  lemma {:induction false} BuiltDomains(table: seq<Row>, n: nat, qi: seq<string>, schema: Schema)
    requires n <= |table| && Built(table, n, qi, schema).Ok?
    ensures var st := Built(table, n, qi, schema).value;
      forall j :: 0 <= j < |qi| ==> st.domains[j] == ValuesAt(st.freq, j)
  {
    if n > 0 {
      BuiltStep(table, n, qi, schema);
      BuiltDomains(table, n - 1, qi, schema);
      var st := Built(table, n - 1, qi, schema).value;
      var idx := n - 1;
      if idx != 0 {
        var values := Extract(table[idx], qi, schema).value;
        if values != [] {
          TallyDomains(st, idx, values);
        }
      }
    } else {
      forall j | 0 <= j < |qi| ensures Initial(|qi|).domains[j] == ValuesAt(Initial(|qi|).freq, j) {
      }
    }
  }

  /** A QI name missing from the header raises KeyError with that name as soon
      as the first data row is read, provided the earlier names' columns
      exist in that row. */
  lemma BuildRaisesUnknownAttribute(table: seq<Row>, qi: seq<string>, schema: Schema, i: nat)
    requires 1 < |table| && i < |qi| && qi[i] !in schema.column
    requires forall j :: 0 <= j < i ==> qi[j] in schema.column && schema.column[qi[j]] < |table[1]|
    ensures Built(table, |table|, qi, schema) == Err(UnknownAttribute(qi[i]))
  {
    ExtractRaisesFirstFailure(table[1], qi, schema, i);
    assert Built(table, 1, qi, schema) == Ok(Initial(|qi|));
    assert Built(table, 2, qi, schema) == Err(UnknownAttribute(qi[i]));
    BuiltErrSticks(table, 2, |table|, qi, schema);
  }

  /** Every QI name is a column name whose column exists in the row. */
  ghost predicate Fits(row: Row, qi: seq<string>, schema: Schema)
  {
    forall a :: a in qi ==> a in schema.column && schema.column[a] < |row|
  }

  /** When every data row holds every QI column, the pass raises nothing. */
  lemma {:induction false} BuiltSucceeds(table: seq<Row>, n: nat, qi: seq<string>, schema: Schema)
    requires n <= |table|
    requires forall i :: 1 <= i < n ==> Fits(table[i], qi, schema)
    ensures Built(table, n, qi, schema).Ok?
  {
    if n > 0 {
      BuiltSucceeds(table, n - 1, qi, schema);
      if n - 1 != 0 {
        assert Fits(table[n - 1], qi, schema);
      }
    }
  }
}
