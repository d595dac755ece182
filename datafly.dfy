/** _Table.anonymize end to end: build the QI frequency dictionary, generalise
    while the rows in groups of fewer than k exceed k, suppress the groups of
    fewer than k, and write the table back with the generalised QI values. */
module Datafly {
  import opened Table
  import opened Frequency
  import opened Build
  import opened Generalization
  import opened Suppression
  import opened Publication

  /** How a run ends. */
  datatype Outcome =
    | Written(lines: seq<Row>)              // the anonymised table, header left out
    | Silent                                // a hierarchy raised KeyError: the output stays empty
    | Raised(error: Error, lines: seq<Row>) // an exception escaped, after these lines were written
    | OutOfRounds                           // the bound on generalisation rounds was reached

  /** How the generalisation loop ends. */
  datatype Stage =
    | Done(st: Engine)   // the violation measure is at most k
    | Abandoned          // a hierarchy raised KeyError
    | Stuck              // every domain is empty
    | Exhausted          // no rounds left

  /** The generalisation loop, allowed at most `fuel` rounds: while the
      count of rows in groups of fewer than k exceeds k, generalise the
      attribute with the widest domain. */
  function Generalize(st: Engine, qi: seq<string>, k: int, gen: Hierarchy, fuel: nat): (r: Stage)
    requires Wellformed(st, |qi|)
    ensures r.Done? ==> Wellformed(r.st, |qi|) && Violation(r.st.freq.order, r.st.freq.groups, k) <= k
    ensures Violation(st.freq.order, st.freq.groups, k) <= k ==> r == Done(st)
    ensures r.Stuck? ==> fuel > 0
    decreases fuel
  {
    if Violation(st.freq.order, st.freq.groups, k) <= k then Done(st)
    else if fuel == 0 then Exhausted
    else
      match Widest(st.domains)
      case None => Stuck
      case Some(a) =>
        match Round(st, a, qi, gen)
        case None => Abandoned
        case Some(next) => Generalize(next, qi, k, gen, fuel - 1)
  }

  /** The run on a table whose first row is the header. */
  function Anonymization(table: seq<Row>, qi: seq<string>, k: int, gen: Hierarchy, fuel: nat): Outcome
    requires table != []
  {
    var schema := SchemaOf(table[0]);
    match Built(table, |table|, qi, schema)
    case Err(e) => Raised(e, [])
    case Ok(st) =>
      match Generalize(st, qi, k, gen, fuel)
      case Abandoned => Silent
      case Stuck => Raised(NoAttributeToGeneralize, [])
      case Exhausted => OutOfRounds
      case Done(final) =>
        var out := PublishFrom(table, 0, Suppressed(final.freq, k), qi, schema);
        if out.failure.Some? then Raised(out.failure.value, out.lines) else Written(out.lines)
  }

  /** _Table.anonymize with the table already split into parsed rows. */
  method Anonymize(table: seq<Row>, qi: seq<string>, k: int, gen: Hierarchy, fuel: nat) returns (r: Outcome)
    requires table != []
    ensures r == Anonymization(table, qi, k, gen, fuel)
  {
    var schema := ReadHeader(table[0]);
    var built := BuildFrequency(table, qi, schema);
    if built.Err? {
      return Raised(built.error, []);
    }
    var stage := GeneralizeLoop(built.value, qi, k, gen, fuel);
    match stage {
      case Abandoned => return Silent;
      case Stuck => return Raised(NoAttributeToGeneralize, []);
      case Exhausted => return OutOfRounds;
      case Done(st) =>
        var kept := Suppress(st.freq, k);
        var out := Reconstruct(table, kept, qi, schema);
        if out.failure.Some? {
          return Raised(out.failure.value, out.lines);
        }
        return Written(out.lines);
    }
  }

  /** The while loop of _Table.anonymize, allowed at most `fuel` rounds. */
  method GeneralizeLoop(start: Engine, qi: seq<string>, k: int, gen: Hierarchy, fuel: nat) returns (r: Stage)
    requires Wellformed(start, |qi|)
    ensures r == Generalize(start, qi, k, gen, fuel)
  {
    var st := start;
    var rounds := fuel;
    var count := CountViolations(st.freq, k);
    while count > k
      invariant Wellformed(st, |qi|)
      invariant Generalize(start, qi, k, gen, fuel) == Generalize(st, qi, k, gen, rounds)
      invariant count == Violation(st.freq.order, st.freq.groups, k)
      decreases rounds
    {
      if rounds == 0 {
        return Exhausted;
      }
      var a := ChooseAttribute(st.domains);
      if a.None? {
        return Stuck;
      }
      var next := GeneralizeRound(st, a.value, qi, gen);
      if next.None? {
        return Abandoned;
      }
      st := next.value;
      rounds := rounds - 1;
      count := CountViolations(st.freq, k);
    }
    return Done(st);
  }

  /** With no hierarchy answering a value with itself, the generalisation
      loop keeps the rows partitioned among the groups and keeps the set of
      rows. */
  lemma {:induction false} GeneralizeKeepsRows(st: Engine, qi: seq<string>, k: int, gen: Hierarchy, fuel: nat)
    requires Wellformed(st, |qi|) && NoFixpoint(gen)
    requires Disjoint(st.freq) && CountsMatch(st.freq) && Populated(st.freq)
    ensures var r := Generalize(st, qi, k, gen, fuel);
      r.Done? ==> Disjoint(r.st.freq) && CountsMatch(r.st.freq) && Populated(r.st.freq)
                  && Rows(r.st.freq) == Rows(st.freq)
    decreases fuel
  {
    var r := Generalize(st, qi, k, gen, fuel);
    if Violation(st.freq.order, st.freq.groups, k) <= k {
      assert r == Done(st);
    } else if fuel == 0 {
      assert !r.Done?;
    } else if Widest(st.domains).None? {
      assert !r.Done?;
    } else {
      var a := Widest(st.domains).value;
      if Round(st, a, qi, gen).None? {
        assert !r.Done?;
      } else {
        var next := Round(st, a, qi, gen).value;
        assert r == Generalize(next, qi, k, gen, fuel - 1);
        RoundKeepsRows(st, a, qi, gen);
        GeneralizeKeepsRows(next, qi, k, gen, fuel - 1);
      }
    }
  }

  /** The tables the anonymiser handles as intended: distinct header names,
      data rows as wide as the header, and distinct QI names taken from the
      header. */
  ghost predicate WellFormedTable(table: seq<Row>, qi: seq<string>)
  {
    && table != [] && Distinct(table[0])
    && (forall i :: 1 <= i < |table| ==> |table[i]| == |table[0]|)
    && |qi| > 0 && Distinct(qi) && (forall a :: a in qi ==> a in table[0])
  }

  /** The dictionary a run publishes, when generalisation comes to an end. */
  ghost function Final(table: seq<Row>, qi: seq<string>, k: int, gen: Hierarchy, fuel: nat): Option<Freq>
    requires table != []
  {
    match Built(table, |table|, qi, SchemaOf(table[0]))
    case Err(_) => None
    case Ok(st) =>
      match Generalize(st, qi, k, gen, fuel)
      case Done(final) => Some(Suppressed(final.freq, k))
      case _ => None
  }

  /** On a well-formed table the frequency pass succeeds, and with no
      hierarchy answering a value with itself its rows stay the data rows,
      partitioned among the groups. */
  lemma WellFormedPass(table: seq<Row>, qi: seq<string>, k: int, gen: Hierarchy, fuel: nat)
    requires WellFormedTable(table, qi) && NoFixpoint(gen)
    ensures Built(table, |table|, qi, SchemaOf(table[0])).Ok?
    ensures var st := Built(table, |table|, qi, SchemaOf(table[0])).value;
      var r := Generalize(st, qi, k, gen, fuel);
      r.Done? ==> Disjoint(r.st.freq) && CountsMatch(r.st.freq) && Populated(r.st.freq)
                  && Rows(r.st.freq) == DataRows(|table|)
  {
    var schema := SchemaOf(table[0]);
    SchemaOfFacts(table[0]);
    BuiltSucceeds(table, |table|, qi, schema);
    var st := Built(table, |table|, qi, schema).value;
    BuiltPartitionsRows(table, |table|, qi, schema);
    GeneralizeKeepsRows(st, qi, k, gen, fuel);
  }

  /** With at least one QI name and no hierarchy answering a value with
      itself, whenever generalisation comes to an end the final dictionary
      has no group of fewer than k rows, no row in two groups, and leaves
      out at most k data rows, whatever the shape of the table. */
  lemma FinalIsKAnonymous(table: seq<Row>, qi: seq<string>, k: int, gen: Hierarchy, fuel: nat)
    requires table != [] && |qi| > 0 && NoFixpoint(gen)
    requires Final(table, qi, k, gen, fuel).Some?
    ensures var f := Final(table, qi, k, gen, fuel).value;
      && (forall key :: key in f.groups ==> |f.groups[key].rows| >= k)
      && Disjoint(f)
      && Rows(f) <= DataRows(|table|)
      && |DataRows(|table|) - Rows(f)| <= k
  {
    var schema := SchemaOf(table[0]);
    BuiltPartitionsRows(table, |table|, qi, schema);
    var st := Built(table, |table|, qi, schema).value;
    GeneralizeKeepsRows(st, qi, k, gen, fuel);
    var final := Generalize(st, qi, k, gen, fuel).st;
    SuppressedRows(final.freq, k);
  }

  /** On a well-formed table, with no hierarchy answering a value with
      itself, a run raises no exception but the one for an empty set of
      domains, and when generalisation ends it writes exactly the published
      lines of the final dictionary. */
  lemma AnonymizationWritesFinal(table: seq<Row>, qi: seq<string>, k: int, gen: Hierarchy, fuel: nat)
    requires WellFormedTable(table, qi) && NoFixpoint(gen)
    ensures var r := Anonymization(table, qi, k, gen, fuel);
      r.Written? || r.Silent? || r.OutOfRounds? || r == Raised(NoAttributeToGeneralize, [])
    ensures Final(table, qi, k, gen, fuel).Some? ==>
      && (forall a :: a in qi ==> a in SchemaOf(table[0]).column)
      && Shaped(Final(table, qi, k, gen, fuel).value, |qi|)
      && Anonymization(table, qi, k, gen, fuel)
         == Written(Published(table, 0, Final(table, qi, k, gen, fuel).value, qi, SchemaOf(table[0])))
  {
    WellFormedPass(table, qi, k, gen, fuel);
    var st := Built(table, |table|, qi, SchemaOf(table[0])).value;
    var r := Generalize(st, qi, k, gen, fuel);
    if r.Done? {
      var f := Suppressed(r.st.freq, k);
      SuppressedRows(r.st.freq, k);
      PublishFromIsPublished(table, 0, table[0], f, qi);
    }
  }

  /** A QI name that is not a header name makes the run raise KeyError with
      that name before anything is written, as soon as the table has a data
      row whose earlier QI columns exist. */
  lemma AnonymizationRaisesUnknownAttribute(table: seq<Row>, qi: seq<string>, k: int, gen: Hierarchy,
                                            fuel: nat, i: nat)
    requires 1 < |table| && i < |qi| && qi[i] !in table[0]
    requires forall j :: 0 <= j < i ==>
               qi[j] in SchemaOf(table[0]).column && SchemaOf(table[0]).column[qi[j]] < |table[1]|
    ensures Anonymization(table, qi, k, gen, fuel) == Raised(UnknownAttribute(qi[i]), [])
  {
    SchemaOfFacts(table[0]);
    BuildRaisesUnknownAttribute(table, qi, SchemaOf(table[0]), i);
  }
}
