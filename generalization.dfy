/** One generalisation round of _Table.anonymize: choose the QI index with
    the largest domain, then walk a snapshot of the dictionary's keys and
    replace each key's value at that index by its parent in the attribute's
    hierarchy, renaming the key or merging it into an existing one. */
module Generalization {
  import opened Table
  import opened Frequency

  /** What an attribute's hierarchy answers for a value at a level: the
      value one level up, None (the value is a root), or KeyError. */
  datatype Lookup = Parent(value: string) | Root | Unknown

  /** The hierarchies of the QI attributes, looked up by attribute name. */
  type Hierarchy = (string, string, nat) -> Lookup

  /** No hierarchy answers a value with the value itself. */
  ghost predicate NoFixpoint(gen: Hierarchy)
  {
    forall name, v, l :: gen(name, v, l) != Parent(v)
  }

  /** The index to generalise: the first one whose domain is non-empty and
      at least as large as every other, or nothing when all are empty. */
  function Widest(domains: seq<set<string>>): (r: Option<nat>)
    ensures r.None? <==> forall j :: 0 <= j < |domains| ==> |domains[j]| == 0
    ensures r.Some? ==> r.value < |domains| && |domains[r.value]| > 0
    ensures r.Some? ==> forall j :: 0 <= j < |domains| ==> |domains[j]| <= |domains[r.value]|
    ensures r.Some? ==> forall j :: 0 <= j < r.value ==> |domains[j]| < |domains[r.value]|
  {
    if domains == [] then None
    else
      var last := |domains| - 1;
      match Widest(domains[..last])
      case None => if |domains[last]| > 0 then Some(last) else None
      case Some(i) => if |domains[last]| > |domains[i]| then Some(last) else Some(i)
  }

  /** The scan for the domain of largest cardinality, with a strict
      comparison starting from cardinality 0. */
  method ChooseAttribute(domains: seq<set<string>>) returns (r: Option<nat>)
    ensures r == Widest(domains)
  {
    var maxCardinality := 0;
    r := None;
    var i := 0;
    while i < |domains|
      invariant 0 <= i <= |domains|
      invariant r == Widest(domains[..i])
      invariant r.Some? ==> r.value < i && maxCardinality == |domains[r.value]|
      invariant r.None? ==> maxCardinality == 0
    {
      assert domains[..i + 1][..i] == domains[..i];
      if |domains[i]| > maxCardinality {
        maxCardinality := |domains[i]|;
        r := Some(i);
      }
      i := i + 1;
    }
    assert domains[..i] == domains;
  }

  /** The key with its value at `a` replaced by `g`. */
  function Generalized(key: Key, a: nat, g: string): (next: Key)
    requires a < |key|
  {
    key[a := g]
  }

  /** The update of one key whose value at `a` has the parent `g`: when the
      new key is present, the old key's rows and count are added to it and
      the old key is popped; otherwise the old key is popped and its group
      stored under the new key. */
  function Step(f: Freq, key: Key, a: nat, g: string): (r: Freq)
    requires Valid(f) && key in f.groups && a < |key|
    ensures Valid(r)
    ensures forall k :: k in r.groups ==> k in f.groups || k == Generalized(key, a, g)
    ensures forall k :: k in f.groups && k != key ==> k in r.groups
  {
    var next := Generalized(key, a, g);
    if next in f.groups then
      var merged := Group(f.groups[next].rows + f.groups[key].rows, f.groups[next].count + f.groups[key].count);
      Pop(Put(f, next, merged), key)
    else
      Put(Pop(f, key), next, f.groups[key])
  }

  /** A hierarchy that answers a value with itself loses the key: the
      group is stored under the same key with its count doubled, then
      popped. */
  lemma StepOntoItselfDropsKey(f: Freq, key: Key, a: nat)
    requires Valid(f) && key in f.groups && a < |key|
    ensures Step(f, key, a, key[a]).groups == f.groups - {key}
  {
    assert Generalized(key, a, key[a]) == key;
  }

  /** The state of a round part-way: the dictionary and the values added to
      the chosen domain so far. */
  datatype Pass = Pass(freq: Freq, seen: set<string>)

  /** The rest of a round over the snapshot keys `rest`, for attribute `a`
      named `name` at level `level`: a root leaves its key alone, a parent
      rewrites it and adds the old value to the domain, and KeyError from
      the hierarchy abandons the run (None). */
  function RoundFrom(f: Freq, seen: set<string>, rest: seq<Key>, a: nat, name: string, level: nat,
                     gen: Hierarchy, ghost n: nat): (r: Option<Pass>)
    requires Valid(f) && Shaped(f, n) && a < n
    requires Distinct(rest) && forall s :: s in rest ==> s in f.groups
    ensures r.Some? ==> Valid(r.value.freq) && Shaped(r.value.freq, n)
    decreases |rest|
  {
    if rest == [] then Some(Pass(f, seen))
    else
      var key := rest[0];
      assert Distinct(rest[1..]) && key !in rest[1..];
      match gen(name, key[a], level)
      case Unknown => None
      case Root => RoundFrom(f, seen, rest[1..], a, name, level, gen, n)
      case Parent(g) => RoundFrom(Step(f, key, a, g), seen + {key[a]}, rest[1..], a, name, level, gen, n)
  }

  /** A whole round for attribute `a`: the walk over a snapshot of the keys,
      the chosen domain replaced by the values the walk added, and the
      attribute's level raised. */
  function Round(st: Engine, a: nat, qi: seq<string>, gen: Hierarchy): (r: Option<Engine>)
    requires Wellformed(st, |qi|) && a < |qi|
    ensures r.Some? ==> Wellformed(r.value, |qi|)
  {
    match RoundFrom(st.freq, {}, st.freq.order, a, qi[a], st.levels[a], gen, |qi|)
    case None => None
    case Some(p) => Some(Engine(p.freq, st.domains[a := p.seen], st.levels[a := st.levels[a] + 1]))
  }

  /** The body of the while loop of _Table.anonymize after the attribute
      choice: reset the domain, walk the snapshot, raise the level. None is
      the silent return after the hierarchy raised KeyError. */
  method GeneralizeRound(st: Engine, a: nat, qi: seq<string>, gen: Hierarchy) returns (r: Option<Engine>)
    requires Wellformed(st, |qi|) && a < |qi|
    ensures r == Round(st, a, qi, gen)
  {
    var name := qi[a];
    var level := st.levels[a];
    var domains := st.domains[a := {}];
    var f := st.freq;
    var seen: set<string> := {};
    var snapshot := f.order;
    ghost var n := |qi|;
    ghost var whole := RoundFrom(f, seen, snapshot, a, name, level, gen, n);
    var j := 0;
    assert snapshot[0..] == snapshot;
    while j < |snapshot|
      invariant 0 <= j <= |snapshot|
      invariant Valid(f) && Shaped(f, n)
      invariant Distinct(snapshot[j..]) && forall s :: s in snapshot[j..] ==> s in f.groups
      invariant whole == RoundFrom(f, seen, snapshot[j..], a, name, level, gen, n)
    {
      var key := snapshot[j];
      ghost var rest := snapshot[j..];
      assert rest[0] == key && rest[1..] == snapshot[j + 1..];
      RoundFromUnfold(f, seen, rest, a, name, level, gen, n);
      var answer := gen(name, key[a], level);
      if answer.Unknown? {
        return None;
      }
      if answer.Parent? {
        f := Step(f, key, a, answer.value);
        seen := seen + {key[a]};
      }
      j := j + 1;
    }
    assert snapshot[j..] == [];
    domains := domains[a := seen];
    assert domains == st.domains[a := seen];
    return Some(Engine(f, domains, st.levels[a := level + 1]));
  }

  /** One step of the walk over a non-empty rest of the snapshot. */
  lemma RoundFromUnfold(f: Freq, seen: set<string>, rest: seq<Key>, a: nat, name: string, level: nat,
                        gen: Hierarchy, n: nat)
    requires Valid(f) && Shaped(f, n) && a < n
    requires Distinct(rest) && forall s :: s in rest ==> s in f.groups
    requires rest != []
    ensures Distinct(rest[1..]) && rest[0] !in rest[1..]
    ensures var key := rest[0]; var answer := gen(name, key[a], level);
      && (answer.Unknown? ==> RoundFrom(f, seen, rest, a, name, level, gen, n).None?)
      && (answer.Root? ==> RoundFrom(f, seen, rest, a, name, level, gen, n)
                             == RoundFrom(f, seen, rest[1..], a, name, level, gen, n))
      && (answer.Parent? ==>
            && (forall s :: s in rest[1..] ==> s in Step(f, key, a, answer.value).groups)
            && RoundFrom(f, seen, rest, a, name, level, gen, n)
               == RoundFrom(Step(f, key, a, answer.value), seen + {key[a]}, rest[1..], a, name, level, gen, n))
  {
    assert Distinct(rest[1..]) && rest[0] !in rest[1..];
  }

  /** Keys `x` and `y` have the same width and agree everywhere but at
      index `a`. */
  ghost predicate AgreeExcept(x: Key, y: Key, a: nat)
  {
    |x| == |y| && forall j :: 0 <= j < |x| && j != a ==> x[j] == y[j]
  }

  /** Every row of `f` sits under a key that agrees with its key in `f0`
      everywhere but at index `a`. */
  ghost predicate Traced(f0: Freq, f: Freq, a: nat)
  {
    forall k0, k1, r: nat :: Holds(f0, k0, r) && Holds(f, k1, r) ==> AgreeExcept(k0, k1, a)
  }

  /** Where a row of a key sits after one step. */
  lemma StepHolds(f: Freq, key: Key, a: nat, g: string, k: Key, x: nat)
    requires Valid(f) && key in f.groups && a < |key|
    ensures var r := Step(f, key, a, g); var next := Generalized(key, a, g);
      Holds(r, k, x) ==> (k != key && Holds(f, k, x)) || (k == next && Holds(f, key, x))
    ensures var r := Step(f, key, a, g); var next := Generalized(key, a, g);
      next != key && Holds(f, k, x) ==> (k != key && Holds(r, k, x)) || (k == key && Holds(r, next, x))
  {
  }

  /** A step whose parent differs from the old value keeps the row sets
      disjoint and moves no row in or out. */
  lemma StepKeepsPartition(f: Freq, key: Key, a: nat, g: string)
    requires Valid(f) && key in f.groups && a < |key| && g != key[a]
    requires Disjoint(f)
    ensures Disjoint(Step(f, key, a, g)) && Rows(Step(f, key, a, g)) == Rows(f)
  {
    var r := Step(f, key, a, g);
    var next := Generalized(key, a, g);
    assert next[a] != key[a];
    forall k1, k2, x: nat | Holds(r, k1, x) && Holds(r, k2, x) ensures k1 == k2 {
      StepHolds(f, key, a, g, k1, x);
      StepHolds(f, key, a, g, k2, x);
    }
    forall x | x in Rows(r) ensures x in Rows(f) {
      var k :| k in r.groups && x in r.groups[k].rows;
      StepHolds(f, key, a, g, k, x);
    }
    forall x | x in Rows(f) ensures x in Rows(r) {
      var k :| k in f.groups && x in f.groups[k].rows;
      StepHolds(f, key, a, g, k, x);
    }
  }

  /** A step whose parent differs from the old value keeps every count equal
      to its number of rows, and every group non-empty. */
  lemma StepKeepsCounts(f: Freq, key: Key, a: nat, g: string)
    requires Valid(f) && key in f.groups && a < |key| && g != key[a]
    requires Disjoint(f) && CountsMatch(f) && Populated(f)
    ensures CountsMatch(Step(f, key, a, g)) && Populated(Step(f, key, a, g))
  {
    var next := Generalized(key, a, g);
    assert next[a] != key[a];
    if next in f.groups {
      var x := f.groups[next].rows;
      var y := f.groups[key].rows;
      forall e | e in x ensures e !in y {
        assert Holds(f, next, e);
        assert !Holds(f, key, e);
      }
      assert x * y == {};
    }
  }

  /** A step never takes a row out of a key other than the rewritten one. */
  lemma StepKeepsOthers(f: Freq, key: Key, a: nat, g: string, s: Key)
    requires Valid(f) && key in f.groups && a < |key| && s in f.groups && s != key
    ensures s in Step(f, key, a, g).groups && f.groups[s].rows <= Step(f, key, a, g).groups[s].rows
  {
  }

  /** The values at `a` of the snapshot keys whose lookup gives a parent. */
  function Rewritten(rest: seq<Key>, a: nat, name: string, level: nat, gen: Hierarchy): set<string>
  {
    set s | s in rest && a < |s| && gen(name, s[a], level).Parent? :: s[a]
  }

  /** The walk adds to the chosen domain exactly the values at `a` of the
      keys it rewrites. */
  lemma {:induction false} RoundFromSeen(f: Freq, seen: set<string>, rest: seq<Key>, a: nat, name: string,
                                         level: nat, gen: Hierarchy, n: nat)
    requires Valid(f) && Shaped(f, n) && a < n
    requires Distinct(rest) && forall s :: s in rest ==> s in f.groups
    ensures var r := RoundFrom(f, seen, rest, a, name, level, gen, n);
      r.Some? ==> r.value.seen == seen + Rewritten(rest, a, name, level, gen)
    decreases |rest|
  {
    if rest != [] {
      var key := rest[0];
      assert Distinct(rest[1..]) && key !in rest[1..];
      var here: set<string> := if gen(name, key[a], level).Parent? then {key[a]} else {};
      assert Rewritten(rest, a, name, level, gen) == here + Rewritten(rest[1..], a, name, level, gen) by {
        assert forall s :: s in rest <==> s == key || s in rest[1..];
      }
      match gen(name, key[a], level)
      case Unknown =>
      case Root =>
        RoundFromSeen(f, seen, rest[1..], a, name, level, gen, n);
      case Parent(g) =>
        RoundFromSeen(Step(f, key, a, g), seen + {key[a]}, rest[1..], a, name, level, gen, n);
    }
  }

  /** The walk abandons the run exactly when the hierarchy raises KeyError
      for some snapshot key. */
  lemma {:induction false} RoundFromAborts(f: Freq, seen: set<string>, rest: seq<Key>, a: nat, name: string,
                                           level: nat, gen: Hierarchy, n: nat)
    requires Valid(f) && Shaped(f, n) && a < n
    requires Distinct(rest) && forall s :: s in rest ==> s in f.groups
    ensures RoundFrom(f, seen, rest, a, name, level, gen, n).None? <==>
              exists s :: s in rest && a < |s| && gen(name, s[a], level).Unknown?
    decreases |rest|
  {
    if rest != [] {
      var key := rest[0];
      assert Distinct(rest[1..]) && key !in rest[1..];
      assert forall s :: s in rest <==> s == key || s in rest[1..];
      match gen(name, key[a], level)
      case Unknown =>
      case Root =>
        RoundFromAborts(f, seen, rest[1..], a, name, level, gen, n);
      case Parent(g) =>
        RoundFromAborts(Step(f, key, a, g), seen + {key[a]}, rest[1..], a, name, level, gen, n);
    }
  }

  /** With no hierarchy answering a value with itself, the walk keeps the row
      sets disjoint, exactly counted and non-empty, and keeps the set of
      rows. */
  lemma {:induction false} RoundFromKeepsRows(f: Freq, seen: set<string>, rest: seq<Key>, a: nat, name: string,
                                              level: nat, gen: Hierarchy, n: nat)
    requires Valid(f) && Shaped(f, n) && a < n
    requires Distinct(rest) && forall s :: s in rest ==> s in f.groups
    requires NoFixpoint(gen) && Disjoint(f) && CountsMatch(f) && Populated(f)
    ensures var r := RoundFrom(f, seen, rest, a, name, level, gen, n);
      r.Some? ==> Disjoint(r.value.freq) && CountsMatch(r.value.freq) && Populated(r.value.freq)
                  && Rows(r.value.freq) == Rows(f)
    decreases |rest|
  {
    if rest != [] {
      var key := rest[0];
      assert Distinct(rest[1..]) && key !in rest[1..];
      match gen(name, key[a], level)
      case Unknown =>
      case Root =>
        RoundFromKeepsRows(f, seen, rest[1..], a, name, level, gen, n);
      case Parent(g) =>
        assert gen(name, key[a], level) != Parent(key[a]);
        StepKeepsPartition(f, key, a, g);
        StepKeepsCounts(f, key, a, g);
        RoundFromKeepsRows(Step(f, key, a, g), seen + {key[a]}, rest[1..], a, name, level, gen, n);
    }
  }

  /** The walk changes a row's key only at index `a`. */
  lemma {:induction false} RoundFromTraced(f0: Freq, f: Freq, seen: set<string>, rest: seq<Key>, a: nat,
                                           name: string, level: nat, gen: Hierarchy, n: nat)
    requires Valid(f) && Shaped(f, n) && a < n
    requires Distinct(rest) && forall s :: s in rest ==> s in f.groups
    requires Traced(f0, f, a)
    ensures var r := RoundFrom(f, seen, rest, a, name, level, gen, n);
      r.Some? ==> Traced(f0, r.value.freq, a)
    decreases |rest|
  {
    if rest != [] {
      var key := rest[0];
      assert Distinct(rest[1..]) && key !in rest[1..];
      match gen(name, key[a], level)
      case Unknown =>
      case Root =>
        RoundFromTraced(f0, f, seen, rest[1..], a, name, level, gen, n);
      case Parent(g) =>
        var f' := Step(f, key, a, g);
        forall k0, k1, x: nat | Holds(f0, k0, x) && Holds(f', k1, x) ensures AgreeExcept(k0, k1, a) {
          StepHolds(f, key, a, g, k1, x);
          if !(k1 != key && Holds(f, k1, x)) {
            assert AgreeExcept(k0, key, a);
          }
        }
        RoundFromTraced(f0, f', seen + {key[a]}, rest[1..], a, name, level, gen, n);
    }
  }

  /** A key the walk leaves alone, because it is not in the snapshot or its
      value is a root, stays in the dictionary with at least its rows. */
  lemma {:induction false} RoundFromKeepsRoots(f: Freq, seen: set<string>, rest: seq<Key>, a: nat, name: string,
                                               level: nat, gen: Hierarchy, n: nat, s: Key)
    requires Valid(f) && Shaped(f, n) && a < n
    requires Distinct(rest) && forall s :: s in rest ==> s in f.groups
    requires s in f.groups && (s in rest ==> gen(name, s[a], level).Root?)
    ensures var r := RoundFrom(f, seen, rest, a, name, level, gen, n);
      r.Some? ==> s in r.value.freq.groups && f.groups[s].rows <= r.value.freq.groups[s].rows
    decreases |rest|
  {
    if rest != [] {
      var key := rest[0];
      assert Distinct(rest[1..]) && key !in rest[1..];
      match gen(name, key[a], level)
      case Unknown =>
      case Root =>
        RoundFromKeepsRoots(f, seen, rest[1..], a, name, level, gen, n, s);
      case Parent(g) =>
        StepKeepsOthers(f, key, a, g, s);
        RoundFromKeepsRoots(Step(f, key, a, g), seen + {key[a]}, rest[1..], a, name, level, gen, n, s);
    }
  }

  /** A round raises the chosen level by one and leaves the others, and sets
      the chosen domain to the old values of the keys it rewrote, leaving
      the other domains. */
  lemma RoundUpdatesChosenAttribute(st: Engine, a: nat, qi: seq<string>, gen: Hierarchy)
    requires Wellformed(st, |qi|) && a < |qi| && Round(st, a, qi, gen).Some?
    ensures var st' := Round(st, a, qi, gen).value;
      && st'.levels == st.levels[a := st.levels[a] + 1]
      && st'.domains == st.domains[a := Rewritten(st.freq.order, a, qi[a], st.levels[a], gen)]
  {
    var rewritten := Rewritten(st.freq.order, a, qi[a], st.levels[a], gen);
    RoundFromSeen(st.freq, {}, st.freq.order, a, qi[a], st.levels[a], gen, |qi|);
    assert {} + rewritten == rewritten;
  }

  /** A round keeps every key whose value at the chosen index is a root,
      with at least its rows. */
  lemma RoundKeepsRoots(st: Engine, a: nat, qi: seq<string>, gen: Hierarchy, s: Key)
    requires Wellformed(st, |qi|) && a < |qi| && Round(st, a, qi, gen).Some?
    requires s in st.freq.groups && gen(qi[a], s[a], st.levels[a]).Root?
    ensures s in Round(st, a, qi, gen).value.freq.groups
    ensures st.freq.groups[s].rows <= Round(st, a, qi, gen).value.freq.groups[s].rows
  {
    RoundFromKeepsRoots(st.freq, {}, st.freq.order, a, qi[a], st.levels[a], gen, |qi|, s);
  }

  /** When no row is in two groups, a round moves each row to a key that
      differs from its old key at most at the chosen index. */
  lemma RoundTracesRows(st: Engine, a: nat, qi: seq<string>, gen: Hierarchy)
    requires Wellformed(st, |qi|) && a < |qi| && Round(st, a, qi, gen).Some? && Disjoint(st.freq)
    ensures Traced(st.freq, Round(st, a, qi, gen).value.freq, a)
  {
    var f := st.freq;
    assert Traced(f, f, a) by {
      forall k0, k1, x: nat | Holds(f, k0, x) && Holds(f, k1, x) ensures AgreeExcept(k0, k1, a) {
        assert k0 == k1;
      }
    }
    RoundFromTraced(f, f, {}, f.order, a, qi[a], st.levels[a], gen, |qi|);
  }

  /** With no hierarchy answering a value with itself, a round keeps the
      row sets disjoint, exactly counted and non-empty, keeps the set of
      rows, and so keeps the total count. */
  lemma RoundKeepsRows(st: Engine, a: nat, qi: seq<string>, gen: Hierarchy)
    requires Wellformed(st, |qi|) && a < |qi| && Round(st, a, qi, gen).Some?
    requires NoFixpoint(gen) && Disjoint(st.freq) && CountsMatch(st.freq) && Populated(st.freq)
    ensures var f' := Round(st, a, qi, gen).value.freq;
      && Disjoint(f') && CountsMatch(f') && Populated(f') && Rows(f') == Rows(st.freq)
      && Total(f'.order, f'.groups) == Total(st.freq.order, st.freq.groups)
  {
    var f := st.freq;
    RoundFromKeepsRows(f, {}, f.order, a, qi[a], st.levels[a], gen, |qi|);
    var f' := Round(st, a, qi, gen).value.freq;
    TotalIsRowCount(f);
    TotalIsRowCount(f');
  }

  /** Key `t` of a round's result for attribute `a` holds the hierarchy's
      own answer at `a`: either `t` is a key of `f0` whose value there is a
      root, or `t` agrees everywhere but at `a` with a key `s` of `f0`, and
      the hierarchy answers `s[a]` with `t[a]`. */
  ghost predicate Settled(f0: Freq, t: Key, a: nat, name: string, level: nat, gen: Hierarchy)
  {
    a < |t| &&
    ((t in f0.groups && gen(name, t[a], level).Root?) ||
     exists s :: s in f0.groups && AgreeExcept(s, t, a) && gen(name, s[a], level) == Parent(t[a]))
  }

  /** A step removes the key it rewrites. */
  lemma StepDropsKey(f: Freq, key: Key, a: nat, g: string)
    requires Valid(f) && key in f.groups && a < |key|
    ensures key !in Step(f, key, a, g).groups
  {
  }

  /** Every key the walk leaves behind holds the hierarchy's answer at `a`,
      given that every key not yet visited is still in `rest`. */
  lemma {:induction false} RoundFromSettles(f0: Freq, f: Freq, seen: set<string>, rest: seq<Key>, a: nat,
                                            name: string, level: nat, gen: Hierarchy, n: nat)
    requires Valid(f) && Shaped(f, n) && a < n
    requires Distinct(rest) && forall s :: s in rest ==> s in f.groups && s in f0.groups
    requires forall t :: t in f.groups ==> t in rest || Settled(f0, t, a, name, level, gen)
    ensures var r := RoundFrom(f, seen, rest, a, name, level, gen, n);
      r.Some? ==> forall t :: t in r.value.freq.groups ==> Settled(f0, t, a, name, level, gen)
    decreases |rest|
  {
    if rest != [] {
      var key := rest[0];
      assert Distinct(rest[1..]) && key !in rest[1..];
      assert forall s :: s in rest <==> s == key || s in rest[1..];
      match gen(name, key[a], level)
      case Unknown =>
      case Root =>
        RoundFromSettles(f0, f, seen, rest[1..], a, name, level, gen, n);
      case Parent(g) =>
        var f' := Step(f, key, a, g);
        var next := Generalized(key, a, g);
        StepDropsKey(f, key, a, g);
        forall t | t in f'.groups ensures t in rest[1..] || Settled(f0, t, a, name, level, gen) {
          if t == next {
            assert AgreeExcept(key, t, a) && gen(name, key[a], level) == Parent(t[a]);
          } else {
            assert t in f.groups && t != key;
          }
        }
        RoundFromSettles(f0, f', seen + {key[a]}, rest[1..], a, name, level, gen, n);
    }
  }

  /** After a round every key's value at the chosen index is what the
      hierarchy answers: a root it kept, or the parent of the value some key
      of the old dictionary had there, with its other values unchanged. */
  lemma RoundGeneralizesKeys(st: Engine, a: nat, qi: seq<string>, gen: Hierarchy)
    requires Wellformed(st, |qi|) && a < |qi| && Round(st, a, qi, gen).Some?
    ensures forall t :: t in Round(st, a, qi, gen).value.freq.groups ==>
              Settled(st.freq, t, a, qi[a], st.levels[a], gen)
  {
    var f := st.freq;
    RoundFromSettles(f, f, {}, f.order, a, qi[a], st.levels[a], gen, |qi|);
  }

  /** A round abandons the run exactly when the hierarchy raises KeyError for
      the chosen value of some key. */
  lemma RoundAborts(st: Engine, a: nat, qi: seq<string>, gen: Hierarchy)
    requires Wellformed(st, |qi|) && a < |qi|
    ensures Round(st, a, qi, gen).None? <==>
              exists s :: s in st.freq.groups && gen(qi[a], s[a], st.levels[a]).Unknown?
  {
    RoundFromAborts(st.freq, {}, st.freq.order, a, qi[a], st.levels[a], gen, |qi|);
  }
}
