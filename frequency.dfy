/** The QI frequency dictionary of the anonymiser: a Python dictionary from
    QI tuples to (row list, count), whose iteration order is insertion order.
    It is modelled as the sequence of keys in that order plus a map, and the
    row list as the set of its row indices (only membership is ever asked of
    it). Also the violation measure compute_count. */
module Frequency {
  import opened Table

  /** A QI tuple: one value per quasi-identifier, in the order of the QI names. */
  type Key = seq<string>

  /** The rows sharing one QI tuple, and the occurrence count kept beside them. */
  datatype Group = Group(rows: set<nat>, count: nat)

  /** The frequency dictionary: keys in iteration order and the group of each key. */
  datatype Freq = Freq(order: seq<Key>, groups: map<Key, Group>)

  /** What anonymize keeps between generalisation rounds: the dictionary,
      one domain set per QI index and one generalisation level per QI index. */
  datatype Engine = Engine(freq: Freq, domains: seq<set<string>>, levels: seq<nat>)

  /** The keys of `s` that are not in `x`, in their order. */
  function Without(s: seq<Key>, x: set<Key>): (r: seq<Key>)
    ensures forall key :: key in r <==> key in s && key !in x
    ensures |r| <= |s|
  {
    if s == [] then []
    else
      var init := Without(s[..|s| - 1], x);
      if s[|s| - 1] in x then init else init + [s[|s| - 1]]
  }

  /** `r` lists entries of `s` in the order `s` lists them: positions
      `idx` of `s`, strictly increasing, hold the entries of `r`. */
  ghost predicate Subsequence(r: seq<Key>, s: seq<Key>)
  {
    exists idx: seq<nat> :: KeptAt(idx, r, s)
  }

  ghost predicate KeptAt(idx: seq<nat>, r: seq<Key>, s: seq<Key>)
  {
    && |idx| == |r|
    && (forall i :: 0 <= i < |idx| ==> idx[i] < |s| && s[idx[i]] == r[i])
    && (forall i, j :: 0 <= i < j < |idx| ==> idx[i] < idx[j])
  }

  /** The positions of `s` whose keys are not in `x`, in increasing order. */
  function Kept(s: seq<Key>, x: set<Key>): (idx: seq<nat>)
    ensures KeptAt(idx, Without(s, x), s)
  {
    if s == [] then []
    else
      var init := Kept(s[..|s| - 1], x);
      if s[|s| - 1] in x then init else init + [|s| - 1]
  }

  /** Removing keys keeps the order of the others. */
  lemma WithoutSubsequence(s: seq<Key>, x: set<Key>)
    ensures Subsequence(Without(s, x), s)
  {
    var idx := Kept(s, x);
    assert KeptAt(idx, Without(s, x), s);
  }

  lemma {:induction false} WithoutDistinct(s: seq<Key>, x: set<Key>)
    requires Distinct(s)
    ensures Distinct(Without(s, x))
  {
    if s != [] {
      var init := s[..|s| - 1];
      assert Distinct(init);
      WithoutDistinct(init, x);
      assert s[|s| - 1] !in init;
    }
  }

  /** Removing two sets of keys one after the other removes their union. */
  lemma {:induction false} WithoutWithout(s: seq<Key>, x: set<Key>, y: set<Key>)
    ensures Without(Without(s, x), y) == Without(s, x + y)
  {
    if s != [] {
      var init := s[..|s| - 1];
      WithoutWithout(init, x, y);
      var w := Without(init, x);
      var last := s[|s| - 1];
      if last !in x {
        assert (w + [last])[..|w + [last]| - 1] == w;
      }
    }
  }

  /** The dictionary's keys are listed once each, and the listed keys are
      exactly the keys of the map. */
  ghost predicate Valid(f: Freq)
  {
    Distinct(f.order) && forall key :: key in f.groups <==> key in f.order
  }

  /** `d[key] = g`: a present key keeps its place, a new key goes last. */
  function Put(f: Freq, key: Key, g: Group): (r: Freq)
    ensures Valid(f) ==> Valid(r)
    ensures r.groups == f.groups[key := g]
    ensures key in f.groups ==> r.order == f.order
    ensures key !in f.groups ==> r.order == f.order + [key]
  {
    if key in f.groups then Freq(f.order, f.groups[key := g])
    else Freq(f.order + [key], f.groups[key := g])
  }

  /** The dictionary after deleting the keys of `removed`. */
  function Remainder(f: Freq, removed: set<Key>): Freq
  {
    Freq(Without(f.order, removed), f.groups - removed)
  }

  /** `d.pop(key)` and `del d[key]`: the key leaves both the order and the map. */
  function Pop(f: Freq, key: Key): (r: Freq)
    requires Valid(f)
    ensures Valid(r)
    ensures r.groups == f.groups - {key}
    ensures Subsequence(r.order, f.order)
  {
    WithoutDistinct(f.order, {key});
    WithoutSubsequence(f.order, {key});
    Remainder(f, {key})
  }

  /** Every key has one value per QI name. */
  ghost predicate Shaped(f: Freq, n: nat)
  {
    forall key :: key in f.groups ==> |key| == n
  }

  /** The state is well formed for `n` QI names. */
  ghost predicate Wellformed(st: Engine, n: nat)
  {
    Valid(st.freq) && Shaped(st.freq, n) && |st.domains| == n && |st.levels| == n
  }

  /** Row `r` belongs to the group of `key`. */
  predicate Holds(f: Freq, key: Key, r: nat)
  {
    key in f.groups && r in f.groups[key].rows
  }

  /** No row belongs to two groups. */
  ghost predicate Disjoint(f: Freq)
  {
    forall k1, k2, r :: Holds(f, k1, r) && Holds(f, k2, r) ==> k1 == k2
  }

  /** Each group's count is the number of its rows. */
  ghost predicate CountsMatch(f: Freq)
  {
    forall key :: key in f.groups ==> f.groups[key].count == |f.groups[key].rows|
  }

  /** Every group has at least one row. */
  ghost predicate Populated(f: Freq)
  {
    forall key :: key in f.groups ==> f.groups[key].count > 0
  }

  /** The rows of all groups. */
  function Rows(f: Freq): set<nat>
  {
    set key, r | key in f.groups && r in f.groups[key].rows :: r
  }

  /** The rows of the groups of `keys`. */
  function RowsIn(keys: seq<Key>, groups: map<Key, Group>): set<nat>
  {
    set key, r | key in keys && key in groups && r in groups[key].rows :: r
  }

  /** The sum of the counts of the groups of `keys`. */
  function Total(keys: seq<Key>, groups: map<Key, Group>): nat
    requires forall key :: key in keys ==> key in groups
  {
    if keys == [] then 0
    else Total(keys[..|keys| - 1], groups) + groups[keys[|keys| - 1]].count
  }

  /** The violation measure: the sum of the counts of the groups of `keys`
      that have fewer than k occurrences. */
  function Violation(keys: seq<Key>, groups: map<Key, Group>, k: int): nat
    requires forall key :: key in keys ==> key in groups
  {
    if keys == [] then 0
    else
      var c := groups[keys[|keys| - 1]].count;
      Violation(keys[..|keys| - 1], groups, k) + (if c < k then c else 0)
  }

  /** _Table.compute_count: accumulates the counts below k over the
      dictionary's values. */
  method CountViolations(f: Freq, k: int) returns (count: nat)
    requires Valid(f)
    ensures count == Violation(f.order, f.groups, k)
  {
    count := 0;
    var i := 0;
    while i < |f.order|
      invariant 0 <= i <= |f.order|
      invariant count == Violation(f.order[..i], f.groups, k)
    {
      assert f.order[..i + 1][..i] == f.order[..i];
      var g := f.groups[f.order[i]];
      if g.count < k {
        count := count + g.count;
      }
      i := i + 1;
    }
    assert f.order[..i] == f.order;
  }

  /** The violating groups hold part of the total. */
  lemma {:induction false} ViolationAtMostTotal(keys: seq<Key>, groups: map<Key, Group>, k: int)
    requires forall key :: key in keys ==> key in groups
    ensures Violation(keys, groups, k) <= Total(keys, groups)
  {
    if keys != [] {
      ViolationAtMostTotal(keys[..|keys| - 1], groups, k);
    }
  }

  /** With non-empty groups, the measure is 0 exactly when no group of
      `keys` has fewer than k occurrences. */
  lemma {:induction false} ViolationZeroIff(keys: seq<Key>, groups: map<Key, Group>, k: int)
    requires forall key :: key in keys ==> key in groups && groups[key].count > 0
    ensures Violation(keys, groups, k) == 0 <==> forall key :: key in keys ==> groups[key].count >= k
  {
    if keys != [] {
      var init := keys[..|keys| - 1];
      ViolationZeroIff(init, groups, k);
      assert keys == init + [keys[|keys| - 1]];
    }
  }

  /** The rows of the groups of `keys` are those of all but the last key,
      plus those of the last. */
  lemma RowsInSnoc(keys: seq<Key>, groups: map<Key, Group>)
    requires keys != [] && keys[|keys| - 1] in groups
    ensures RowsIn(keys, groups) == RowsIn(keys[..|keys| - 1], groups) + groups[keys[|keys| - 1]].rows
  {
    var init := keys[..|keys| - 1];
    var last := keys[|keys| - 1];
    assert keys == init + [last];
    forall r | r in RowsIn(keys, groups)
      ensures r in RowsIn(init, groups) + groups[last].rows
    {
      var key :| key in keys && key in groups && r in groups[key].rows;
      if key != last {
        assert key in init;
      }
    }
  }

  /** Over distinct keys of a dictionary whose row sets are disjoint and
      counted exactly, the counts add up to the number of rows. */
  lemma {:induction false} TotalOfKeys(keys: seq<Key>, f: Freq)
    requires Distinct(keys) && forall key :: key in keys ==> key in f.groups
    requires Disjoint(f) && CountsMatch(f)
    ensures Total(keys, f.groups) == |RowsIn(keys, f.groups)|
  {
    if keys != [] {
      var init := keys[..|keys| - 1];
      var last := keys[|keys| - 1];
      assert Distinct(init);
      TotalOfKeys(init, f);
      RowsInSnoc(keys, f.groups);
      var a := RowsIn(init, f.groups);
      var b := f.groups[last].rows;
      assert last !in init;
      forall r | r in a ensures r !in b {
        var key :| key in init && key in f.groups && r in f.groups[key].rows;
        assert Holds(f, key, r);
        assert key != last;
        assert !Holds(f, last, r);
      }
      assert a * b == {};
    }
  }

  /** The dictionary's total count is its number of rows. */
  lemma TotalIsRowCount(f: Freq)
    requires Valid(f) && Disjoint(f) && CountsMatch(f)
    ensures Total(f.order, f.groups) == |Rows(f)|
  {
    TotalOfKeys(f.order, f);
    assert RowsIn(f.order, f.groups) == Rows(f);
  }

  /** Storing a group under a new key adds its rows; storing a group that
      extends a present key's rows adds the extension. */
  lemma RowsAfterPut(f: Freq, key: Key, g: Group, extra: set<nat>)
    requires key in f.groups ==> g.rows == f.groups[key].rows + extra
    requires key !in f.groups ==> g.rows == extra
    ensures Rows(Put(f, key, g)) == Rows(f) + extra
  {
    var f' := Put(f, key, g);
    forall r | r in Rows(f') ensures r in Rows(f) + extra {
      var k :| k in f'.groups && r in f'.groups[k].rows;
      if k != key {
        assert Holds(f, k, r);
      }
    }
    forall r | r in Rows(f) ensures r in Rows(f') {
      var k :| k in f.groups && r in f.groups[k].rows;
      assert Holds(f', k, r);
    }
    forall r | r in extra ensures r in Rows(f') {
      assert Holds(f', key, r);
    }
  }

  /** The values the keys hold at QI index j. */
  function ValuesAt(f: Freq, j: nat): set<string>
  {
    set key | key in f.groups && j < |key| :: key[j]
  }

  /** Storing under a key a group that adds rows found in no group, counted
      exactly, keeps the row sets disjoint and exactly counted. */
  lemma PutPartition(f: Freq, key: Key, g: Group, extra: set<nat>)
    requires Disjoint(f) && CountsMatch(f) && Populated(f)
    requires key in f.groups ==> g.rows == f.groups[key].rows + extra
    requires key !in f.groups ==> g.rows == extra
    requires extra !! Rows(f) && g.count == |g.rows| && g.count > 0
    ensures var f' := Put(f, key, g);
      Disjoint(f') && CountsMatch(f') && Populated(f') && Rows(f') == Rows(f) + extra
  {
    RowsAfterPut(f, key, g, extra);
    PutDisjoint(f, key, g, extra);
    PutCounts(f, key, g);
  }

  lemma PutCounts(f: Freq, key: Key, g: Group)
    requires CountsMatch(f) && Populated(f) && g.count == |g.rows| && g.count > 0
    ensures CountsMatch(Put(f, key, g)) && Populated(Put(f, key, g))
  {
  }

  lemma PutDisjoint(f: Freq, key: Key, g: Group, extra: set<nat>)
    requires Disjoint(f)
    requires key in f.groups ==> g.rows == f.groups[key].rows + extra
    requires key !in f.groups ==> g.rows == extra
    requires extra !! Rows(f)
    ensures Disjoint(Put(f, key, g))
  {
    var f' := Put(f, key, g);
    forall k1, k2, r: nat | Holds(f', k1, r) && Holds(f', k2, r) ensures k1 == k2 {
      if r in extra {
        assert !Holds(f, k1, r) && !Holds(f, k2, r);
      } else {
        assert Holds(f, k1, r) && Holds(f, k2, r);
      }
    }
  }
}
