/** The suppression step of _Table.anonymize: the keys whose count is below k
    are collected, then deleted from the dictionary one by one. */
module Suppression {
  import opened Table
  import opened Frequency

  /** The keys occurring fewer than k times. */
  function Doomed(f: Freq, k: int): set<Key>
  {
    set key | key in f.groups && f.groups[key].count < k
  }

  /** The dictionary once the doomed keys are deleted: the others keep their
      groups and their relative order. */
  function Suppressed(f: Freq, k: int): (r: Freq)
    requires Valid(f)
    ensures Valid(r)
    ensures forall key :: key in r.groups <==> key in f.groups && f.groups[key].count >= k
    ensures forall key :: key in r.groups ==> r.groups[key] == f.groups[key]
    ensures Subsequence(r.order, f.order)
  {
    WithoutDistinct(f.order, Doomed(f, k));
    WithoutSubsequence(f.order, Doomed(f, k));
    Remainder(f, Doomed(f, k))
  }

  /** The first loop: the keys with a count below k, gathered in iteration
      order. */
  method CollectDoomed(f: Freq, k: int) returns (toRem: set<Key>)
    requires Valid(f)
    ensures toRem == Doomed(f, k)
  {
    toRem := {};
    var i := 0;
    while i < |f.order|
      invariant 0 <= i <= |f.order|
      invariant forall key :: key in toRem <==> key in f.order[..i] && f.groups[key].count < k
    {
      assert f.order[..i + 1] == f.order[..i] + [f.order[i]];
      if f.groups[f.order[i]].count < k {
        toRem := toRem + {f.order[i]};
      }
      i := i + 1;
    }
    assert f.order[..i] == f.order;
  }

  /** The second loop: deletes the collected keys in whatever order the
      set yields them. */
  method DeleteAll(f: Freq, toDelete: set<Key>) returns (r: Freq)
    requires Valid(f)
    ensures r == Remainder(f, toDelete)
  {
    var toRem := toDelete;
    r := f;
    ghost var removed: set<Key> := {};
    DeleteNothing(f);
    while toRem != {}
      invariant toRem + removed == toDelete && toRem !! removed
      invariant r == Remainder(f, removed)
      decreases |toRem|
    {
      var elem :| elem in toRem;
      DeleteOneMore(f, removed, elem);
      r := Pop(r, elem);
      toRem := toRem - {elem};
      removed := removed + {elem};
    }
    assert removed == toDelete;
  }

  /** Both loops: collect the doomed keys, then delete them. */
  method Suppress(f: Freq, k: int) returns (r: Freq)
    requires Valid(f)
    ensures r == Suppressed(f, k)
  {
    var toRem := CollectDoomed(f, k);
    r := DeleteAll(f, toRem);
  }

  lemma DeleteNothing(f: Freq)
    ensures Remainder(f, {}) == f
  {
    WithoutNothing(f.order);
    assert f.groups - {} == f.groups;
  }

  /** Deleting one more key from a dictionary that lost `removed`. */
  lemma DeleteOneMore(f: Freq, removed: set<Key>, elem: Key)
    requires Valid(f)
    ensures Valid(Remainder(f, removed))
    ensures Pop(Remainder(f, removed), elem) == Remainder(f, removed + {elem})
  {
    WithoutDistinct(f.order, removed);
    WithoutWithout(f.order, removed, {elem});
    assert f.groups - removed - {elem} == f.groups - (removed + {elem});
  }

  lemma {:induction false} WithoutNothing(s: seq<Key>)
    ensures Without(s, {}) == s
  {
    if s != [] {
      WithoutNothing(s[..|s| - 1]);
    }
  }

  /** Over keys of the dictionary, the total count is the count below k plus
      the total count of the keys that survive. */
  lemma {:induction false} TotalSplits(keys: seq<Key>, f: Freq, k: int)
    requires forall key :: key in keys ==> key in f.groups
    ensures var d := Doomed(f, k);
      Total(keys, f.groups) == Violation(keys, f.groups, k) + Total(Without(keys, d), f.groups - d)
  {
    if keys != [] {
      var d := Doomed(f, k);
      var init := keys[..|keys| - 1];
      var last := keys[|keys| - 1];
      TotalSplits(init, f, k);
      var w := Without(init, d);
      if last !in d {
        assert (w + [last])[..|w + [last]| - 1] == w;
      }
    }
  }

  /** Suppression removes exactly the count the violation measure reports. */
  lemma SuppressionRemovesViolation(f: Freq, k: int)
    requires Valid(f)
    ensures Total(f.order, f.groups) ==
              Violation(f.order, f.groups, k) + Total(Suppressed(f, k).order, Suppressed(f, k).groups)
  {
    TotalSplits(f.order, f, k);
  }

  /** With the rows partitioned among the groups, the rows suppression drops
      are as many as the violation measure says, and the rows kept are the
      rows of the surviving groups, still partitioned. */
  lemma SuppressedRows(f: Freq, k: int)
    requires Valid(f) && Disjoint(f) && CountsMatch(f) && Populated(f)
    ensures var s := Suppressed(f, k);
      && Disjoint(s) && CountsMatch(s) && Populated(s) && Rows(s) <= Rows(f)
      && |Rows(f) - Rows(s)| == Violation(f.order, f.groups, k)
  {
    var s := Suppressed(f, k);
    assert Disjoint(s) by {
      forall k1, k2, x | Holds(s, k1, x) && Holds(s, k2, x) ensures k1 == k2 {
        assert Holds(f, k1, x) && Holds(f, k2, x);
      }
    }
    assert Rows(s) <= Rows(f) by {
      forall x | x in Rows(s) ensures x in Rows(f) {
        var key :| key in s.groups && x in s.groups[key].rows;
        assert Holds(f, key, x);
      }
    }
    SuppressionRemovesViolation(f, k);
    TotalIsRowCount(f);
    TotalIsRowCount(s);
    var a := Rows(f);
    var b := Rows(s);
    assert a == (a - b) + b && (a - b) !! b;
  }
}
