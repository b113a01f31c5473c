/** Redundant-rule removal: one row per distinct key, the row at the first
    position carrying that key. The key type and the key of a row are left
    abstract here; the pipeline instantiates them with the combined key. */
module Redundancy {
  import opened Rules

  /** Position i is the first one in `keys` holding keys[i]. */
  predicate IsFirstOccurrence<K(==)>(keys: seq<K>, i: int)
  {
    0 <= i < |keys| && forall j :: 0 <= j < i ==> keys[j] != keys[i]
  }

  /** No value occurs twice. */
  predicate Distinct<K(==)>(s: seq<K>)
  {
    forall p, q :: 0 <= p < q < |s| ==> s[p] != s[q]
  }

  /** `set(tuple(x) for x in rules_sets)`: the distinct keys. */
  function KeySet<K>(keys: seq<K>): (unique: set<K>)
    ensures forall i :: 0 <= i < |keys| ==> keys[i] in unique
    ensures forall k :: k in unique ==> exists i :: 0 <= i < |keys| && keys[i] == k
  {
    set k | k in keys
  }

  /** There are no more distinct keys than rows. */
  lemma {:induction false} KeySetBound<K>(keys: seq<K>)
    ensures |KeySet(keys)| <= |keys|
  {
    if keys != [] {
      assert KeySet(keys) == {keys[0]} + KeySet(keys[1..]);
      KeySetBound(keys[1..]);
    }
  }

  /** With pairwise distinct keys, there are exactly as many distinct keys as rows. */
  lemma {:induction false} KeySetOfDistinct<K>(keys: seq<K>)
    requires Distinct(keys)
    ensures |KeySet(keys)| == |keys|
  {
    if keys != [] {
      assert KeySet(keys) == {keys[0]} + KeySet(keys[1..]);
      assert keys[0] !in KeySet(keys[1..]);
      KeySetOfDistinct(keys[1..]);
    }
  }

  /** `list.index`: the first position holding x, or None (ValueError) if there is none. */
  method IndexOf<K(==)>(keys: seq<K>, x: K) returns (r: Option<nat>)
    ensures r.None? <==> x !in keys
    ensures r.Some? ==> r.value < |keys| && keys[r.value] == x && IsFirstOccurrence(keys, r.value)
  {
    var i := 0;
    while i < |keys|
      invariant 0 <= i <= |keys|
      invariant forall j :: 0 <= j < i ==> keys[j] != x
    {
      if keys[i] == x {
        return Some(i);
      }
      i := i + 1;
    }
    return None;
  }

  /** `[rules_sets.index(x) for x in unique_rules_sets]`: walks the distinct keys in
      an unspecified order and collects the first position of each. */
  method FirstOccurrenceIndices<K(==)>(keys: seq<K>) returns (index: seq<nat>)
    ensures forall p :: 0 <= p < |index| ==> IsFirstOccurrence(keys, index[p])
    ensures forall i :: IsFirstOccurrence(keys, i) ==> i in index
    ensures Distinct(index)
    ensures |index| == |KeySet(keys)|
  {
    var unique := KeySet(keys);
    var remaining := unique;
    index := [];
    while remaining != {}
      invariant remaining <= unique
      invariant |index| + |remaining| == |unique|
      invariant forall p :: 0 <= p < |index| ==>
        IsFirstOccurrence(keys, index[p]) && keys[index[p]] !in remaining
      invariant Distinct(index)
      invariant forall i :: IsFirstOccurrence(keys, i) && keys[i] !in remaining ==> i in index
      decreases |remaining|
    {
      var k :| k in remaining;
      var found := IndexOf(keys, k);
      match found
      case None =>
        assert false;
      case Some(i) =>
        assert forall p :: 0 <= p < |index| ==> keys[index[p]] != k;
        index := index + [i];
        remaining := remaining - {k};
    }
  }

  /** No position before a first occurrence holds its key. */
  lemma FirstOccurrenceIsEarliest<K>(keys: seq<K>, i: int, j: int)
    requires IsFirstOccurrence(keys, i)
    requires 0 <= j < |keys| && keys[j] == keys[i]
    ensures i <= j
  {
  }

  /** Every key in the list has a first occurrence. */
  lemma {:induction false} FirstOccurrenceExists<K>(keys: seq<K>, j: int)
    requires 0 <= j < |keys|
    ensures exists i :: IsFirstOccurrence(keys, i) && keys[i] == keys[j]
    decreases j
  {
    if !IsFirstOccurrence(keys, j) {
      var j' :| 0 <= j' < j && keys[j'] == keys[j];
      FirstOccurrenceExists(keys, j');
    }
  }

  /** The key of every row of the table, in table order (`list(ma_X)`). */
  function KeysOf<K>(rows: seq<Rule>, key: Rule -> K): (keys: seq<K>)
    ensures |keys| == |rows|
    ensures forall i :: 0 <= i < |rows| ==> keys[i] == key(rows[i])
  {
    seq(|rows|, i requires 0 <= i < |rows| => key(rows[i]))
  }

  /** `iloc[index, :]`: the rows at the given positions, unchanged, in that order. */
  function SelectRows(rows: seq<Rule>, index: seq<nat>): (selected: seq<Rule>)
    requires forall p :: 0 <= p < |index| ==> index[p] < |rows|
    ensures |selected| == |index|
    ensures forall p :: 0 <= p < |index| ==> selected[p] == rows[index[p]]
    ensures forall x :: x in selected ==> x in rows
  {
    seq(|index|, p requires 0 <= p < |index| => rows[index[p]])
  }

  /** In a table sorted by non-increasing lift, the first row with a key has the
      highest lift among all rows with that key. */
  lemma FirstOccurrenceHasMaxLift<K>(rows: seq<Rule>, key: Rule -> K, i: int, y: Rule)
    requires LiftNonIncreasing(rows)
    requires IsFirstOccurrence(KeysOf(rows, key), i)
    requires y in rows && key(y) == key(rows[i])
    ensures rows[i].lift >= y.lift
  {
    var j :| 0 <= j < |rows| && rows[j] == y;
    var keys := KeysOf(rows, key);
    FirstOccurrenceIsEarliest(keys, i, j);
  }

  /** Each selected first-occurrence row has the highest lift among the rows
      of a lift-sorted table that share its key. */
  lemma SelectionHasMaxLift<K>(rows: seq<Rule>, key: Rule -> K, index: seq<nat>, x: Rule, y: Rule)
    requires LiftNonIncreasing(rows)
    requires forall p :: 0 <= p < |index| ==> index[p] < |rows| && IsFirstOccurrence(KeysOf(rows, key), index[p])
    requires x in SelectRows(rows, index)
    requires y in rows && key(x) == key(y)
    ensures x.lift >= y.lift
  {
    var selected := SelectRows(rows, index);
    var p :| 0 <= p < |selected| && selected[p] == x;
    assert x == rows[index[p]];
    FirstOccurrenceHasMaxLift(rows, key, index[p], y);
  }

  /** The rows at first-occurrence positions have pairwise distinct keys. */
  lemma SelectionHasDistinctKeys<K>(rows: seq<Rule>, key: Rule -> K, index: seq<nat>)
    requires forall p :: 0 <= p < |index| ==> index[p] < |rows| && IsFirstOccurrence(KeysOf(rows, key), index[p])
    requires Distinct(index)
    ensures Distinct(KeysOf(SelectRows(rows, index), key))
  {
    var keys := KeysOf(rows, key);
    var selectedKeys := KeysOf(SelectRows(rows, index), key);
    forall p, q | 0 <= p < q < |selectedKeys| ensures selectedKeys[p] != selectedKeys[q] {
      assert selectedKeys[p] == keys[index[p]] && selectedKeys[q] == keys[index[q]];
      if index[p] < index[q] {
        assert IsFirstOccurrence(keys, index[q]);
      } else {
        assert IsFirstOccurrence(keys, index[p]);
      }
    }
  }

  /** Selecting every first occurrence keeps every key of the table. */
  lemma SelectionCoversKeys<K>(rows: seq<Rule>, key: Rule -> K, index: seq<nat>, x: Rule)
    requires forall p :: 0 <= p < |index| ==> index[p] < |rows|
    requires forall i :: IsFirstOccurrence(KeysOf(rows, key), i) ==> i in index
    requires x in rows
    ensures key(x) in KeysOf(SelectRows(rows, index), key)
  {
    var keys := KeysOf(rows, key);
    var j :| 0 <= j < |rows| && rows[j] == x;
    FirstOccurrenceExists(keys, j);
    var i :| IsFirstOccurrence(keys, i) && keys[i] == keys[j];
    assert i in index;
    var p :| 0 <= p < |index| && index[p] == i;
    assert KeysOf(SelectRows(rows, index), key)[p] == keys[i];
  }

  /** A row of a table with distinct keys occurs in it at most once. */
  lemma {:induction false} DistinctKeysOccurOnce<K>(rows: seq<Rule>, key: Rule -> K, x: Rule)
    requires Distinct(KeysOf(rows, key))
    ensures multiset(rows)[x] <= 1
  {
    if rows != [] {
      var keys := KeysOf(rows, key);
      assert rows == [rows[0]] + rows[1..];
      assert Distinct(KeysOf(rows[1..], key)) by {
        forall p, q | 0 <= p < q < |rows| - 1
          ensures KeysOf(rows[1..], key)[p] != KeysOf(rows[1..], key)[q]
        {
          assert KeysOf(rows[1..], key)[p] == keys[p + 1];
          assert KeysOf(rows[1..], key)[q] == keys[q + 1];
        }
      }
      DistinctKeysOccurOnce(rows[1..], key, x);
      if x == rows[0] {
        assert x !in rows[1..] by {
          forall q | 0 <= q < |rows| - 1 ensures rows[1..][q] != x {
            assert keys[q + 1] != keys[0];
          }
        }
      }
    }
  }

  /** A row at two positions occurs at least twice. */
  lemma TwoPositionsCountTwice(rows: seq<Rule>, p: int, q: int)
    requires 0 <= p < q < |rows| && rows[p] == rows[q]
    ensures multiset(rows)[rows[p]] >= 2
  {
    assert rows == rows[..q] + rows[q..];
    assert rows[p] == rows[..q][p];
    assert rows[q] == rows[q..][0];
  }

  /** Reordering the rows cannot make two of them share a key. */
  lemma DistinctKeysPermutation<K>(a: seq<Rule>, b: seq<Rule>, key: Rule -> K)
    requires multiset(a) == multiset(b)
    requires Distinct(KeysOf(b, key))
    ensures Distinct(KeysOf(a, key))
  {
    var keysA, keysB := KeysOf(a, key), KeysOf(b, key);
    forall p, q | 0 <= p < q < |a| ensures keysA[p] != keysA[q] {
      if a[p] == a[q] {
        TwoPositionsCountTwice(a, p, q);
        DistinctKeysOccurOnce(b, key, a[p]);
      } else {
        assert a[p] in multiset(b) && a[q] in multiset(b);
        var p' :| 0 <= p' < |b| && b[p'] == a[p];
        var q' :| 0 <= q' < |b| && b[q'] == a[q];
        if p' < q' {
          assert keysB[p'] != keysB[q'];
        } else {
          assert keysB[q'] != keysB[p'];
        }
      }
    }
  }

  /** Reordering the rows keeps the keys that occur among them. */
  lemma KeysOfPermutation<K>(a: seq<Rule>, b: seq<Rule>, key: Rule -> K, k: K)
    requires multiset(a) == multiset(b)
    requires k in KeysOf(b, key)
    ensures k in KeysOf(a, key)
  {
    var p :| 0 <= p < |b| && KeysOf(b, key)[p] == k;
    assert b[p] in multiset(a);
    var r :| 0 <= r < |a| && a[r] == b[p];
    assert KeysOf(a, key)[r] == k;
  }

  /** Running the removal again on a table whose keys are already distinct
      selects every row once: for any positions that the index collection may
      return, the selection is the table itself, up to order. */
  lemma RemovalIdempotent<K>(rows: seq<Rule>, key: Rule -> K, index: seq<nat>)
    requires Distinct(KeysOf(rows, key))
    requires forall p :: 0 <= p < |index| ==>
      index[p] < |rows| && IsFirstOccurrence(KeysOf(rows, key), index[p])
    requires forall i :: IsFirstOccurrence(KeysOf(rows, key), i) ==> i in index
    requires Distinct(index)
    ensures multiset(SelectRows(rows, index)) == multiset(rows)
  {
    var keys := KeysOf(rows, key);
    var selected := SelectRows(rows, index);
    SelectionHasDistinctKeys(rows, key, index);
    forall x ensures multiset(selected)[x] == multiset(rows)[x] {
      DistinctKeysOccurOnce(rows, key, x);
      DistinctKeysOccurOnce(selected, key, x);
      if x in rows {
        var j :| 0 <= j < |rows| && rows[j] == x;
        assert IsFirstOccurrence(keys, j);
        var p :| 0 <= p < |index| && index[p] == j;
        assert selected[p] == x;
      }
    }
    assert multiset(selected) == multiset(rows);
  }
}
