/** Python's `sorted` on item lists and the combined key of a rule: the sorted
    list of all of its items, whichever side of the implication they are on. */
module Keys {
  import opened Rules

  type Key = seq<Item>

  predicate Sorted(s: seq<Item>)
  {
    forall i, j :: 0 <= i < j < |s| ==> s[i] <= s[j]
  }

  /** Prepending an item no larger than the head keeps a list sorted. */
  lemma SortedCons(x: Item, s: seq<Item>)
    requires Sorted(s)
    requires s != [] ==> x <= s[0]
    ensures Sorted([x] + s)
  {
  }

  /** The head of a sorted list is its least element. */
  lemma SortedHeadIsLeast(s: seq<Item>, x: Item)
    requires Sorted(s) && x in multiset(s)
    ensures s != [] && s[0] <= x
  {
    var k :| 0 <= k < |s| && s[k] == x;
  }

  /** Inserts x into a sorted list at its place. */
  function Insert(x: Item, s: seq<Item>): (r: seq<Item>)
    requires Sorted(s)
    ensures Sorted(r)
    ensures multiset(r) == multiset(s) + multiset{x}
    ensures r[0] == x || (s != [] && r[0] == s[0])
  {
    if s == [] then [x]
    else if x <= s[0] then
      SortedCons(x, s);
      [x] + s
    else
      var tail := Insert(x, s[1..]);
      assert s == [s[0]] + s[1..];
      SortedCons(s[0], tail);
      [s[0]] + tail
  }

  /** Python's `sorted` on a list of items: ascending, keeping duplicates. */
  function SortItems(s: seq<Item>): (r: seq<Item>)
    ensures Sorted(r)
    ensures multiset(r) == multiset(s)
  {
    if s == [] then []
    else
      assert s == [s[0]] + s[1..];
      Insert(s[0], SortItems(s[1..]))
  }

  /** Dropping the head of a list removes one occurrence of it. */
  lemma TailMultiset(s: seq<Item>)
    requires s != []
    ensures multiset(s[1..]) == multiset(s) - multiset{s[0]}
    ensures Sorted(s) ==> Sorted(s[1..])
  {
    assert s == [s[0]] + s[1..];
  }

  /** A list is determined by its multiset once it is sorted. */
  lemma {:induction false} SortedUnique(a: seq<Item>, b: seq<Item>)
    requires Sorted(a) && Sorted(b)
    requires multiset(a) == multiset(b)
    ensures a == b
  {
    assert |a| == |multiset(a)| == |multiset(b)| == |b|;
    if a != [] {
      assert a[0] == b[0] by {
        assert a[0] in multiset(b) && b[0] in multiset(a);
        SortedHeadIsLeast(b, a[0]);
        SortedHeadIsLeast(a, b[0]);
      }
      assert Sorted(a[1..]) && Sorted(b[1..]) && multiset(a[1..]) == multiset(b[1..]) by {
        TailMultiset(a);
        TailMultiset(b);
      }
      SortedUnique(a[1..], b[1..]);
      assert a == [a[0]] + a[1..];
      assert b == [b[0]] + b[1..];
    }
  }

  /** Sorting is a no-op on a list that is already sorted. */
  lemma SortItemsOfSorted(s: seq<Item>)
    requires Sorted(s)
    ensures SortItems(s) == s
  {
    SortedUnique(SortItems(s), s);
  }

  /** The redundancy key of a rule: its antecedent list sorted, followed by its
      consequent list sorted, and the concatenation sorted once more. */
  function CombinedKey(r: Rule): (k: Key)
    ensures Sorted(k)
    ensures multiset(k) == multiset(r.antecedents) + multiset(r.consequents)
    ensures |k| == |r.antecedents| + |r.consequents|
  {
    SortItems(SortItems(r.antecedents) + SortItems(r.consequents))
  }

  /** Two rules get the same key exactly when they talk about the same items,
      however those items are split between antecedents and consequents. */
  lemma KeyIgnoresSplit(r1: Rule, r2: Rule)
    ensures CombinedKey(r1) == CombinedKey(r2) <==>
      (multiset(r1.antecedents) + multiset(r1.consequents) ==
       multiset(r2.antecedents) + multiset(r2.consequents))
  {
    if multiset(r1.antecedents) + multiset(r1.consequents)
      == multiset(r2.antecedents) + multiset(r2.consequents)
    {
      SortedUnique(CombinedKey(r1), CombinedKey(r2));
    }
  }

  /** The per-side sorts do not change the key: it is the sorted list of all items. */
  lemma KeyIsSortedConcatenation(r: Rule)
    ensures CombinedKey(r) == SortItems(r.antecedents + r.consequents)
  {
    SortedUnique(CombinedKey(r), SortItems(r.antecedents + r.consequents));
  }
}
