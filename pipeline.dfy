/** The post-processing of the mined rule table, from the confidence filter to
    the lift-ordered, redundancy-free table that is shown and saved. */
module Pipeline {
  import opened Rules
  import opened Keys
  import opened ConfidenceFilter
  import opened LiftSort
  import opened Redundancy

  /** Copies a table into a fresh array and sorts it there by lift. */
  method SortedCopy(rows: seq<Rule>) returns (sorted: seq<Rule>)
    ensures multiset(sorted) == multiset(rows)
    ensures |sorted| == |rows|
    ensures LiftNonIncreasing(sorted)
  {
    var table := new Rule[|rows|](i requires 0 <= i < |rows| => rows[i]);
    assert table[..] == rows;
    SortByLift(table);
    sorted := table[..];
    assert |sorted| == |multiset(sorted)| == |multiset(rows)| == |rows|;
  }

  /** The whole post-processing. `ranked` is the confident rules by lift (the
      table shown as the top rules), `index` the kept positions in it, and
      `result` the redundancy-free table that is shown and saved. */
  method PostProcess(mined: seq<Rule>) returns (ranked: seq<Rule>, index: seq<nat>, result: seq<Rule>)
    ensures multiset(ranked) == multiset(FilterByConfidence(mined))
    ensures LiftNonIncreasing(ranked)
    ensures forall p :: 0 <= p < |index| ==>
      index[p] < |ranked| && IsFirstOccurrence(KeysOf(ranked, CombinedKey), index[p])
    ensures forall i :: IsFirstOccurrence(KeysOf(ranked, CombinedKey), i) ==> i in index
    ensures Distinct(index)
    ensures multiset(result) == multiset(SelectRows(ranked, index))
    ensures LiftNonIncreasing(result)
    ensures forall x :: x in result ==> x in mined && Confident(x)
    ensures Distinct(KeysOf(result, CombinedKey))
    ensures forall x :: x in mined && Confident(x) ==> CombinedKey(x) in KeysOf(result, CombinedKey)
    ensures |result| == |KeySet(KeysOf(ranked, CombinedKey))| <= |ranked|
    ensures forall x, y :: x in result && y in mined && Confident(y) && CombinedKey(x) == CombinedKey(y) ==>
      x.lift >= y.lift
  {
    var filtered := FilterByConfidence(mined);
    ranked := SortedCopy(filtered);
    var keys := KeysOf(ranked, CombinedKey);
    index := FirstOccurrenceIndices(keys);
    var selected := SelectRows(ranked, index);
    result := SortedCopy(selected);
    SelectionHasDistinctKeys(ranked, CombinedKey, index);
    DistinctKeysPermutation(result, selected, CombinedKey);
    KeySetBound(keys);
    FilterKeepsExactlyConfident(mined);
    ResultRowsAreConfident(mined, ranked, index, result);
    ResultCoversKeys(mined, ranked, index, result);
    ResultHasMaxLift(mined, ranked, index, result);
  }

  /** Every kept row is a confident mined row, unchanged. */
  lemma ResultRowsAreConfident(mined: seq<Rule>, ranked: seq<Rule>, index: seq<nat>, result: seq<Rule>)
    requires multiset(ranked) == multiset(FilterByConfidence(mined))
    requires forall p :: 0 <= p < |index| ==> index[p] < |ranked|
    requires multiset(result) == multiset(SelectRows(ranked, index))
    ensures forall x :: x in result ==> x in mined && Confident(x)
  {
    var selected := SelectRows(ranked, index);
    FilterKeepsExactlyConfident(mined);
    forall x | x in result ensures x in mined && Confident(x) {
      assert x in multiset(selected);
      var p :| 0 <= p < |selected| && selected[p] == x;
      assert x in multiset(ranked);
    }
  }

  /** Every key of a confident mined rule is the key of some kept row. */
  lemma ResultCoversKeys(mined: seq<Rule>, ranked: seq<Rule>, index: seq<nat>, result: seq<Rule>)
    requires multiset(ranked) == multiset(FilterByConfidence(mined))
    requires forall p :: 0 <= p < |index| ==> index[p] < |ranked|
    requires forall i :: IsFirstOccurrence(KeysOf(ranked, CombinedKey), i) ==> i in index
    requires multiset(result) == multiset(SelectRows(ranked, index))
    ensures forall x :: x in mined && Confident(x) ==> CombinedKey(x) in KeysOf(result, CombinedKey)
  {
    FilterKeepsExactlyConfident(mined);
    forall x | x in mined && Confident(x) ensures CombinedKey(x) in KeysOf(result, CombinedKey) {
      assert x in multiset(FilterByConfidence(mined));
      assert x in multiset(ranked);
      SelectionCoversKeys(ranked, CombinedKey, index, x);
      KeysOfPermutation(result, SelectRows(ranked, index), CombinedKey, CombinedKey(x));
    }
  }

  /** Every kept row has the highest lift among the confident mined rules with its key. */
  lemma ResultHasMaxLift(mined: seq<Rule>, ranked: seq<Rule>, index: seq<nat>, result: seq<Rule>)
    requires multiset(ranked) == multiset(FilterByConfidence(mined))
    requires LiftNonIncreasing(ranked)
    requires forall p :: 0 <= p < |index| ==>
      index[p] < |ranked| && IsFirstOccurrence(KeysOf(ranked, CombinedKey), index[p])
    requires multiset(result) == multiset(SelectRows(ranked, index))
    ensures forall x, y :: x in result && y in mined && Confident(y) && CombinedKey(x) == CombinedKey(y) ==>
      x.lift >= y.lift
  {
    var selected := SelectRows(ranked, index);
    FilterKeepsExactlyConfident(mined);
    forall x, y | x in result && y in mined && Confident(y) && CombinedKey(x) == CombinedKey(y)
      ensures x.lift >= y.lift
    {
      assert x in multiset(selected);
      assert y in multiset(FilterByConfidence(mined));
      assert y in multiset(ranked);
      SelectionHasMaxLift(ranked, CombinedKey, index, x, y);
    }
  }
}
