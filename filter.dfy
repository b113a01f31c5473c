/** The boolean-mask selection `rules[rules['confidence'] >= 0.5]`. */
module ConfidenceFilter {
  import opened Rules

  predicate Confident(r: Rule)
  {
    r.confidence >= MinConfidence
  }

  /** Keeps the rows whose confidence reaches the threshold, in table order. */
  function FilterByConfidence(rows: seq<Rule>): (kept: seq<Rule>)
    ensures |kept| <= |rows|
    ensures forall i :: 0 <= i < |kept| ==> Confident(kept[i])
  {
    if rows == [] then []
    else (if Confident(rows[0]) then [rows[0]] else []) + FilterByConfidence(rows[1..])
  }

  /** Each confident row is kept as often as it occurs; no other row is kept. */
  lemma {:induction false} FilterKeepsExactlyConfident(rows: seq<Rule>)
    ensures |FilterByConfidence(rows)| <= |rows|
    ensures forall x ::
      multiset(FilterByConfidence(rows))[x] == (if Confident(x) then multiset(rows)[x] else 0)
    ensures forall x :: x in FilterByConfidence(rows) <==> x in rows && Confident(x)
  {
    if rows != [] {
      assert rows == [rows[0]] + rows[1..];
      FilterKeepsExactlyConfident(rows[1..]);
      var kept := FilterByConfidence(rows);
      forall x ensures x in kept <==> x in rows && Confident(x) {
        assert x in kept <==> x in multiset(kept);
        assert x in rows <==> x in multiset(rows);
      }
    }
  }

  /** Filtering [r] + rest decides r, then filters rest. */
  lemma FilterCons(r: Rule, rest: seq<Rule>)
    ensures FilterByConfidence([r] + rest) ==
      (if Confident(r) then [r] else []) + FilterByConfidence(rest)
  {
    assert ([r] + rest)[0] == r;
    assert ([r] + rest)[1..] == rest;
  }

  /** The filter works row by row: filtering a concatenation is concatenating
      the filtered parts, so the relative order of kept rows is the input's. */
  lemma {:induction false} FilterDistributes(a: seq<Rule>, b: seq<Rule>)
    ensures FilterByConfidence(a + b) == FilterByConfidence(a) + FilterByConfidence(b)
  {
    if a == [] {
      assert a + b == b;
    } else {
      var head := if Confident(a[0]) then [a[0]] else [];
      assert a + b == [a[0]] + (a[1..] + b);
      FilterCons(a[0], a[1..] + b);
      FilterDistributes(a[1..], b);
      assert head + (FilterByConfidence(a[1..]) + FilterByConfidence(b))
          == (head + FilterByConfidence(a[1..])) + FilterByConfidence(b);
    }
  }

  /** A single row is kept exactly when it is confident. */
  lemma FilterSingleton(r: Rule)
    ensures FilterByConfidence([r]) == if Confident(r) then [r] else []
  {
    FilterCons(r, []);
    assert [r] + [] == [r];
  }

  /** Filtering twice is filtering once. */
  lemma {:induction false} FilterIdempotent(rows: seq<Rule>)
    ensures FilterByConfidence(FilterByConfidence(rows)) == FilterByConfidence(rows)
  {
    if rows != [] {
      var head := if Confident(rows[0]) then [rows[0]] else [];
      FilterDistributes(head, FilterByConfidence(rows[1..]));
      if Confident(rows[0]) { FilterSingleton(rows[0]); }
      FilterIdempotent(rows[1..]);
    }
  }
}
