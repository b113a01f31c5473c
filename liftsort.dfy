/** `sort_values('lift', ascending=False, inplace=True)` on the rule table. */
module LiftSort {
  import opened Rules

  /** Exchanges two rows of the table. */
  method Swap(a: array<Rule>, i: int, j: int)
    requires 0 <= i < a.Length && 0 <= j < a.Length
    modifies a
    ensures a[..] == old(a[..])[i := old(a[j])][j := old(a[i])]
    ensures multiset(a[..]) == old(multiset(a[..]))
  {
    a[i], a[j] := a[j], a[i];
  }

  /** Moves row i leftwards past every row of lower lift, so that the first
      i + 1 rows are ordered when the first i were. */
  method SinkRow(a: array<Rule>, i: int)
    requires 0 <= i < a.Length
    requires forall p, q :: 0 <= p < q < i ==> a[p].lift >= a[q].lift
    modifies a
    ensures forall p, q :: 0 <= p < q <= i ==> a[p].lift >= a[q].lift
    ensures multiset(a[..]) == old(multiset(a[..]))
    ensures a[i + 1..] == old(a[i + 1..])
  {
    var j := i;
    while j > 0 && a[j - 1].lift < a[j].lift
      invariant 0 <= j <= i
      invariant forall p, q :: 0 <= p < q <= i && q != j ==> a[p].lift >= a[q].lift
      invariant multiset(a[..]) == old(multiset(a[..]))
      invariant a[i + 1..] == old(a[i + 1..])
    {
      Swap(a, j - 1, j);
      j := j - 1;
    }
  }

  /** Sorts the table in place by non-increasing lift. The order among rows of
      equal lift is left open, as the library's default sort is not stable. */
  method SortByLift(a: array<Rule>)
    modifies a
    ensures LiftNonIncreasing(a[..])
    ensures multiset(a[..]) == old(multiset(a[..]))
  {
    var i := 0;
    while i < a.Length
      invariant 0 <= i <= a.Length
      invariant forall p, q :: 0 <= p < q < i ==> a[p].lift >= a[q].lift
      invariant multiset(a[..]) == old(multiset(a[..]))
    {
      SinkRow(a, i);
      i := i + 1;
    }
  }
}
