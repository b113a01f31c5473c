/** The rule records that the mining library hands to the post-processing
    pipeline, one row of the rule table each. */
module Rules {

  /** An item of the shopping data, encoded as an integer code. */
  type Item = int

  /** One association rule: antecedents => consequents, with its metrics.
      The metrics are only ever compared, never computed, so they are reals. */
  datatype Rule = Rule(
    antecedents: seq<Item>,
    consequents: seq<Item>,
    support: real,
    confidence: real,
    lift: real)

  /** The hard-coded confidence threshold of the rule filter. */
  const MinConfidence: real := 0.5

  /** The rows are ordered by non-increasing lift (ties in any order). */
  predicate LiftNonIncreasing(rows: seq<Rule>)
  {
    forall i, j :: 0 <= i < j < |rows| ==> rows[i].lift >= rows[j].lift
  }

  /** The `list.index` result: a position, or None where Python raises ValueError. */
  datatype Option<T> = None | Some(value: T)
}
