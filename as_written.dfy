/**
 * `filter(predicate, falseConsumer)` exactly as its body is written at
 * Nullable.java:116-128, where the guard reads "not present AND the predicate
 * holds". Kept apart from the documented behaviour (`Nullables.FilterElse`),
 * which the rest of the model uses, so that the divergence is stated and proved.
 */
module AsWritten {
  import opened Nullables

  /**
   * The literal code. `accepts` is the predicate as Java hands it the stored
   * reference, so on an empty box it receives null. The `&&` short-circuits:
   * the predicate runs only when the box is empty.
   */
  function FilterAsWritten<X>(n: Nullable<X>, accepts: Option<X> -> bool, hasFalseConsumer: bool): (t: Traced<Nullable<X>, X>)
    ensures t.result == Nullable(None)
    ensures !IsPresent(n) ==> t.calls == [TestedNull]
    ensures IsPresent(n) ==> t.calls == if hasFalseConsumer then [Rejected(n.stored.value)] else []
  {
    var tested := !IsPresent(n);
    var result := if tested && accepts(n.stored) then n else Nullable(None);
    var notify := IsPresent(n) != IsPresent(result) && hasFalseConsumer;
    var testCalls: seq<Call<X>> := if tested then [TestedNull] else [];
    match n.stored
    case None => Traced(result, testCalls)
    case Some(v) => Traced(result, testCalls + if notify then [Rejected(v)] else [])
  }

  /**
   * The divergence, on a present box whose value the predicate accepts: the code
   * as written empties the box, never tests the value, and tells the false consumer
   * the value was rejected; the documented filter keeps the box, tests the value
   * once and tells the consumer nothing.
   */
  lemma FilterAsWrittenDropsAcceptedValue<X>(v: X)
    ensures var asWritten := FilterAsWritten(Nullable(Some(v)), (x: Option<X>) => true, true);
      asWritten.result == Nullable(None) && asWritten.calls == [Rejected(v)]
    ensures var intended := FilterElse(Nullable(Some(v)), (x: X) => true, true);
      intended.result == Nullable(Some(v)) && intended.calls == [Tested(v)]
  {
  }

  /**
   * In general the two agree on an empty box's result but never on its calls (the
   * code as written hands null to the predicate), and on a present box they agree
   * exactly when the documented filter would have emptied it anyway.
   */
  lemma FilterAsWrittenAgreesOnlyOnRejection<X>(n: Nullable<X>, accepts: X -> bool, hasFalseConsumer: bool)
    ensures var liftedAccepts := (x: Option<X>) => x.Some? && accepts(x.value);
      var asWritten := FilterAsWritten(n, liftedAccepts, hasFalseConsumer);
      var intended := FilterElse(n, accepts, hasFalseConsumer);
      && (asWritten.result == intended.result <==> !IsPresent(intended.result))
      && (!IsPresent(n) ==> asWritten.calls != intended.calls)
      && (IsPresent(n) ==> (Notices(asWritten.calls) == [n.stored.value] <==> hasFalseConsumer))
  {
  }
}
