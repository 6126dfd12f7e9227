/**
 * Fluent chains `box.filter(...).map(...).map(consumer)...` over one element
 * type: each combinator returns a box that the next one receives. The per-call
 * contracts of `Nullables` compose into chain-wide facts: an empty box passes
 * through every later stage without running a callback, and at most one
 * "other branch" consumer fires along the whole chain.
 */
module Chains {
  import opened Nullables

  /** One link of a chain. The flags say whether the optional consumer was passed. */
  datatype Stage<!X> =
    | Keep(accepts: X -> bool, hasFalseConsumer: bool)             // filter(accepts, falseConsumer)
    | Convert(mapper: X -> Option<X>, hasNullResultConsumer: bool) // map(mapper, nullResultConsumer)
    | Tap                                                          // map(consumer)

  function Step<X>(n: Nullable<X>, stage: Stage<X>): (t: Traced<Nullable<X>, X>)
    ensures !IsPresent(n) ==> t == Traced(Nullable(None), [])
  {
    match stage
    case Keep(accepts, hasFalseConsumer) => FilterElse(n, accepts, hasFalseConsumer)
    case Convert(mapper, hasNullResultConsumer) => MapElse(n, mapper, hasNullResultConsumer)
    case Tap => Peek(n)
  }

  /** Runs the stages left to right; the calls are those of each stage, in order. */
  function Run<X>(n: Nullable<X>, stages: seq<Stage<X>>): (t: Traced<Nullable<X>, X>)
    decreases |stages|
  {
    if |stages| == 0 then Traced(n, [])
    else
      var first := Step(n, stages[0]);
      var rest := Run(first.result, stages[1..]);
      Traced(rest.result, first.calls + rest.calls)
  }

  /** An empty box runs no callback anywhere along a chain and comes out empty. */
  lemma {:induction false} RunEmptyIsInert<X>(stages: seq<Stage<X>>)
    ensures Run(Nullable(None), stages) == Traced(Nullable(None), [])
    decreases |stages|
  {
    if |stages| > 0 {
      RunEmptyIsInert(stages[1..]);
    }
  }

  /** A stage's notices: the original value, once, exactly when a consumer was passed
      and the stage emptied a present box. */
  lemma StepNotices<X>(n: Nullable<X>, stage: Stage<X>)
    ensures var t := Step(n, stage);
      Notices(t.calls) == if Attended(stage) && IsPresent(n) && !IsPresent(t.result) then [n.stored.value] else []
  {
  }

  /** No loss at this stage goes unreported: a filter or map carries the consumer that
      reacts to its "other branch"; a tap never empties a box, so it has nothing to report. */
  predicate Attended<X>(stage: Stage<X>)
  {
    match stage
    case Keep(_, hasFalseConsumer) => hasFalseConsumer
    case Convert(_, hasNullResultConsumer) => hasNullResultConsumer
    case Tap => true
  }

  /**
   * Along any chain at most one "other branch" consumer fires, and it fires only
   * when a present box came out empty. When every stage carries its consumer, it
   * fires exactly when the value was lost.
   */
  lemma {:induction false} RunNoticesAtMostOnce<X>(n: Nullable<X>, stages: seq<Stage<X>>)
    ensures var t := Run(n, stages);
      && |Notices(t.calls)| <= 1
      && (|Notices(t.calls)| == 1 ==> IsPresent(n) && !IsPresent(t.result))
      && ((forall i | 0 <= i < |stages| :: Attended(stages[i])) ==>
            (|Notices(t.calls)| == 1 <==> IsPresent(n) && !IsPresent(t.result)))
    decreases |stages|
  {
    if |stages| > 0 {
      var first := Step(n, stages[0]);
      var rest := Run(first.result, stages[1..]);
      NoticesAppend(first.calls, rest.calls);
      StepNotices(n, stages[0]);
      RunNoticesAtMostOnce(first.result, stages[1..]);
      if !IsPresent(first.result) {
        RunEmptyIsInert(stages[1..]);
      }
      if forall i | 0 <= i < |stages| :: Attended(stages[i]) {
        assert Attended(stages[0]);
        forall i | 0 <= i < |stages[1..]| ensures Attended(stages[1..][i]) {
          assert stages[1..][i] == stages[i + 1];
        }
      }
    }
  }

  /** A chain of filters keeps a present value exactly when every predicate accepts it,
      and every callback it runs is handed that value. */
  lemma {:induction false} FilterChainKeepsIffAllAccept<X>(v: X, stages: seq<Stage<X>>)
    requires forall i | 0 <= i < |stages| :: stages[i].Keep?
    ensures var t := Run(Nullable(Some(v)), stages);
      && (t.result == Nullable(Some(v)) <==> forall i | 0 <= i < |stages| :: stages[i].accepts(v))
      && (IsPresent(t.result) ==> t.result == Nullable(Some(v)))
      && forall c | c in t.calls :: c == Tested(v) || c == Rejected(v)
    decreases |stages|
  {
    if |stages| > 0 {
      var n := Nullable(Some(v));
      var first := Step(n, stages[0]);
      assert forall i | 0 <= i < |stages[1..]| :: stages[1..][i] == stages[i + 1];
      if stages[0].accepts(v) {
        assert first.result == n;
        FilterChainKeepsIffAllAccept(v, stages[1..]);
        var rest := Run(n, stages[1..]);
        if forall i | 0 <= i < |stages[1..]| :: stages[1..][i].accepts(v) {
          assert forall i | 0 <= i < |stages| :: stages[i].accepts(v);
        }
      } else {
        RunEmptyIsInert(stages[1..]);
      }
    }
  }
}
