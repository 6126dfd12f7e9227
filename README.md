# Nullable: a verified model

This project models `Nullable<X>`, a Java class from the `ru.bedward70.nullable` package. It is an immutable
"zero or one value" container. Its single `final` field holds a reference that may be null. The box is
present exactly when that reference is not null. Its combinators read the value, filter it, map it and tap
it. As documented, each of them calls the caller's callbacks on one branch only (the body of `filter` departs
from this; see "## Findings"):

- a predicate or mapper runs only when the box is present;
- a supplier runs only when it is absent;
- an optional consumer runs only when a present box came out empty.

The model is pure, like the class:

- `Nullables.Nullable<X>` is a datatype with one field `stored: Option<X>`. `None` plays the part of Java's null.
- Each combinator is a function of the box and the callbacks. It returns a `Traced` pair: the result, plus the
  ordered log (`seq<Call<X>>`) of callback invocations with the value each one was handed. "Called exactly
  once with the original value" is therefore a statement about that log.
- Required callbacks are plain function parameters: a predicate `X -> bool`, a mapper `X -> Option<Y>` (it may
  return null) and a supplier `() -> Option<X>`.
- An optional consumer is a flag saying whether the caller passed one. The log records each time it is called.
- The element type's own `hashCode` and `toString` are parameters `hash: X -> int` and `str: X -> string`.

Three modules:

- `Nullables` (nullable.dfy): the class and its documented contracts.
- `AsWritten` (as_written.dfy): `filter` exactly as its body is written (see Findings).
- `Chains` (chains.dfy): the combinators chained fluently over one element type. It shows how the
  per-call contracts compose along a chain.

## Model

| member | source | states |
|---|---|---|
| `Nullables.Get` | src/main/java/ru/bedward70/nullable/Nullable.java:58-60 | `get` returns the stored reference verbatim, null included: wrapping the result again gives back the same box |
| `Nullables.IsPresent` | src/main/java/ru/bedward70/nullable/Nullable.java:89-91 | `isPresent` holds exactly when the stored reference is not null, that is, when the box differs from the one built from null |
| `Nullables.WrapRoundTrip` | src/main/java/ru/bedward70/nullable/Nullable.java:89-91 | reading back what the constructor stored returns it unchanged; `isPresent` holds exactly when that reference is non-null |
| `Nullables.GetOr` | src/main/java/ru/bedward70/nullable/Nullable.java:67-71 | the stored value when present, the default when absent; the answer is null only when the box is empty and the default is null |
| `Nullables.GetOrGet` | src/main/java/ru/bedward70/nullable/Nullable.java:79-83 | when present: the stored value, and the supplier is never called; when absent: the supplier's result, and the supplier is called exactly once |
| `Nullables.GetOrGetAgreesWithGetOr` | src/main/java/ru/bedward70/nullable/Nullable.java:67-83 | `getOrGet` with a supplier of `d` returns what `getOr(d)` returns, and calls the supplier at most once (only when absent) |
| `Nullables.FilterElse` | src/main/java/ru/bedward70/nullable/Nullable.java:106-128 | documented `filter(predicate, falseConsumer)`: on an empty box, returns it and calls nothing; on a present box, tests the value once, first; keeps the box when the test passes; otherwise empties it and then, if a consumer was given, hands it the original value |
| `Nullables.FilterElseNotices` | src/main/java/ru/bedward70/nullable/Nullable.java:124-126 | the false consumer gets exactly `[v]` (once, with the original value) iff a consumer was given, the input was present and the output is empty; in every other case it is never called |
| `Nullables.Filter` | src/main/java/ru/bedward70/nullable/Nullable.java:93-104 | `filter(predicate)`: the predicate is called exactly once, with the value, iff the box is present; the result is the original box iff present and accepted, otherwise empty |
| `Nullables.MapElse` | src/main/java/ru/bedward70/nullable/Nullable.java:141-161 | `map(mapper, nullResultConsumer)`: an empty box maps to an empty box and the mapper is not called; a present value is mapped once, first, and the result wraps the mapper's answer; the consumer, if given, is called afterwards with the original value exactly when that answer is null |
| `Nullables.MapElseNotices` | src/main/java/ru/bedward70/nullable/Nullable.java:157-159 | the null-result consumer gets exactly `[v]` iff it was given, the input was present and the mapped box is empty; otherwise it is never called |
| `Nullables.Map` | src/main/java/ru/bedward70/nullable/Nullable.java:130-139 | `map(mapper)`: the result is present iff the input is present and the mapper's answer is non-null, and it then holds that answer; the mapper runs once with the value iff present |
| `Nullables.FilterIsMapToSelfOrNull` | src/main/java/ru/bedward70/nullable/Nullable.java:116-161 | filtering is mapping each value to itself or to null: same resulting box, and the false consumer is told exactly what a null-result consumer would be told |
| `Nullables.Peek` | src/main/java/ru/bedward70/nullable/Nullable.java:163-175 | the tap `map(consumer)` returns the same box, and calls the consumer once, with the value, iff present |
| `Nullables.Stream` | src/main/java/ru/bedward70/nullable/Nullable.java:177-185 | `stream` yields at most one element; exactly one iff present, and that element is the stored value |
| `Nullables.Equals` | src/main/java/ru/bedward70/nullable/Nullable.java:196-212 | two boxes are equal iff their stored references are equal: two empty boxes are equal, and an empty box never equals a present one |
| `Nullables.HashCode` | src/main/java/ru/bedward70/nullable/Nullable.java:187-194 | an empty box hashes to 0; a present box hashes to the element's own hash |
| `Nullables.HashCodeAgreesWithEquals` | src/main/java/ru/bedward70/nullable/Nullable.java:187-212 | boxes that `equals` relates have equal `hashCode` |
| `Nullables.ToString` | src/main/java/ru/bedward70/nullable/Nullable.java:214-223 | an empty box prints as `Nullable.null`; a present one prints as `Nullable[`, then the element's own text, then `]` |
| `Nullables.ToStringShowsPresence` | src/main/java/ru/bedward70/nullable/Nullable.java:219-223 | an empty box and a present box never print alike, whatever text the element type produces |
| `Nullables.ToStringDistinguishes` | src/main/java/ru/bedward70/nullable/Nullable.java:219-223 | when the element type's text identifies the element, equal texts mean equal boxes |
| `AsWritten.FilterAsWritten` | src/main/java/ru/bedward70/nullable/Nullable.java:116-128 | the literal code always returns an empty box; it calls the predicate only on an empty box, handing it null; it reports every present value to the false consumer as rejected |
| `AsWritten.FilterAsWrittenDropsAcceptedValue` | src/main/java/ru/bedward70/nullable/Nullable.java:119-123 | with an always-true predicate on a present box: the code as written empties the box and reports a rejection, while the documented filter keeps the box and tests the value once |
| `AsWritten.FilterAsWrittenAgreesOnlyOnRejection` | src/main/java/ru/bedward70/nullable/Nullable.java:116-128 | the code as written returns the documented result exactly when the documented result is empty; its calls on an empty box always differ from the documented ones; on a present box it reports the value as rejected iff a consumer was given |
| `Chains.Step` | src/main/java/ru/bedward70/nullable/Nullable.java:116-175 | every chainable combinator (filter, map, tap) passes an empty box through as empty without calling anything |
| `Chains.RunEmptyIsInert` | src/main/java/ru/bedward70/nullable/Nullable.java:150-175 | an empty box goes through a whole chain of filters, maps and taps without calling a single callback, and comes out empty |
| `Chains.StepNotices` | src/main/java/ru/bedward70/nullable/Nullable.java:116-161 | one stage's other-branch consumer receives exactly `[v]` iff it was given and the stage emptied a present box |
| `Chains.RunNoticesAtMostOnce` | src/main/java/ru/bedward70/nullable/Nullable.java:116-161 | along any chain at most one other-branch consumer fires, and only if a present box came out empty; when every stage has its consumer, one fires exactly when the value was lost |
| `Chains.FilterChainKeepsIffAllAccept` | src/main/java/ru/bedward70/nullable/Nullable.java:93-128 | a chain of filters keeps a present value iff every predicate accepts it; every callback it runs is handed that value |

## Left out

- Null required callbacks (Nullable.java:77, 99, 114, 135, 148, 168) are not modelled. The predicate, mapper, supplier and tap consumer are total functions, so the `NullPointerException` cannot arise.
- Exceptions thrown by callbacks are not modelled. They propagate unchanged, and the box has no logic around them.
- The consumers' own effects are not modelled. Each consumer is reduced to its invocations, which the `calls` log records. The tests' `AtomicInteger` counters correspond to counting log entries.
- `stream` gives only its elements, `[]` or `[v]`. Java `Stream` laziness and the rest of the Stream API are not modelled.
- Reference identity (`this == obj`, Nullable.java:204) is not modelled separately: value equality subsumes it. Comparison with an object that is not a `Nullable` is not modelled either. Neither is comparison of empty boxes with different type parameters (Nullable.java:206). `Equals` compares two boxes of the same type.
- Element equality is Dafny's `==`. The element type's own `equals` method is not modelled.
- `hashCode` and `toString` of the element type are foreign code. They appear as the parameters `hash` and `str`. So the concrete `Integer` hash values in NullableEqualTest.java:61-91 (1 and 2 hash differently) are not stated.
- `String.format`'s handling of `%s` is reduced to the element's own text.
- The unchecked cast `(Nullable<Y>) this` on the empty path of `map` (Nullable.java:155) becomes a fresh empty box of the mapped type.
- `Chains` only models chains over one element type, with mappers `X -> Option<X>`. A chain whose maps change the element type cannot be held in one Dafny sequence.

## Findings

| source | as written | input that shows it | evidently intended | confidence | as-written member | corrected member |
|---|---|---|---|---|---|---|
| src/main/java/ru/bedward70/nullable/Nullable.java:119 | the guard is `!isPresent() && predicate.test(this.value)`, so `filter` always returns an empty box; it tests the predicate only on an empty box, passing it null; and it reports every present value to the false consumer | `new Nullable<>("value for true case").filter(v -> true, c)`: the code returns an empty box and calls `c` once | guard `isPresent() && predicate.test(this.value)`, which keeps an accepted value, as the doc comments at Nullable.java:93-98 and 106-113 say and NullableFilterTest.java:55-72, 116-123 and 134-144 expect | high: the tests contradict the code directly; not executed | `AsWritten.FilterAsWrittenDropsAcceptedValue` | `Nullables.FilterElse` |

The rest of the model (`Filter`, `Chains`) uses the corrected `FilterElse`.
