/**
 * The `Nullable<X>` container: an immutable box around one reference that
 * may be null. Every combinator is a function of the box and of the
 * caller's callbacks; it returns its result together with the ordered log
 * of the callback invocations it made, so that "which callback runs, how
 * often and with which value" is part of what the contracts state.
 */
module Nullables {

  /** A reference of type X as the Java program sees it: null or an object. */
  datatype Option<+X> = None | Some(value: X)

  /** The box. Its only field is set once, by the constructor, and never changes. */
  datatype Nullable<X> = Nullable(stored: Option<X>)

  /** One invocation of a caller-supplied callback, with the value it was handed. */
  datatype Call<X> =
    | Tested(arg: X)        // predicate.test(value)
    | TestedNull            // predicate.test(null)
    | Applied(arg: X)       // mapper.apply(value)
    | Supplied              // supplier.get()
    | Rejected(arg: X)      // falseConsumer.accept(value), after a failed filter
    | MappedToNull(arg: X)  // nullResultConsumer.accept(value), after a mapper returned null
    | Peeked(arg: X)        // consumer.accept(value), in the tap

  /** A result together with the callbacks invoked, in order, to compute it. */
  datatype Traced<R, X> = Traced(result: R, calls: seq<Call<X>>)

  /** The values handed to an "other branch" consumer (rejected or mapped-to-null), in order. */
  function Notices<X>(calls: seq<Call<X>>): (r: seq<X>)
    ensures |r| <= |calls|
    ensures calls == [] ==> r == []
  {
    if |calls| == 0 then []
    else
      var head := match calls[0]
        case Rejected(x) => [x]
        case MappedToNull(x) => [x]
        case _ => [];
      head + Notices(calls[1..])
  }

  lemma {:induction false} NoticesAppend<X>(a: seq<Call<X>>, b: seq<Call<X>>)
    ensures Notices(a + b) == Notices(a) + Notices(b)
  {
    if |a| == 0 {
      assert a + b == b;
    } else {
      assert (a + b)[0] == a[0];
      assert (a + b)[1..] == a[1..] + b;
      NoticesAppend(a[1..], b);
    }
  }

  /** `get`: the stored reference, verbatim, null included. */
  function Get<X>(n: Nullable<X>): (r: Option<X>)
    ensures Nullable(r) == n
  {
    n.stored
  }

  /** `isPresent`: the stored reference is not null, so the box is not the one built from null. */
  function IsPresent<X>(n: Nullable<X>): (r: bool)
    ensures r <==> n != Nullable(None)
  {
    n.stored != None
  }

  /** Wrapping a reference and reading it back is the identity, and presence is non-nullness. */
  lemma WrapRoundTrip<X>(x: Option<X>)
    ensures Get(Nullable(x)) == x
    ensures IsPresent(Nullable(x)) <==> x.Some?
  {
  }

  /** `getOr`: the stored reference when present, otherwise the caller's default. */
  function GetOr<X>(n: Nullable<X>, other: Option<X>): (r: Option<X>)
    ensures IsPresent(n) ==> r == Get(n)
    ensures !IsPresent(n) ==> r == other
    ensures r == None <==> !IsPresent(n) && other == None
  {
    if IsPresent(n) then n.stored else other
  }

  /** `getOrGet`: the stored reference when present, otherwise what the supplier yields;
      the supplier is consulted exactly on the absent path, once. */
  function GetOrGet<X>(n: Nullable<X>, supplier: () -> Option<X>): (t: Traced<Option<X>, X>)
    ensures IsPresent(n) ==> t.result == Get(n) && t.calls == []
    ensures !IsPresent(n) ==> t.result == supplier() && t.calls == [Supplied]
  {
    if IsPresent(n) then Traced(n.stored, []) else Traced(supplier(), [Supplied])
  }

  /** `getOrGet` with a supplier of `d` answers what `getOr(d)` answers. */
  lemma GetOrGetAgreesWithGetOr<X>(n: Nullable<X>, d: Option<X>)
    ensures GetOrGet(n, () => d).result == GetOr(n, d)
    ensures |GetOrGet(n, () => d).calls| == if IsPresent(n) then 0 else 1
  {
  }

  /**
   * `filter(accepts, falseConsumer)` as its documentation and tests describe it:
   * an empty box short-circuits; a present value is tested once; the box is kept
   * when the test passes and emptied when it fails; and the consumer, when there
   * is one, is told the original value exactly when presence was lost.
   * `hasFalseConsumer` says whether the caller passed a non-null consumer.
   */
  function FilterElse<X>(n: Nullable<X>, accepts: X -> bool, hasFalseConsumer: bool): (t: Traced<Nullable<X>, X>)
    ensures !IsPresent(n) ==> t == Traced(n, [])
    ensures IsPresent(n) ==> |t.calls| >= 1 && t.calls[0] == Tested(n.stored.value)
    ensures IsPresent(n) && accepts(n.stored.value) ==> t.result == n && |t.calls| == 1
    ensures IsPresent(n) && !accepts(n.stored.value) ==>
      t.result == Nullable(None) && t.calls[1..] == (if hasFalseConsumer then [Rejected(n.stored.value)] else [])
  {
    match n.stored
    case None => Traced(n, [])
    case Some(v) =>
      var result := if accepts(v) then n else Nullable(None);
      var notify := IsPresent(n) != IsPresent(result) && hasFalseConsumer;
      Traced(result, [Tested(v)] + if notify then [Rejected(v)] else [])
  }

  /** The false consumer receives exactly the original value, once, iff it was supplied
      and a present box came out empty; otherwise it is never called. */
  lemma FilterElseNotices<X>(n: Nullable<X>, accepts: X -> bool, hasFalseConsumer: bool)
    ensures var t := FilterElse(n, accepts, hasFalseConsumer);
      Notices(t.calls) == if hasFalseConsumer && IsPresent(n) && !IsPresent(t.result) then [n.stored.value] else []
  {
  }

  /** `filter(accepts)`: the same as `filter(accepts, null)`. */
  function Filter<X>(n: Nullable<X>, accepts: X -> bool): (t: Traced<Nullable<X>, X>)
    ensures t.result == if IsPresent(n) && accepts(n.stored.value) then n else Nullable(None)
    ensures t.calls == if IsPresent(n) then [Tested(n.stored.value)] else []
  {
    FilterElse(n, accepts, false)
  }

  /**
   * `map(mapper, nullResultConsumer)`: an empty box stays empty (retyped) and the
   * mapper is not called; a present value is mapped once and the mapper's result,
   * null or not, is wrapped; and the consumer, when there is one, is told the
   * original value exactly when the mapper returned null.
   */
  function MapElse<X, Y>(n: Nullable<X>, mapper: X -> Option<Y>, hasNullResultConsumer: bool): (t: Traced<Nullable<Y>, X>)
    ensures !IsPresent(n) ==> t == Traced(Nullable(None), [])
    ensures IsPresent(n) ==> t.result == Nullable(mapper(n.stored.value))
    ensures IsPresent(n) ==> |t.calls| >= 1 && t.calls[0] == Applied(n.stored.value)
    ensures IsPresent(n) ==>
      t.calls[1..] == if hasNullResultConsumer && mapper(n.stored.value) == None then [MappedToNull(n.stored.value)] else []
  {
    match n.stored
    case None => Traced(Nullable(None), [])
    case Some(v) =>
      var result := Nullable(mapper(v));
      var notify := IsPresent(n) != IsPresent(result) && hasNullResultConsumer;
      Traced(result, [Applied(v)] + if notify then [MappedToNull(v)] else [])
  }

  /** The null-result consumer receives exactly the original value, once, iff it was
      supplied and the mapper turned a present value into null. */
  lemma MapElseNotices<X, Y>(n: Nullable<X>, mapper: X -> Option<Y>, hasNullResultConsumer: bool)
    ensures var t := MapElse(n, mapper, hasNullResultConsumer);
      Notices(t.calls) == if hasNullResultConsumer && IsPresent(n) && !IsPresent(t.result) then [n.stored.value] else []
  {
  }

  /** `map(mapper)`: the same as `map(mapper, null)`. */
  function Map<X, Y>(n: Nullable<X>, mapper: X -> Option<Y>): (t: Traced<Nullable<Y>, X>)
    ensures IsPresent(t.result) <==> IsPresent(n) && mapper(n.stored.value) != None
    ensures IsPresent(n) ==> Get(t.result) == mapper(n.stored.value)
    ensures t.calls == if IsPresent(n) then [Applied(n.stored.value)] else []
  {
    MapElse(n, mapper, false)
  }

  /** Filtering is mapping each value to itself or to null: same box, and the false
      consumer is told exactly what a null-result consumer would be told. */
  lemma FilterIsMapToSelfOrNull<X>(n: Nullable<X>, accepts: X -> bool, hasConsumer: bool)
    ensures var keep := (x: X) => if accepts(x) then Some(x) else None;
      && FilterElse(n, accepts, hasConsumer).result == MapElse(n, keep, hasConsumer).result
      && Notices(FilterElse(n, accepts, hasConsumer).calls) == Notices(MapElse(n, keep, hasConsumer).calls)
  {
  }

  /** `map(consumer)`, the tap: the consumer sees the value once iff present, and the
      box comes back unchanged either way. */
  function Peek<X>(n: Nullable<X>): (t: Traced<Nullable<X>, X>)
    ensures t.result == n
    ensures |t.calls| == if IsPresent(n) then 1 else 0
    ensures forall c | c in t.calls :: c == Peeked(n.stored.value)
  {
    match n.stored
    case None => Traced(n, [])
    case Some(v) => Traced(n, [Peeked(v)])
  }

  /** `stream`: the elements of the box, as a sequence of zero or one. */
  function Stream<X>(n: Nullable<X>): (s: seq<X>)
    ensures |s| <= 1
    ensures |s| == 1 <==> IsPresent(n)
    ensures forall x | x in s :: Get(n) == Some(x)
  {
    match n.stored
    case None => []
    case Some(v) => [v]
  }

  /** `equals`: the stored references are equal, two nulls included (Objects.equals). */
  function Equals<X(==)>(a: Nullable<X>, b: Nullable<X>): (r: bool)
    ensures r <==> a == b
    ensures !IsPresent(a) && !IsPresent(b) ==> r
    ensures IsPresent(a) != IsPresent(b) ==> !r
  {
    match (a.stored, b.stored)
    case (None, None) => true
    case (Some(x), Some(y)) => x == y
    case _ => false
  }

  /** `hashCode`: the hash of the stored reference, where null hashes to 0
      (Objects.hashCode). `hash` is the element type's own hashCode. */
  function HashCode<X>(n: Nullable<X>, hash: X -> int): (h: int)
    ensures !IsPresent(n) ==> h == 0
    ensures IsPresent(n) ==> h == hash(n.stored.value)
  {
    match n.stored
    case None => 0
    case Some(v) => hash(v)
  }

  /** Equal boxes have equal hash codes. */
  lemma HashCodeAgreesWithEquals<X>(a: Nullable<X>, b: Nullable<X>, hash: X -> int)
    requires Equals(a, b)
    ensures HashCode(a, hash) == HashCode(b, hash)
  {
  }

  const NullText: string := "Nullable.null"
  const OpenText: string := "Nullable["

  /** `toString`: "Nullable.null" when empty, otherwise the element's own text in
      "Nullable[...]". `str` is the element type's own toString. */
  function ToString<X>(n: Nullable<X>, str: X -> string): (s: string)
    ensures !IsPresent(n) ==> s == NullText
    ensures IsPresent(n) ==> |s| > |OpenText| && s[|s| - 1] == ']'
    ensures IsPresent(n) ==> s[..|OpenText|] == OpenText && s[|OpenText|..|s| - 1] == str(n.stored.value)
  {
    match n.stored
    case None => NullText
    case Some(v) => OpenText + str(v) + "]"
  }

  /** An empty box and a present one never print alike, whatever the element's text. */
  lemma ToStringShowsPresence<X>(a: Nullable<X>, b: Nullable<X>, str: X -> string)
    requires IsPresent(a) != IsPresent(b)
    ensures ToString(a, str) != ToString(b, str)
  {
    var present := if IsPresent(a) then a else b;
    assert ToString(present, str)[8] == '[' != NullText[8];
  }

  /** The text of a box tells whether it is empty and, when the element type's own
      text is unambiguous, which value it holds. */
  lemma ToStringDistinguishes<X>(a: Nullable<X>, b: Nullable<X>, str: X -> string)
    requires forall x, y | str(x) == str(y) :: x == y
    requires ToString(a, str) == ToString(b, str)
    ensures a == b
  {
    var s := ToString(a, str);
    if IsPresent(a) && IsPresent(b) {
      assert str(a.stored.value) == s[|OpenText|..|s| - 1] == str(b.stored.value);
    }
  }
}
