/** The `Option<TValue>` struct: a payload slot and a presence flag, built
    only through `Some` (which collapses null to absent) or as the default
    struct `None`; equality and hashing delegate to a comparer that is
    consulted only when a payload is present. */
module Options {
  import opened Runtime

  /** The struct's two fields. The payload type `TValue` is `Nullable<T>`. */
  datatype Option<T> = Option(value: Nullable<T>, isSome: bool)

  /** The constructor's invariant: the option is present exactly when its
      stored payload is not null. Every option `Some` and `None` build has it. */
  predicate Valid<T>(o: Option<T>)
    // the valid structs are exactly the default one and the present ones
    ensures Valid(o) <==> o == Option(Null, false) || (o.value.Val? && o == Option(o.value, true))
  {
    o.isSome <==> o.value.Val?
  }

  /** `Option<TValue>.None` and `Option.None<TValue>()`: the default struct. */
  function None<T>(): (r: Option<T>)
    ensures Valid(r) && !r.isSome
  {
    Option(Null, false)
  }

  /** `Option<TValue>.Some(value)` and `Option.Some(value)`, i.e. the private
      constructor: it stores the payload and is present iff it is not null. */
  function Some<T>(value: Nullable<T>): (r: Option<T>)
    ensures Valid(r)
    ensures r.value == value
    ensures r.isSome <==> value.Val?
    ensures !r.isSome ==> r == None()
  {
    Option(value, value.Val?)
  }

  /** `IsSome(out value)`: the presence flag, with the stored payload as the
      out-value. On an absent option the out-value is the placeholder. */
  function IsSome<T>(o: Option<T>): (r: (bool, Nullable<T>))
    ensures Valid(o) ==> (r.0 <==> r.1.Val?)
    ensures Valid(o) && r.0 ==> Some(r.1) == o
    ensures Valid(o) && !r.0 ==> o == None()
  {
    (o.isSome, o.value)
  }

  // ---------------------------------------------------------------------
  // Equality
  // ---------------------------------------------------------------------

  /** The untyped `IEqualityComparer` a caller passes in. */
  datatype EqualityComparer<!T> = EqualityComparer(
    equals: (Nullable<T>, Nullable<T>) -> bool,
    getHashCode: Nullable<T> -> int32)

  /** `EqualityComparer<TValue>.Default` seen through `IEqualityComparer`:
      the payload type's own equality, its own `GetHashCode` for non-null
      payloads, and 0 for null. */
  function DefaultComparer<T(==)>(payloadHash: T -> int32): (c: EqualityComparer<T>)
    ensures c.getHashCode(Null) == 0
    ensures c.equals(Null, Null)
  {
    EqualityComparer(
      (x: Nullable<T>, y: Nullable<T>) => x == y,
      (x: Nullable<T>) => if x.Null? then 0 else payloadHash(x.v))
  }

  /** The private `AreBothNone`. */
  predicate AreBothNone<T>(o: Option<T>, other: Option<T>)
    ensures Valid(o) && Valid(other) ==> (AreBothNone(o, other) <==> o == None() && other == None())
  {
    !(o.isSome || other.isSome)
  }

  /** The private `AreBothSome`. */
  predicate AreBothSome<T>(o: Option<T>, other: Option<T>)
    ensures AreBothSome(o, other) ==> !AreBothNone(o, other)
    ensures Valid(o) && Valid(other) ==> (AreBothSome(o, other) <==> o.value.Val? && other.value.Val?)
  {
    o.isSome && other.isSome
  }

  /** The private `Equals(other, comparer)`, the one place that decides when
      the comparer runs. The log holds the pairs passed to `comparer.Equals`. */
  function EqualsWith<T>(o: Option<T>, other: Option<T>, comparer: Nullable<EqualityComparer<T>>)
    : (r: Result<Traced<bool, (Nullable<T>, Nullable<T>)>>)
    // if either side is absent: equal iff both are, and the comparer is not touched
    ensures !AreBothSome(o, other) ==>
              r == Returns(Traced(!o.isSome && !other.isSome, []))
    // if both are present: exactly one comparer call, this payload first
    ensures AreBothSome(o, other) && comparer.Val? ==>
              && r.Returns?
              && r.ret.calls == [(o.value, other.value)]
              && r.ret.result == comparer.v.equals(o.value, other.value)
    ensures AreBothSome(o, other) && comparer.Null? ==> r == Throws(NullReferenceException)
    // a valid option never hands null to the comparer
    ensures Valid(o) && Valid(other) && r.Returns? ==>
              forall i :: 0 <= i < |r.ret.calls| ==> r.ret.calls[i].0.Val? && r.ret.calls[i].1.Val?
  {
    if AreBothNone(o, other) then Returns(Traced(true, []))
    else if !AreBothSome(o, other) then Returns(Traced(false, []))
    else match comparer
      case Null => Throws(NullReferenceException)
      case Val(c) => Returns(Traced(c.equals(o.value, other.value), [(o.value, other.value)]))
  }

  /** `Equals(Option<TValue> other)`: `EqualsWith` under the default comparer.
      On valid options it is exactly equality of the two structs. */
  function Equals<T(==)>(o: Option<T>, other: Option<T>, payloadHash: T -> int32): (r: bool)
    ensures Valid(o) && Valid(other) ==> (r <==> o == other)
    ensures !o.isSome || !other.isSome ==> (r <==> !o.isSome && !other.isSome)
  {
    EqualsWith(o, other, Val(DefaultComparer(payloadHash))).ret.result
  }

  /** `Equals(object obj)`: false for anything that is not an option of the
      same payload type, otherwise `Equals(Option<TValue>)`. */
  function ObjectEquals<T(==)>(o: Option<T>, obj: Object<Option<T>>, payloadHash: T -> int32): (r: bool)
    ensures obj.Other? ==> !r
    ensures obj.Boxed? && Valid(o) && Valid(obj.content) ==> (r <==> o == obj.content)
  {
    obj.Boxed? && Equals(o, obj.content, payloadHash)
  }

  /** `IStructuralEquatable.Equals(object other, IEqualityComparer comparer)`:
      returns false, without touching the comparer, for a non-option. */
  function StructuralEquals<T>(o: Option<T>, other: Object<Option<T>>, comparer: Nullable<EqualityComparer<T>>)
    : (r: Result<Traced<bool, (Nullable<T>, Nullable<T>)>>)
    ensures other.Other? ==> r == Returns(Traced(false, []))
    ensures other.Boxed? ==> r == EqualsWith(o, other.content, comparer)
  {
    if other.Boxed? then EqualsWith(o, other.content, comparer) else Returns(Traced(false, []))
  }

  // ---------------------------------------------------------------------
  // Hashing
  // ---------------------------------------------------------------------

  /** The private `GetHashCode(comparer)`, also reached through
      `IStructuralEquatable.GetHashCode(comparer)`. The log holds the
      arguments passed to `comparer.GetHashCode`. */
  function GetHashCodeWith<T>(o: Option<T>, comparer: Nullable<EqualityComparer<T>>)
    : (r: Result<Traced<int32, Nullable<T>>>)
    ensures !o.isSome ==> r == Returns(Traced(INT32_MIN, []))
    ensures o.isSome && comparer.Val? ==>
              r == Returns(Traced(comparer.v.getHashCode(o.value), [o.value]))
    ensures o.isSome && comparer.Null? ==> r == Throws(NullReferenceException)
  {
    if !o.isSome then Returns(Traced(INT32_MIN, []))
    else match comparer
      case Null => Throws(NullReferenceException)
      case Val(c) => Returns(Traced(c.getHashCode(o.value), [o.value]))
  }

  /** `GetHashCode()`: the payload's own hash when present, `int.MinValue`
      when absent. */
  function GetHashCode<T(==)>(o: Option<T>, payloadHash: T -> int32): (r: int32)
    ensures !o.isSome ==> r == INT32_MIN
    ensures Valid(o) && o.isSome ==> r == payloadHash(o.value.v)
  {
    GetHashCodeWith(o, Val(DefaultComparer(payloadHash))).ret.result
  }

  // ---------------------------------------------------------------------
  // Properties
  // ---------------------------------------------------------------------

  /** Constructing from null gives the absent option. */
  lemma SomeNullIsNone<T>()
    ensures Some<T>(Null) == None()
    ensures !IsSome(Some<T>(Null)).0
  {}

  /** `Some` then `IsSome(out)` gives back the payload, for every non-null
      payload. */
  lemma SomeRoundTrip<T>(v: T)
    ensures IsSome(Some(Val(v))) == (true, Val(v))
  {}

  /** An empty string is a payload like any other: it is present. */
  lemma EmptyStringIsPresent()
    ensures IsSome(Some(Val(""))) == (true, Val(""))
  {}

  /** The default struct is absent. */
  lemma NoneIsAbsent<T>()
    ensures !IsSome(None<T>()).0
  {}

  /** The default comparer is the payload type's own equality, with null
      equal only to null, and the payload's own hash, with 0 for null. */
  lemma DefaultComparerIsPayloadEquality<T>(payloadHash: T -> int32, x: Nullable<T>, y: Nullable<T>)
    ensures DefaultComparer(payloadHash).equals(x, y) <==> x == y
    ensures DefaultComparer(payloadHash).getHashCode(x) == if x.Null? then 0 else payloadHash(x.v)
  {}

  /** Equal options under the default comparer have equal hash codes. */
  lemma EqualOptionsHaveEqualHashes<T>(a: Option<T>, b: Option<T>, payloadHash: T -> int32)
    requires Valid(a) && Valid(b)
    ensures Equals(a, b, payloadHash) ==> GetHashCode(a, payloadHash) == GetHashCode(b, payloadHash)
  {}

  /** A comparer whose hash agrees with its equality on non-null payloads
      makes option hashing agree with option equality. */
  lemma ComparerHashConsistency<T>(a: Option<T>, b: Option<T>, c: EqualityComparer<T>)
    requires Valid(a) && Valid(b)
    requires forall x: T, y: T :: c.equals(Val(x), Val(y)) ==> c.getHashCode(Val(x)) == c.getHashCode(Val(y))
    ensures EqualsWith(a, b, Val(c)).ret.result ==>
              GetHashCodeWith(a, Val(c)).ret.result == GetHashCodeWith(b, Val(c)).ret.result
  {
    if AreBothSome(a, b) {
      assert a.value == Val(a.value.v) && b.value == Val(b.value.v);
    }
  }

  /** Reflexivity carries over from the comparer. */
  lemma EqualsReflexive<T>(a: Option<T>, c: EqualityComparer<T>)
    requires Valid(a)
    requires forall x: T :: c.equals(Val(x), Val(x))
    ensures EqualsWith(a, a, Val(c)).ret.result
  {
    if a.isSome {
      assert a.value == Val(a.value.v);
    }
  }

  /** Symmetry carries over from the comparer. */
  lemma EqualsSymmetric<T>(a: Option<T>, b: Option<T>, c: EqualityComparer<T>)
    requires Valid(a) && Valid(b)
    requires forall x: T, y: T :: c.equals(Val(x), Val(y)) ==> c.equals(Val(y), Val(x))
    ensures EqualsWith(a, b, Val(c)).ret.result ==> EqualsWith(b, a, Val(c)).ret.result
  {
    if AreBothSome(a, b) {
      assert a.value == Val(a.value.v) && b.value == Val(b.value.v);
    }
  }

  /** Transitivity carries over from the comparer. */
  lemma EqualsTransitive<T>(a: Option<T>, b: Option<T>, d: Option<T>, c: EqualityComparer<T>)
    requires Valid(a) && Valid(b) && Valid(d)
    requires forall x: T, y: T, z: T ::
               c.equals(Val(x), Val(y)) && c.equals(Val(y), Val(z)) ==> c.equals(Val(x), Val(z))
    ensures EqualsWith(a, b, Val(c)).ret.result && EqualsWith(b, d, Val(c)).ret.result ==>
              EqualsWith(a, d, Val(c)).ret.result
  {
    if AreBothSome(a, b) && AreBothSome(b, d) {
      assert a.value == Val(a.value.v) && b.value == Val(b.value.v) && d.value == Val(d.value.v);
    }
  }
}
