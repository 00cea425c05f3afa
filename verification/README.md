# Option and Unit of AD.FunctionalExtensions, in Dafny

This project models the core of the C# library AD.FunctionalExtensions:

- the `Option<TValue>` struct. It holds a payload slot and a presence flag. It is built only through
  `Some`, which makes a null payload absent, or as the default struct `None`. `IsSome(out value)` is
  the one way to read the payload. Equality and hashing delegate to an equality comparer. The
  comparer is consulted only when a payload is present.
- the `OptionExtensions` combinators `Some`, `Match`, `IsSome`, `IsNone`, `Bind` and `Map`. Each
  delegate argument is checked for null before anything runs.
- the `Unit` struct, whose equality, hash code and rendering are constants.

Modelling choices:

- The C# type parameter `TValue` is `Nullable<T>` (`Null | Val(v)`). A value-type payload only ever
  holds `Val`, apart from the absent placeholder (see "## Left out").
- The struct is the record `Option(value, isSome)`. `Valid` is its constructor invariant: present
  exactly when the stored payload is not null. `Some` and `None` establish it, and `Map` keeps it.
  `Bind` keeps it when its binder does.
- Delegates and comparers are function values wrapped in `Nullable`, so a null delegate or a null
  comparer can be passed. An `IEqualityComparer` is the record `EqualityComparer(equals, getHashCode)`.
  Its functions take nullable payloads, like the untyped interface does.
- Each member that runs caller-supplied code returns a `Traced(result, calls)`. `calls` lists the
  arguments of every invocation, in order. "Never invoked" is stated as `calls == []`.
  "Exactly once" is stated as a one-element log.
- Exceptions are a `Result`: `Returns(ret)` or `Throws(exception)`.
- An `object` argument is `Object<T>`: a boxed `T`, or `Other` (null, or a value of another type).
- The default comparer `EqualityComparer<TValue>.Default` uses the payload's own equality, which is
  modelled as Dafny value equality. It also uses the payload's own `GetHashCode`, which is the
  parameter `payloadHash`. A null payload hashes to 0.
- Hash codes are `int32`. The hash of an absent option is `int.MinValue` (`INT32_MIN`).

A null comparer is not rejected up front. The code never checks the comparer argument for null. It
only dereferences the comparer when both sides are present (`Equals`) or when the option is present
(`GetHashCode`). So `EqualsWith` and `GetHashCodeWith` return normally for a null comparer on the
absent paths, and throw `NullReferenceException` on the present ones.

## Model

| member | source | states |
|---|---|---|
| Options.Valid | src/AD.FunctionalExtensions/Option.cs:17-20 | the constructor invariant: the valid structs are exactly the default struct and the present records with a non-null payload |
| Options.None | src/AD.FunctionalExtensions/Option.cs:9 | the default struct is absent and satisfies the constructor invariant |
| Options.Some | src/AD.FunctionalExtensions/Option.cs:17-20 | the constructed option stores the payload, is present iff the payload is non-null, satisfies the invariant, and is `None` when the payload is null |
| Options.IsSome | src/AD.FunctionalExtensions/Option.cs:23-27 | on a valid option the flag is true iff the out-value is non-null; re-wrapping the out-value of a present option gives the option back; an absent one is `None` |
| Options.SomeNullIsNone | src/AD.FunctionalExtensions/Option.cs:19 | `Some(null)` equals `None` and reads as absent |
| Options.SomeRoundTrip | src/AD.FunctionalExtensions/Option.cs:17-27 | `IsSome(out)` on `Some(v)` returns true and `v` for every non-null `v` |
| Options.EmptyStringIsPresent | src/AD.FunctionalExtensions/Option.cs:19 | an empty string is a present payload |
| Options.NoneIsAbsent | src/AD.FunctionalExtensions/Option.cs:9 | `None.IsSome(out _)` is false |
| Options.AreBothNone | src/AD.FunctionalExtensions/Option.cs:40 | on valid options, true iff both are `None` |
| Options.AreBothSome | src/AD.FunctionalExtensions/Option.cs:42 | never holds together with `AreBothNone`; on valid options, true iff both payloads are non-null |
| Options.DefaultComparer | src/AD.FunctionalExtensions/Option.cs:32 | `EqualityComparer<TValue>.Default` hashes null to 0 and treats null as equal to null |
| Options.DefaultComparerIsPayloadEquality | src/AD.FunctionalExtensions/Option.cs:48 | the default comparer is the payload's own equality, with null equal only to null, and the payload's own hash, with 0 for null |
| Options.EqualsWith | src/AD.FunctionalExtensions/Option.cs:36-45 | if either side is absent, the result is true iff both are and the comparer is not invoked; if both are present, exactly one comparer call is made, with this payload first, and its answer is returned; valid options never pass null to the comparer |
| Options.Equals | src/AD.FunctionalExtensions/Option.cs:32 | under the default comparer, two valid options are equal iff they are the same struct; absent is never equal to present |
| Options.ObjectEquals | src/AD.FunctionalExtensions/Option.cs:30 | false for anything that is not an option; for a boxed valid option, true iff the structs are the same |
| Options.StructuralEquals | src/AD.FunctionalExtensions/Option.cs:34 | returns false without invoking the comparer when the other argument is not an option; otherwise behaves as `EqualsWith` |
| Options.GetHashCodeWith | src/AD.FunctionalExtensions/Option.cs:50-53 | an absent option hashes to `int.MinValue` with no comparer call; a present one makes exactly one comparer call on its payload and returns that hash |
| Options.GetHashCode | src/AD.FunctionalExtensions/Option.cs:48 | `int.MinValue` when absent, the payload's own hash when present |
| Options.EqualOptionsHaveEqualHashes | src/AD.FunctionalExtensions/Option.cs:32-53 | options equal under the default comparer have equal hash codes |
| Options.ComparerHashConsistency | src/AD.FunctionalExtensions/Option.cs:36-53 | if a comparer's hash agrees with its equality, then option hashing agrees with option equality |
| Options.EqualsReflexive | src/AD.FunctionalExtensions/Option.cs:36-45 | option equality is reflexive when the comparer is |
| Options.EqualsSymmetric | src/AD.FunctionalExtensions/Option.cs:36-45 | option equality is symmetric when the comparer is |
| Options.EqualsTransitive | src/AD.FunctionalExtensions/Option.cs:36-45 | option equality is transitive when the comparer is |
| OptionExtensions.Some | src/AD.FunctionalExtensions/OptionExtensions.cs:7 | the extension is the same construction as `Option.Some`: valid, and present with the payload iff the payload is non-null |
| OptionExtensions.Match | src/AD.FunctionalExtensions/OptionExtensions.cs:9-15 | a null `onIsSome`, then a null `onIsNone`, throws `ArgumentNullException` with that parameter name before any handler runs; otherwise exactly one handler runs, `onIsSome(v)` for a present option and `onIsNone()` for an absent one, and its result is returned |
| OptionExtensions.OnIsSomeArgs | src/AD.FunctionalExtensions/OptionExtensions.cs:28-30 | the binder's invocations are the `onIsSome` entries of the handler log: every kept argument came from one, every one is kept, nothing is dropped iff every entry is an `onIsSome` one, and a one-entry log gives its argument or nothing |
| OptionExtensions.OnIsSomeArgsAppend | src/AD.FunctionalExtensions/OptionExtensions.cs:28-30 | the kept arguments of a concatenated log are those of each part, in order, so the binder log keeps the order of the handler log |
| OptionExtensions.IsSome | src/AD.FunctionalExtensions/OptionExtensions.cs:17-20 | agrees with the struct's `IsSome(out _)` |
| OptionExtensions.IsNone | src/AD.FunctionalExtensions/OptionExtensions.cs:22 | is the negation of `IsSome(out _)`, and on a valid option holds iff the option is `None` |
| OptionExtensions.Bind | src/AD.FunctionalExtensions/OptionExtensions.cs:24-31 | a null binder throws; an absent option gives `None` with the binder never called; a present one calls the binder once on its payload and returns its result unchanged, present or absent |
| OptionExtensions.Map | src/AD.FunctionalExtensions/OptionExtensions.cs:33-39 | a null mapper throws; an absent option gives `None` with the mapper never called; a present one calls the mapper once and gives `Some` of its result, which is absent iff the mapper returned null; the result is always valid |
| OptionExtensions.IsNoneIsNotIsSome | src/AD.FunctionalExtensions/OptionExtensions.cs:17-22 | `IsNone` and `IsSome` never agree |
| OptionExtensions.BindLeftIdentity | src/AD.FunctionalExtensions/OptionExtensions.cs:24-31 | binding `Some(v)` gives the binder's result on `v` |
| OptionExtensions.BindRightIdentity | src/AD.FunctionalExtensions/OptionExtensions.cs:24-31 | binding a valid option with `Some` gives it back |
| OptionExtensions.BindAssociative | src/AD.FunctionalExtensions/OptionExtensions.cs:24-31 | binding twice equals binding once with the composed binder |
| OptionExtensions.BindKeepsValid | src/AD.FunctionalExtensions/OptionExtensions.cs:24-31 | `Bind` keeps the constructor invariant when the binder's results have it |
| OptionExtensions.MapIsBindSome | src/AD.FunctionalExtensions/OptionExtensions.cs:37-38 | `Map` with `f` is `Bind` with `v => Some(f(v))`, including the call log |
| OptionExtensions.MapIdentity | src/AD.FunctionalExtensions/OptionExtensions.cs:33-39 | mapping a valid option with the identity gives it back |
| OptionExtensions.MapComposition | src/AD.FunctionalExtensions/OptionExtensions.cs:33-39 | mapping twice equals mapping once with the composition, when the second mapper sends null to null |
| OptionExtensions.MapCompositionNeedsNullToNull | src/AD.FunctionalExtensions/OptionExtensions.cs:37-38 | without that condition the composition law fails, because null collapsing stops the chain early |
| Units.Value | src/AD.FunctionalExtensions/Unit.cs:5 | `Unit.Value` (the default struct) is the one unit, hashes to 0 and renders as `()` |
| Units.GetHashCode | src/AD.FunctionalExtensions/Unit.cs:7 | the hash code is 0 |
| Units.Equals | src/AD.FunctionalExtensions/Unit.cs:9-14 | true exactly for a boxed `Unit`; false for null and other types |
| Units.ToString | src/AD.FunctionalExtensions/Unit.cs:16 | the rendering is `()` |
| Units.OpEquality | src/AD.FunctionalExtensions/Unit.cs:19 | `==` is always true |
| Units.OpInequality | src/AD.FunctionalExtensions/Unit.cs:20 | `!=` is always false |
| Units.UnitsAreIndistinguishable | src/AD.FunctionalExtensions/Unit.cs:5-20 | any two units, including `default`, `new()` and `Unit.Value`, are equal both ways, equal by `==`, not unequal by `!=`, and share hash code and rendering |
| Units.EqualsConsistentWithHash | src/AD.FunctionalExtensions/Unit.cs:7-14 | whatever `Equals` accepts has the same hash code |

## Left out

- Payload placeholder of `None`: the default struct stores `default(TValue)`. For a reference type that is null, and for a value type it is that type's zero. The model stores `Null` in both cases. Only `IsSome(out value)` on an absent option can observe the difference, and callers must not use that out-value.
- Payload equality and hashing: the payload type's own `Equals` is modelled as value equality, and its own `GetHashCode` as the parameter `payloadHash`. Floating-point payloads are not modelled apart from that.
- Exceptions thrown by delegates and comparers: delegates and comparers are total pure functions here, so their exceptions do not propagate through the model.
- Runtime type tests and boxing: `obj is Option<TValue>` is reduced to the two cases of `Object<T>`.
- `CompareTo`, `IStructuralComparable`, `==`/`!=` on options, `Option.Create`, `AsOption`, `MapNullable`, `DefaultValue` and `Filter`: `Option.cs` and `OptionExtensions.cs` do not define them at this revision of the library. The library's test files call them, so they belong to a later version of the API.
- Relational operators (`<`, `<=`, `>`, `>=`) on options and `ToString` of an option: neither the library source nor its tests define or use them.
