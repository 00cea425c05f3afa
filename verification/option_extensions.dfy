/** The combinators of `OptionExtensions`: `Some`, `Match`, `IsSome`,
    `IsNone`, `Bind` and `Map`. Delegates are nullable function values; each
    combinator reports the delegate invocations it made. */
module OptionExtensions {
  import opened Runtime
  import Options

  /** `value.Some()`: the same construction as `Option.Some(value)`, so a
      null payload gives the absent option. */
  function Some<T>(value: Nullable<T>): (r: Options.Option<T>)
    ensures Options.Valid(r)
    ensures Options.IsSome(r) == (value.Val?, if value.Val? then value else Null)
    ensures r == Options.Some(value)
  {
    Options.Some(value)
  }

  /** Which of `Match`'s two handlers ran, and with what argument. */
  datatype Handler<T> = OnIsSome(arg: Nullable<T>) | OnIsNone

  /** `Match(onIsSome, onIsNone)`: both handlers are checked for null first;
      then exactly one of them runs, once, and its result is returned. */
  function Match<T, U>(o: Options.Option<T>, onIsSome: Nullable<Nullable<T> -> U>, onIsNone: Nullable<() -> U>)
    : (r: Result<Traced<U, Handler<T>>>)
    ensures onIsSome.Null? ==> r == Throws(ArgumentNullException("onIsSome"))
    ensures onIsSome.Val? && onIsNone.Null? ==> r == Throws(ArgumentNullException("onIsNone"))
    ensures r.Returns? <==> onIsSome.Val? && onIsNone.Val?
    ensures r.Returns? ==> |r.ret.calls| == 1
    ensures r.Returns? && o.isSome ==>
              r.ret.calls[0] == OnIsSome(o.value) && r.ret.result == onIsSome.v(o.value)
    ensures r.Returns? && !o.isSome ==>
              r.ret.calls[0] == OnIsNone && r.ret.result == onIsNone.v()
  {
    if onIsSome.Null? then Throws(ArgumentNullException("onIsSome"))
    else if onIsNone.Null? then Throws(ArgumentNullException("onIsNone"))
    else
      var (isSome, value) := Options.IsSome(o);
      if isSome then Returns(Traced(onIsSome.v(value), [OnIsSome(value)]))
      else Returns(Traced(onIsNone.v(), [OnIsNone]))
  }

  /** The arguments of the `OnIsSome` invocations in a handler log, in order:
      the invocations of a delegate passed as `onIsSome`. */
  function OnIsSomeArgs<T>(calls: seq<Handler<T>>): (args: seq<Nullable<T>>)
    ensures |args| <= |calls|
    // every entry is kept exactly when it is an `OnIsSome` one
    ensures |args| == |calls| <==> forall j :: 0 <= j < |calls| ==> calls[j].OnIsSome?
    ensures forall i :: 0 <= i < |args| ==> OnIsSome(args[i]) in calls
    ensures forall j :: 0 <= j < |calls| && calls[j].OnIsSome? ==> calls[j].arg in args
    // a one-entry log, the only kind `Match` produces
    ensures |calls| == 1 ==> args == (if calls[0].OnIsSome? then [calls[0].arg] else [])
  {
    if |calls| == 0 then []
    else (if calls[0].OnIsSome? then [calls[0].arg] else []) + OnIsSomeArgs(calls[1..])
  }

  /** Filtering a log piece by piece keeps the order of the invocations:
      the kept arguments of a concatenation are those of each part, in turn.
      Nothing calls it: `Match` only produces one-entry logs. It shows that
      the log filter keeps order for logs of any length. */
  lemma {:induction false} OnIsSomeArgsAppend<T>(a: seq<Handler<T>>, b: seq<Handler<T>>)
    ensures OnIsSomeArgs(a + b) == OnIsSomeArgs(a) + OnIsSomeArgs(b)
  {
    if |a| == 0 {
      assert a + b == b;
    } else {
      assert (a + b)[1..] == a[1..] + b;
      OnIsSomeArgsAppend(a[1..], b);
    }
  }

  /** `IsSome()`: `Match` with constant handlers; agrees with the struct's
      own `IsSome(out _)`. */
  function IsSome<T>(o: Options.Option<T>): (r: bool)
    ensures r == Options.IsSome(o).0
  {
    Match(o, Val((_: Nullable<T>) => true), Val(() => false)).ret.result
  }

  /** `IsNone()`: the negation of `IsSome()`. */
  function IsNone<T>(o: Options.Option<T>): (r: bool)
    ensures r == !Options.IsSome(o).0
    ensures Options.Valid(o) ==> (r <==> o == Options.None())
  {
    !IsSome(o)
  }

  /** `Bind(binder)`: `Match` with the binder as `onIsSome` and
      `Option.None` as `onIsNone`. The log holds the binder's arguments. */
  function Bind<T, U>(o: Options.Option<T>, binder: Nullable<Nullable<T> -> Options.Option<U>>)
    : (r: Result<Traced<Options.Option<U>, Nullable<T>>>)
    ensures binder.Null? ==> r == Throws(ArgumentNullException("binder"))
    ensures binder.Val? ==> r.Returns?
    // an absent option stays absent and the binder never runs
    ensures binder.Val? && !o.isSome ==> r.ret == Traced(Options.None(), [])
    // a present one is handed to the binder once, and its result is returned as is
    ensures binder.Val? && o.isSome ==> r.ret == Traced(binder.v(o.value), [o.value])
  {
    if binder.Null? then Throws(ArgumentNullException("binder"))
    else
      var m := Match(o, Val(binder.v), Val(() => Options.None<U>()));
      Returns(Traced(m.ret.result, OnIsSomeArgs(m.ret.calls)))
  }

  /** `Map(mapper)`: `Bind` with `value => mapper(value).Some()`, so a null
      mapper result gives the absent option. The log holds the mapper's
      arguments. */
  function Map<T, U>(o: Options.Option<T>, mapper: Nullable<Nullable<T> -> Nullable<U>>)
    : (r: Result<Traced<Options.Option<U>, Nullable<T>>>)
    ensures mapper.Null? ==> r == Throws(ArgumentNullException("mapper"))
    ensures mapper.Val? ==> r.Returns? && Options.Valid(r.ret.result)
    // an absent option stays absent and the mapper never runs
    ensures mapper.Val? && !o.isSome ==> r.ret == Traced(Options.None(), [])
    // a present one is mapped once; the result is present iff the mapper gave non-null
    ensures mapper.Val? && o.isSome ==>
              && r.ret.calls == [o.value]
              && r.ret.result == Options.Some(mapper.v(o.value))
              && (r.ret.result.isSome <==> mapper.v(o.value).Val?)
  {
    if mapper.Null? then Throws(ArgumentNullException("mapper"))
    else Bind(o, Val((value: Nullable<T>) => Some(mapper.v(value))))
  }

  // ---------------------------------------------------------------------
  // Laws
  // ---------------------------------------------------------------------

  /** `IsSome()` and `IsNone()` never agree. */
  lemma IsNoneIsNotIsSome<T>(o: Options.Option<T>)
    ensures IsNone(o) != IsSome(o)
  {}

  /** Left identity: binding a constructed option runs the binder on its payload. */
  lemma BindLeftIdentity<T, U>(v: T, f: Nullable<T> -> Options.Option<U>)
    ensures Bind(Options.Some(Val(v)), Val(f)).ret.result == f(Val(v))
  {}

  /** Right identity: binding with `Some` gives back any valid option. */
  lemma BindRightIdentity<T>(o: Options.Option<T>)
    requires Options.Valid(o)
    ensures Bind(o, Val((x: Nullable<T>) => Options.Some(x))).ret.result == o
  {}

  /** Associativity of `Bind`. */
  lemma BindAssociative<T, U, V>(o: Options.Option<T>, f: Nullable<T> -> Options.Option<U>,
                                 g: Nullable<U> -> Options.Option<V>)
    ensures Bind(Bind(o, Val(f)).ret.result, Val(g)).ret.result
         == Bind(o, Val((x: Nullable<T>) => Bind(f(x), Val(g)).ret.result)).ret.result
  {}

  /** `Bind` keeps the constructor invariant when the binder does. */
  lemma BindKeepsValid<T, U>(o: Options.Option<T>, f: Nullable<T> -> Options.Option<U>)
    requires forall x :: Options.Valid(f(x))
    ensures Options.Valid(Bind(o, Val(f)).ret.result)
  {}

  /** `Map` is `Bind` followed by the collapsing construction. */
  lemma MapIsBindSome<T, U>(o: Options.Option<T>, f: Nullable<T> -> Nullable<U>)
    ensures Map(o, Val(f)) == Bind(o, Val((x: Nullable<T>) => Options.Some(f(x))))
  {}

  /** Identity law of `Map` on valid options. */
  lemma MapIdentity<T>(o: Options.Option<T>)
    requires Options.Valid(o)
    ensures Map(o, Val((x: Nullable<T>) => x)).ret.result == o
  {}

  /** Composition law of `Map`, for a second mapper that sends null to null. */
  lemma MapComposition<T, U, V>(o: Options.Option<T>, f: Nullable<T> -> Nullable<U>, g: Nullable<U> -> Nullable<V>)
    requires g(Null) == Null
    ensures Map(Map(o, Val(f)).ret.result, Val(g)).ret.result
         == Map(o, Val((x: Nullable<T>) => g(f(x)))).ret.result
  {}

  /** Without that side condition the composition law fails: a first mapper
      that returns null stops the chain, while the composed mapper still
      hands that null to the second. */
  lemma MapCompositionNeedsNullToNull()
    ensures var o := Options.Some(Val(1));
            var f := (x: Nullable<int>) => Null;
            var g := (y: Nullable<int>) => Val(0);
            && Map(Map(o, Val(f)).ret.result, Val(g)).ret.result == Options.None()
            && Map(o, Val((x: Nullable<int>) => g(f(x)))).ret.result == Options.Some(Val(0))
  {}
}
