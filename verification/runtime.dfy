/** The small part of the .NET runtime that the Option library leans on:
    nullable storage, 32-bit hash codes, untyped `object` arguments,
    exceptions, and a log of the caller-supplied code a member invoked. */
module Runtime {

  /** A storage slot of a C# type parameter `TValue`: either the null
      reference or a real value. A value-type `TValue` only ever holds `Val`,
      apart from the placeholder stored in an absent option. */
  datatype Nullable<T> = Null | Val(v: T)

  /** .NET's `int`, the type of every hash code. */
  newtype int32 = x: int | -0x8000_0000 <= x < 0x8000_0000

  /** `int.MinValue`. */
  const INT32_MIN: int32 := -0x8000_0000

  /** An argument of static type `object`: either a boxed `T`, or something
      that is not a `T` at all (null, or an instance of another type). */
  datatype Object<T> = Boxed(content: T) | Other

  /** The exceptions the modelled members can raise themselves. */
  datatype Exception =
    | ArgumentNullException(paramName: string)
    | NullReferenceException

  /** The outcome of a member call: it returns a value or throws. */
  datatype Result<T> = Returns(ret: T) | Throws(exception: Exception)

  /** A result together with the arguments, in order, of every invocation of
      caller-supplied code (a delegate or comparer) made while computing it. */
  datatype Traced<R, C> = Traced(result: R, calls: seq<C>)
}
