/** The `Unit` struct: a value with no fields, so every instance is the
    same, and equality, hashing and rendering are constant. */
module Units {
  import opened Runtime

  datatype Unit = Unit

  /** `Unit.Value`, which is `default(Unit)`; `new Unit()` is the same value.
      It is the one unit, so it renders and hashes like every other. */
  function Value(): (u: Unit)
    ensures u == Unit
    ensures GetHashCode(u) == 0 && ToString(u) == "()"
  {
    Unit
  }

  /** `GetHashCode()`. */
  function GetHashCode(u: Unit): (r: int32)
    ensures r == 0
  {
    0
  }

  /** `Equals(object? obj)`: true for any boxed `Unit`, false for null and
      for every other type. */
  function Equals(u: Unit, obj: Object<Unit>): (r: bool)
    ensures r <==> obj.Boxed?
  {
    match obj
    case Boxed(_) => true
    case Other => false
  }

  /** `ToString()`. */
  function ToString(u: Unit): (r: string)
    ensures r == "()"
  {
    "()"
  }

  /** `operator ==`. */
  function OpEquality(a: Unit, b: Unit): (r: bool)
    ensures r
  {
    true
  }

  /** `operator !=`. */
  function OpInequality(a: Unit, b: Unit): (r: bool)
    ensures !r
  {
    false
  }

  /** Any two units are interchangeable: equal by `Equals` in both
      directions and by `==`, not unequal by `!=`, with the same hash code
      and the same rendering. */
  lemma UnitsAreIndistinguishable(a: Unit, b: Unit)
    ensures a == b
    ensures Equals(a, Boxed(b)) && Equals(b, Boxed(a))
    ensures OpEquality(a, b) && !OpInequality(a, b)
    ensures GetHashCode(a) == GetHashCode(b)
    ensures ToString(a) == ToString(b)
  {}

  /** `Equals` agrees with `GetHashCode`: whatever `Equals` accepts hashes
      the same. */
  lemma EqualsConsistentWithHash(a: Unit, obj: Object<Unit>)
    ensures Equals(a, obj) ==> GetHashCode(a) == GetHashCode(obj.content)
  {}
}
