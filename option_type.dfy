/** `OptionType<T>`, the option over a reference type T, where a null reference (and, for strings, the
    empty string) means "no value" (Utils/OptionType.cs). */
module OptionTypes {
  import opened Errors
  import Check

  /** The struct holds one reference, which is null exactly when the option is empty. */
  datatype OptionType<T> = OptionType(stored: Nullable<T>) {

    /** The `None` property. */
    predicate None() { stored.Null? }

    /** The `Some` property: the stored reference, or EmptyOptionTypeException when there is none. */
    function Some(): (r: Outcome<T>)
      ensures r.Returns? <==> !None()
      ensures r.Returns? ==> NotNull(r.value) == stored
      ensures r.Throws? ==> r.error == EmptyOptionType
    {
      if stored.NotNull? then Returns(stored.value) else Throws(EmptyOptionType)
    }
  }

  /** `new OptionType<T>(t)` for a T other than string; also the implicit conversion from T, which
      calls this constructor. */
  function New<T>(t: Nullable<T>): (r: OptionType<T>)
    ensures r.None() <==> Check.IsNullReference(t)
    ensures !r.None() ==> r.Some() == Returns(t.value)
  {
    OptionType(if Check.IsNotNullReference(t) then t else Null)
  }

  /** `new OptionType<string>(s)`: the empty string is stored as null, so it is None too. */
  function NewString(s: Nullable<string>): (r: OptionType<string>)
    ensures r.None() <==> Check.IsNull(s)
    ensures !r.None() ==> r.Some() == Returns(s.value) && s.value != ""
  {
    OptionType(if Check.IsNotNull(s) then s else Null)
  }

  /** `OptionType<T>.Null`, the same as the default value of the struct. */
  function NullOption<T>(): (r: OptionType<T>)
    ensures r.None()
    ensures r.Some() == Throws(EmptyOptionType)
  {
    OptionType(Null)
  }

  /** Constructing from the value an option holds gives the same option back. */
  lemma NewOfSome<T>(a: OptionType<T>)
    requires !a.None()
    ensures New(NotNull(a.Some().value)) == a
  {
  }

  /** A string option built from a value holds only non-empty strings, and rebuilds to itself. */
  lemma NewStringOfSome(a: OptionType<string>)
    requires !a.None() && a.Some().value != ""
    ensures NewString(NotNull(a.Some().value)) == a
  {
  }
}
