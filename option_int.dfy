/** The Java primitive option `Option_int` (primitive/Option_int.java): an `int` and a flag saying
    whether it is set. */
module OptionInts {
  import opened Errors
  import opened Ints
  import Options

  /** The two private fields; `None()` stores Integer.MIN_VALUE in the unused slot. */
  datatype OptionInt = OptionInt(t: int32, isSet: bool) {

    predicate IsSome() { isSet }

    predicate IsNone() { !isSet }

    /** `Some()`: the value, or OptionNoValueAccessException when there is none. */
    function Value(): (r: Outcome<int32>)
      ensures r.Returns? <==> IsSome()
      ensures r.Returns? ==> r.value == t
      ensures r.Throws? ==> r.error == OptionNoValueAccess
    {
      if isSet then Returns(t) else Throws(OptionNoValueAccess)
    }

    /** `hashCode()`: -1 for None, otherwise 3 * t in 32-bit arithmetic. */
    function HashCode(): (r: int32)
      ensures IsNone() ==> r == -1
      ensures IsSome() ==> (r - 3 * t) % 0x1_0000_0000 == 0
    {
      if IsNone() then -1 else Wrap32(3 * t)
    }
  }

  /** `None()`: not set, whatever type of value is asked for. */
  function None(): (r: OptionInt)
    ensures r.IsNone() && !r.IsSome()
    ensures r.Value() == Throws(OptionNoValueAccess)
  {
    OptionInt(MinInt32, false)
  }

  /** `toOption(t)`: always set, holding `t`. */
  function ToOption(t: int32): (r: OptionInt)
    ensures r.IsSome() && r.Value() == Returns(t)
  {
    OptionInt(t, true)
  }

  /** The static `Some(t)`, which delegates to `toOption`. */
  function Some(t: int32): (r: OptionInt)
    ensures r.IsSome() && r.Value() == Returns(t)
  {
    ToOption(t)
  }

  /** `bind(f)`: `f` applied to the value, or None. */
  function Bind(o: OptionInt, f: int32 -> OptionInt): (r: OptionInt)
    ensures o.IsNone() ==> r == None()
    ensures o.IsSome() ==> r == f(o.t)
  {
    if o.IsSome() then f(o.t) else None()
  }

  /** `lift(f, o1, o2)`: `f` of both values when both are set, otherwise None. */
  function Lift(f: (int32, int32) -> int32, o1: OptionInt, o2: OptionInt): (r: OptionInt)
    ensures r.IsSome() <==> o1.IsSome() && o2.IsSome()
    ensures r.IsSome() ==> r.t == f(o1.t, o2.t)
  {
    if o1.IsSome() && o2.IsSome() then ToOption(f(o1.t, o2.t)) else None()
  }

  /** `equals(o)`: anything that is not an `Option_int` (here: null) is unequal. Otherwise the
      flags are compared first; when both are set the values are compared, and when neither is,
      reading the value throws and the handler calls the two Nones equal. */
  function Equals(a: OptionInt, o: Nullable<OptionInt>): (r: bool)
    ensures o.Null? ==> !r
    ensures o.NotNull? ==> (r <==> (a.IsNone() && o.value.IsNone()) || (a.IsSome() && o.value.IsSome() && a.t == o.value.t))
  {
    if o.Null? then false
    else
      var other := o.value;
      if a.IsSome() != other.IsSome() then false
      else match a.Value()
        case Returns(v) => v == other.Value().value
        case Throws(_) => a.IsNone() && other.IsNone()
  }

  /** The option an `Option_int` stands for, ignoring the unused slot of a None. */
  function Meaning(o: OptionInt): Options.Option<int32>
  {
    if o.IsSome() then Options.Some(o.t) else Options.None
  }

  /** Two options are equal exactly when they stand for the same option; so `equals` is an
      equivalence relation, and every None equals every other. */
  lemma EqualsIsSameMeaning(a: OptionInt, b: OptionInt)
    ensures Equals(a, NotNull(b)) <==> Meaning(a) == Meaning(b)
    ensures Equals(a, NotNull(a))
    ensures Equals(a, NotNull(b)) == Equals(b, NotNull(a))
  {
  }

  /** Equal options have equal hash codes, as Java's `hashCode` contract demands. */
  lemma EqualsAgreesWithHashCode(a: OptionInt, b: OptionInt)
    requires Equals(a, NotNull(b))
    ensures a.HashCode() == b.HashCode()
  {
  }

  /** Bind on a freshly wrapped value applies the function; binding with `toOption` changes
      nothing; and binds nest. */
  lemma BindLaws(t: int32, o: OptionInt, f: int32 -> OptionInt, g: int32 -> OptionInt)
    ensures Bind(ToOption(t), f) == f(t)
    ensures Equals(Bind(o, ToOption), NotNull(o))
    ensures Bind(Bind(o, f), g) == Bind(o, (x: int32) => Bind(f(x), g))
  {
  }

  /** 3 * 1431655765 wraps to -1, so that set option hashes like None; the two are still unequal. */
  lemma HashCollision()
    ensures ToOption(1431655765).HashCode() == None().HashCode()
    ensures !Equals(ToOption(1431655765), NotNull(None()))
  {
  }
}
