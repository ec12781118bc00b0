/** Null checks with the string special case: `Check` in Utils/Check.cs. */
module Check {
  import opened Errors

  /** A string is null when it is the null reference or the empty string. */
  predicate IsNull(s: Nullable<string>) { s.Null? || s.value == "" }

  predicate IsNotNull(s: Nullable<string>) { !IsNull(s) }

  /** Any other reference is null only when it is the null reference. */
  predicate IsNullReference<T>(t: Nullable<T>) { t.Null? }

  predicate IsNotNullReference<T>(t: Nullable<T>) { !IsNullReference(t) }

  /** The string check treats the empty string as null and the reference check does not; on every
      other string the two checks agree. */
  lemma StringAndReferenceChecks(s: Nullable<string>)
    ensures IsNull(NotNull("")) && !IsNullReference(NotNull(""))
    ensures s != NotNull("") ==> (IsNull(s) <==> IsNullReference(s))
    ensures s != NotNull("") ==> (IsNotNull(s) <==> IsNotNullReference(s))
  {
  }
}

/** Defaulting and acting on an absent value: `Opt` in Utils/Check.cs. */
module Opt {
  import opened Errors
  import opened OptionTypes
  import Check

  /** `chk(a, t)`: the option's value, or `t` (which may itself be null) when there is none. */
  function Chk<T>(a: OptionType<T>, t: Nullable<T>): (r: Nullable<T>)
    ensures a.None() ==> r == t
    ensures !a.None() ==> r.NotNull? && Returns(r.value) == a.Some()
  {
    if a.None() then t else a.stored
  }

  /** `chk(a)` for a T with a parameterless constructor: `newT` stands for the object `new T()` builds. */
  function ChkNew<T>(a: OptionType<T>, newT: T): (r: T)
    ensures a.None() ==> r == newT
    ensures !a.None() ==> Returns(r) == a.Some()
  {
    if a.None() then newT else a.stored.value
  }

  /** `chk(a)` for strings: the empty string when there is no value. */
  function ChkString(a: OptionType<string>): (r: string)
    ensures a.None() ==> r == ""
    ensures !a.None() ==> Returns(r) == a.Some()
  {
    if a.None() then "" else a.stored.value
  }

  /** `chk(a, f)`: a null `f` is refused; `f` runs only when there is no value, so what `f` would do
      (even throw) matters only then. */
  function ChkWith<T>(a: OptionType<T>, f: Nullable<() -> Outcome<Nullable<T>>>): (r: Outcome<Nullable<T>>)
    ensures f.Null? ==> r == Throws(ArgumentNull("f"))
    ensures f.NotNull? && a.None() ==> r == f.value()
    ensures f.NotNull? && !a.None() ==> r == Returns(a.stored)
  {
    if f.Null? then Throws(ArgumentNull("f"))
    else if a.None() then f.value()
    else Returns(a.stored)
  }

  /** `chk(string a, string def)`: `def` when `a` is null or empty, otherwise `a`. */
  function ChkDefault(a: Nullable<string>, def: Nullable<string>): (r: Nullable<string>)
    ensures Check.IsNull(a) ==> r == def
    ensures Check.IsNotNull(a) ==> r == a
  {
    if Check.IsNull(a) then def else a
  }

  /** `act(a, f)` on an OptionType: a null `f` is refused; with no value `f` runs and `new T()` (here
      `newT`) is returned unless `f` throws; with a value, `f` does not run. */
  function Act<T>(a: OptionType<T>, f: Nullable<() -> Outcome<()>>, newT: T): (r: Outcome<T>)
    ensures f.Null? ==> r == Throws(ArgumentNull("f"))
    ensures f.NotNull? && a.None() ==> r == f.value().Then(_ => Returns(newT))
    ensures f.NotNull? && !a.None() ==> r == a.Some()
  {
    if f.Null? then Throws(ArgumentNull("f"))
    else if a.None() then
      match f.value()
      case Throws(e) => Throws(e)
      case Returns(_) => Returns(newT)
    else Returns(a.stored.value)
  }

  /** `act(a, f)` on a `T?`: as Act, returning `default(T)` (here `zero`) after `f`. */
  function ActNullable<T>(a: Nullable<T>, f: Nullable<() -> Outcome<()>>, zero: T): (r: Outcome<T>)
    ensures f.Null? ==> r == Throws(ArgumentNull("f"))
    ensures f.NotNull? && a.Null? ==> r == f.value().Then(_ => Returns(zero))
    ensures f.NotNull? && a.NotNull? ==> r == Returns(a.value)
  {
    if f.Null? then Throws(ArgumentNull("f"))
    else if a.Null? then
      match f.value()
      case Throws(e) => Throws(e)
      case Returns(_) => Returns(zero)
    else Returns(a.value)
  }

  /** `act(a, ex)` on a `T?`: a null `ex` is refused; otherwise it throws `ex` exactly when `a` has
      no value, and returns the value when it has one. */
  function ActThrow<T>(a: Nullable<T>, ex: Nullable<Exception>): (r: Outcome<T>)
    ensures ex.Null? ==> r == Throws(ArgumentNull("ex"))
    ensures ex.NotNull? ==> (r.Throws? <==> a.Null?)
    ensures ex.NotNull? && r.Throws? ==> r.error == ex.value
    ensures r.Returns? ==> NotNull(r.value) == a
  {
    if ex.Null? then Throws(ArgumentNull("ex"))
    else if a.Null? then Throws(ex.value)
    else Returns(a.value)
  }

  /** Defaulting an option built from `t` gives `t` back when it is not null, the default otherwise. */
  lemma ChkOfNew<T>(t: Nullable<T>, d: Nullable<T>)
    ensures Chk(New(t), d) == if t.Null? then d else t
  {
  }

  /** For strings, building an OptionType and defaulting it agrees with the direct string check. */
  lemma ChkStringOfNew(s: Nullable<string>, def: string)
    ensures Chk(NewString(s), NotNull(def)) == ChkDefault(s, NotNull(def))
    ensures ChkString(NewString(s)) == if Check.IsNull(s) then "" else s.value
  {
  }

  /** With a value present, the function given to ChkWith and the action given to Act never matter. */
  lemma PresentValueIgnoresFallback<T>(a: OptionType<T>, f1: () -> Outcome<Nullable<T>>, f2: () -> Outcome<Nullable<T>>,
                                      g1: () -> Outcome<()>, g2: () -> Outcome<()>, newT: T)
    requires !a.None()
    ensures ChkWith(a, NotNull(f1)) == ChkWith(a, NotNull(f2))
    ensures Act(a, NotNull(g1), newT) == Act(a, NotNull(g2), newT)
  {
  }
}
