/** The C# `Option<T>` struct and its monadic helpers (Utils/Option.cs). */
module Options {
  import opened Errors

  /** How `Option<T>` treats its argument, chosen once per type from the type code of T: a string or
      any other reference may be null, a value type never is. */
  datatype TypeCode = StringCode | ObjectCode | ValueCode

  /** An option: no value, or a value. */
  datatype Option<T> = None | Some(item: T) {

    predicate IsSome() { Some? }

    predicate IsNone() { !IsSome() }

    /** The `Some` property: the wrapped value, or OptionValueAccessException when there is none. */
    function Value(): (r: Outcome<T>)
      ensures r.Returns? <==> IsSome()
      ensures IsSome() ==> r.value == item
      ensures IsNone() ==> r.error == OptionValueAccess
    {
      if IsNone() then Throws(OptionValueAccess) else Returns(item)
    }
  }

  /** `new Option<T>(t)` and `t.ToOption()`. Only a null reference becomes None: for strings the
      empty string is a value like any other, and a value type always gives Some. */
  function ToOption<T>(code: TypeCode, t: Nullable<T>): (r: Option<T>)
    requires code == ValueCode ==> t.NotNull?
    ensures r.IsNone() <==> t.Null?
    ensures r.IsSome() ==> r.item == t.value
  {
    match t
    case Null => None
    case NotNull(v) => Some(v)
  }

  /** Bind: None without calling `tfm`, or whatever `tfm` does with the value (including throwing). */
  function Bind<A, B>(input: Option<A>, tfm: A -> Outcome<Option<B>>): (r: Outcome<Option<B>>)
    ensures input.IsNone() ==> r == Returns(None)
    ensures input.IsSome() ==> r == tfm(input.item)
  {
    if input.IsNone() then Returns(None) else tfm(input.item)
  }

  /** SelectMany, the LINQ `from a in .. from b in .. select ..` form: Bind, then Bind on the result
      of `tfm`, then ToOption of what `select` returns. */
  function SelectMany<A, B, C>(code: TypeCode, a: Option<A>, tfm: A -> Outcome<Option<B>>,
                               select: (A, B) -> Outcome<Nullable<C>>): (r: Outcome<Option<C>>)
    ensures r.Returns? && r.value.IsSome() <==>
      a.IsSome() && tfm(a.item).Returns? && tfm(a.item).value.IsSome() &&
      select(a.item, tfm(a.item).value.item).Returns? && select(a.item, tfm(a.item).value.item).value.NotNull?
    ensures r.Returns? && r.value.IsSome() ==>
      r.value.item == select(a.item, tfm(a.item).value.item).value.value
    ensures a.IsNone() ==> r == Returns(None)
    ensures a.IsSome() && tfm(a.item).Throws? ==> r == Throws(tfm(a.item).error)
    ensures a.IsSome() && tfm(a.item).Returns? && tfm(a.item).value.IsNone() ==> r == Returns(None)
    ensures a.IsSome() && tfm(a.item).Returns? && tfm(a.item).value.IsSome() &&
            select(a.item, tfm(a.item).value.item).Throws? ==>
      r == Throws(select(a.item, tfm(a.item).value.item).error)
  {
    Bind(a, x => tfm(x).Then(ob => Bind(ob, y => select(x, y).Then(c => SelectedOption(code, c)))))
  }

  /** The last step of SelectMany, which wraps `select`'s result. A value type's selector cannot
      return null; the model maps that impossible case to None. */
  function SelectedOption<C>(code: TypeCode, c: Nullable<C>): Outcome<Option<C>>
  {
    if code == ValueCode && c.Null? then Returns(None) else Returns(ToOption(code, c))
  }

  /** Bind on a freshly wrapped value applies the transformation to it. */
  lemma BindLeftIdentity<A, B>(code: TypeCode, a: A, tfm: A -> Outcome<Option<B>>)
    ensures Bind(ToOption(code, NotNull(a)), tfm) == tfm(a)
  {
  }

  /** Binding with ToOption changes nothing, for a type whose values are never null. */
  lemma BindRightIdentity<A>(m: Option<A>)
    ensures Bind(m, x => Returns(ToOption(ValueCode, NotNull(x)))) == Returns(m)
  {
  }

  /** Bind is associative, with the exception of a throwing transformation propagating in both forms. */
  lemma BindAssociative<A, B, C>(m: Option<A>, f: A -> Outcome<Option<B>>, g: B -> Outcome<Option<C>>)
    ensures Bind(m, f).Then(ob => Bind(ob, g)) == Bind(m, x => f(x).Then(ob => Bind(ob, g)))
  {
  }

  /** The query `from a in 10 from b in 2 select a + b` is Some(12), and None as soon as either
      source is None. */
  lemma SelectManyAddsInts()
    ensures SelectMany(ValueCode, Some(10), _ => Returns(Some(2)), (a: int, b: int) => Returns(NotNull(a + b)))
         == Returns(Some(12))
    ensures SelectMany(ValueCode, None, _ => Returns(Some(2)), (a: int, b: int) => Returns(NotNull(a + b)))
         == Returns(None)
    ensures SelectMany(ValueCode, Some(10), _ => Returns(None), (a: int, b: int) => Returns(NotNull(a + b)))
         == Returns(None)
  {
  }
}
