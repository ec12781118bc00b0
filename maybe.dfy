/** `Maybe<T>` with its two implementations `Nothing<T>` and `Something<T>`, and `MaybeFns.Div`
    (Utils/Maybe.cs). A `Maybe<T>` is an interface reference, so it may also be null. */
module Maybes {
  import opened Errors
  import opened Ints

  datatype Maybe<T> = Nothing | Something(value: T)

  /** `t.ToMaybe()`: always Something. */
  function ToMaybe<T>(t: T): (r: Maybe<T>)
    ensures r.Something? && r.value == t
  {
    Something(t)
  }

  /** Bind: a null `tfm` is refused. Otherwise anything that is not a Something (Nothing, or a null
      reference, which the `as` test turns away) gives Nothing without calling `tfm`; a Something
      gives whatever `tfm` does with its value. */
  function Bind<A, B>(input: Nullable<Maybe<A>>, tfm: Nullable<A -> Outcome<Maybe<B>>>): (r: Outcome<Maybe<B>>)
    ensures tfm.Null? ==> r == Throws(ArgumentNull("tfm"))
    ensures tfm.NotNull? && (input.Null? || input.value.Nothing?) ==> r == Returns(Nothing)
    ensures tfm.NotNull? && input.NotNull? && input.value.Something? ==> r == tfm.value(input.value.value)
  {
    if tfm.Null? then Throws(ArgumentNull("tfm"))
    else match input
      case NotNull(Something(v)) => tfm.value(v)
      case _ => Returns(Nothing)
  }

  /** SelectMany: `a`, `tfm` and `select` are checked for null in that order; then
      `a.Bind(x => tfm(x).Bind(y => select(x, y).ToMaybe()))`. */
  function SelectMany<A, B, C>(a: Nullable<Maybe<A>>, tfm: Nullable<A -> Outcome<Maybe<B>>>,
                               select: Nullable<(A, B) -> Outcome<C>>): (r: Outcome<Maybe<C>>)
    ensures a.Null? ==> r == Throws(ArgumentNull("a"))
    ensures a.NotNull? && tfm.Null? ==> r == Throws(ArgumentNull("tfm"))
    ensures a.NotNull? && tfm.NotNull? && select.Null? ==> r == Throws(ArgumentNull("select"))
    ensures r.Returns? && r.value.Something? <==>
      a.NotNull? && a.value.Something? && tfm.NotNull? && select.NotNull? &&
      tfm.value(a.value.value).Returns? && tfm.value(a.value.value).value.Something? &&
      select.value(a.value.value, tfm.value(a.value.value).value.value).Returns?
    ensures r.Returns? && r.value.Something? ==>
      Returns(r.value.value) == select.value(a.value.value, tfm.value(a.value.value).value.value)
  {
    if a.Null? then Throws(ArgumentNull("a"))
    else if tfm.Null? then Throws(ArgumentNull("tfm"))
    else if select.Null? then Throws(ArgumentNull("select"))
    else
      var f, s := tfm.value, select.value;
      Bind(a, NotNull(x => f(x).Then(mb => Bind(NotNull(mb), NotNull(y => s(x, y).Then(c => Returns(ToMaybe(c))))))))
  }

  /** `MaybeFns.Div`: Nothing exactly when the divisor is 0, otherwise the quotient rounded toward
      zero; int.MinValue / -1 overflows 32 bits and throws. */
  function Div(top: int32, bottom: int32): (r: Outcome<Maybe<int32>>)
    ensures r == Returns(Nothing) <==> bottom == 0
    ensures r.Throws? <==> top == MinInt32 && bottom == -1
    ensures r.Throws? ==> r.error == Overflow
    ensures r.Returns? && r.value.Something? ==>
      Abs(top - r.value.value * bottom) < Abs(bottom) && (top >= 0 ==> top - r.value.value * bottom >= 0)
        && (top < 0 ==> top - r.value.value * bottom <= 0)
  {
    if bottom == 0 then Returns(Nothing)
    else if top == MinInt32 && bottom == -1 then Throws(Overflow)
    else Returns(ToMaybe(TruncDiv(top, bottom) as int32))
  }

  /** Binding a wrapped value applies the transformation to it; binding with ToMaybe changes nothing. */
  lemma BindIdentities<A, B>(a: A, tfm: A -> Outcome<Maybe<B>>, m: Maybe<A>)
    ensures Bind(NotNull(ToMaybe(a)), NotNull(tfm)) == tfm(a)
    ensures Bind(NotNull(m), NotNull((x: A) => Returns(ToMaybe(x)))) == Returns(m)
  {
  }

  /** `from t in 10.ToMaybe() from b in Div(t, 0) select b` is Nothing, and
      `from t in 10.ToMaybe() from b in Div(t, 2) from c in Div(t, b) select c` is Something(2). */
  lemma DivisionChains()
    ensures SelectMany(NotNull(ToMaybe(10 as int32)), NotNull((t: int32) => Div(t, 0)),
                       NotNull((t: int32, b: int32) => Returns(b))) == Returns(Nothing)
    ensures Div(10, 2) == Returns(Something(5)) && Div(10, 5) == Returns(Something(2))
    ensures Bind(NotNull(ToMaybe(10 as int32)),
                 NotNull((t: int32) => Div(t, 2).Then(mb => Bind(NotNull(mb), NotNull((b: int32) => Div(t, b))))))
         == Returns(Something(2 as int32))
  {
    assert TruncDiv(10, 2) == 5;
    assert TruncDiv(10, 5) == 2;
  }
}
