/** The C# `MException<T>`: a value, or the exception that stopped its computation
    (Utils/MException.cs). Its fields are set once by a constructor and only read afterwards. */
module MExceptions {
  import opened Errors

  datatype MException<T> = Ok(value: T) | Errored(exception: Exception) {

    predicate HasException() { Errored? }

    /** The `ShowException` property: null unless the value is in error. */
    function ShowException(): (r: Nullable<Exception>)
      ensures r.Null? <==> !HasException()
      ensures HasException() ==> r == NotNull(exception)
    {
      if Errored? then NotNull(exception) else Null
    }

    /** The `Value` property: the value, or MExceptionValueAccessException wrapping the stored exception. */
    function GetValue(): (r: Outcome<T>)
      ensures r.Returns? <==> !HasException()
      ensures r.Returns? ==> r.value == value
      ensures r.Throws? ==> r.error == MExceptionValueAccess(exception)
    {
      match this
      case Ok(v) => Returns(v)
      case Errored(e) => Throws(MExceptionValueAccess(e))
    }
  }

  /** `new MException<T>(t)` and `t.ToMException()`. */
  function ToMException<T>(t: T): (r: MException<T>)
    ensures !r.HasException() && r.GetValue() == Returns(t)
  {
    Ok(t)
  }

  /** `new MException<T>(exception)`: a null exception is refused. */
  function FromException<T>(exception: Nullable<Exception>): (r: Outcome<MException<T>>)
    ensures r.Throws? <==> exception.Null?
    ensures r.Throws? ==> r.error == ArgumentNull("exception")
    ensures r.Returns? ==> r.value.HasException() && r.value.ShowException() == exception
  {
    match exception
    case Null => Throws(ArgumentNull("exception"))
    case NotNull(e) => Returns(Errored(e))
  }

  /** Bind: an errored input gives an errored result with the same exception and `tfm` is not
      called; otherwise whatever `tfm` does with the value, including throwing. */
  function Bind<A, B>(input: MException<A>, tfm: A -> Outcome<MException<B>>): (r: Outcome<MException<B>>)
    ensures input.HasException() ==> r == Returns(Errored(input.exception))
    ensures !input.HasException() ==> r == tfm(input.value)
  {
    match input
    case Errored(e) => Returns(Errored(e))
    case Ok(v) => tfm(v)
  }

  /** Protect: a transformation that never throws; an exception from `tfm` becomes an errored result. */
  function Protect<A(!new), B>(tfm: A -> Outcome<MException<B>>): (r: A -> MException<B>)
    ensures forall a :: tfm(a).Returns? ==> r(a) == tfm(a).value
    ensures forall a :: tfm(a).Throws? ==> r(a) == Errored(tfm(a).error)
  {
    a => match tfm(a)
         case Returns(m) => m
         case Throws(e) => Errored(e)
  }

  /** BindWithProtect: Bind with the protected transformation, so it never throws. */
  function BindWithProtect<A(!new), B>(input: MException<A>, tfm: A -> Outcome<MException<B>>): (r: MException<B>)
    ensures Returns(r) == Bind(input, a => Returns(Protect(tfm)(a)))
    ensures input.HasException() ==> r == Errored(input.exception)
    ensures !input.HasException() && tfm(input.value).Throws? ==> r == Errored(tfm(input.value).error)
    ensures !input.HasException() && tfm(input.value).Returns? ==> r == tfm(input.value).value
  {
    var protected := Protect(tfm);
    match input
    case Errored(e) => Errored(e)
    case Ok(v) => assert tfm(v).Returns? || tfm(v).Throws?; protected(v)
  }

  /** SelectMany: `a.BindWithProtect(x => tfm(x).Bind(y => select(x, y).ToMException()))`. It never
      throws: the first exception along the way, from `a`, from `tfm` or from `select`, ends up as the
      error of the result. */
  function SelectMany<A(!new), B, C>(a: MException<A>, tfm: A -> Outcome<MException<B>>,
                               select: (A, B) -> Outcome<C>): (r: MException<C>)
    ensures a.HasException() ==> r == Errored(a.exception)
    ensures !a.HasException() && tfm(a.value).Throws? ==> r == Errored(tfm(a.value).error)
    ensures !a.HasException() && tfm(a.value).Returns? && tfm(a.value).value.HasException() ==>
      r == Errored(tfm(a.value).value.exception)
    ensures !r.HasException() <==>
      !a.HasException() && tfm(a.value).Returns? && !tfm(a.value).value.HasException() &&
      select(a.value, tfm(a.value).value.value).Returns?
    ensures !r.HasException() ==> Returns(r.value) == select(a.value, tfm(a.value).value.value)
    ensures r.HasException() && !a.HasException() && tfm(a.value).Returns? && !tfm(a.value).value.HasException() ==>
      Throws(r.exception) == select(a.value, tfm(a.value).value.value)
  {
    BindWithProtect(a, x => tfm(x).Then(mb => Bind(mb, y => select(x, y).Then(c => Returns(ToMException(c))))))
  }

  /** `GetValueOrDefault(a, defValue)`, and with `defValue` as default(A) the parameterless overload:
      it never throws. */
  function GetValueOrDefault<A>(a: MException<A>, defValue: A): (r: A)
    ensures a.GetValue().Returns? ==> r == a.GetValue().value
    ensures a.HasException() ==> r == defValue
  {
    if a.HasException() then defValue else a.value
  }

  /** Convert: an errored value gets the exception `fn` makes of its own (a null from `fn` is refused
      by the constructor); a value without an exception is returned as it is and `fn` is not called. */
  function Convert<T>(t: MException<T>, fn: Exception -> Outcome<Nullable<Exception>>): (r: Outcome<MException<T>>)
    ensures !t.HasException() ==> r == Returns(t)
    ensures t.HasException() && fn(t.exception).Throws? ==> r == Throws(fn(t.exception).error)
    ensures t.HasException() && fn(t.exception).Returns? ==> r == FromException(fn(t.exception).value)
  {
    if t.HasException() then fn(t.exception).Then(e => FromException(e)) else Returns(t)
  }

  /** Bind obeys the monad laws. */
  lemma BindLaws<A, B, C>(a: A, m: MException<A>, f: A -> Outcome<MException<B>>, g: B -> Outcome<MException<C>>)
    ensures Bind(ToMException(a), f) == f(a)
    ensures Bind(m, x => Returns(ToMException(x))) == Returns(m)
    ensures Bind(m, f).Then(mb => Bind(mb, g)) == Bind(m, x => f(x).Then(mb => Bind(mb, g)))
  {
  }

  /** Protecting a transformation that never throws changes nothing. */
  lemma BindWithProtectOfTotal<A(!new), B>(input: MException<A>, tfm: A -> MException<B>)
    ensures Returns(BindWithProtect(input, a => Returns(tfm(a)))) == Bind(input, a => Returns(tfm(a)))
  {
  }

  /** Converting with a function that returns its argument changes nothing. */
  lemma ConvertIdentity<T>(t: MException<T>)
    ensures Convert(t, e => Returns(NotNull(e))) == Returns(t)
  {
  }

  /** `10.ToMException().SelectMany(b => 0.ToMException(), (b, c) => b / c)` holds the division by
      zero instead of throwing it. */
  lemma DivisionByZeroIsCaptured()
    ensures SelectMany(ToMException(10), (b: int) => Returns(ToMException(0)),
                       (b: int, c: int) => if c == 0 then Throws(DivideByZero) else Returns(b / c))
         == Errored(DivideByZero)
  {
  }
}
