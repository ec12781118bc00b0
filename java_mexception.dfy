/** The Java `MException<U>` (MException.java): a lazy, memoising container for a computation that
    may throw. The supplier runs when the container is first asked whether it holds an exception;
    its value or its exception is then kept. */
module JavaMExceptions {
  import opened Errors

  /** A computation that yields a value (possibly null) or throws a RuntimeException. */
  type Supplier<U> = () -> Outcome<Nullable<U>>

  class MException<U> {
    /** The supplier; null for a container built directly from an exception. */
    const fn: Nullable<Supplier<U>>
    /** The supplier's value, once it has run and returned something other than null. */
    var state: Nullable<U>
    /** The exception, once the supplier has thrown it (or from the start). */
    var exception: Nullable<Exception>

    /** What the container stands for: the supplier's outcome, or the exception it was built with. */
    function Result(): Outcome<Nullable<U>>
      reads this
      requires fn.NotNull? || exception.NotNull?
    {
      if fn.NotNull? then fn.value() else Throws(exception.value)
    }

    /** Whatever has been cached agrees with that outcome. */
    ghost predicate Valid()
      reads this
    {
      (fn.NotNull? || exception.NotNull?) &&
      (exception.NotNull? ==> Result() == Throws(exception.value)) &&
      (state.NotNull? ==> Result() == Returns(state))
    }

    /** `MException(f)`: nothing has run yet. */
    constructor Lazy(f: Supplier<U>)
      ensures Valid() && fn == NotNull(f) && state.Null? && exception.Null?
      ensures Result() == f()
    {
      fn := NotNull(f);
      state := Null;
      exception := Null;
    }

    /** `MException(ex, stack)`: a container that holds an exception from the start. */
    constructor Failed(ex: Exception)
      ensures Valid() && fn.Null? && exception == NotNull(ex)
      ensures Result() == Throws(ex)
    {
      fn := Null;
      state := Null;
      exception := NotNull(ex);
    }

    /** `hasException()`: runs the supplier unless an exception or a value is already kept, and
        records a thrown exception. Once an exception is recorded it stays; a kept value is never
        recomputed. The outcome the container stands for does not change. */
    method HasException() returns (r: bool)
      requires Valid()
      modifies this
      ensures Valid() && Result() == old(Result())
      ensures r <==> Result().Throws?
      ensures r <==> exception.NotNull?
      ensures !r ==> Result() == Returns(state)
      ensures old(exception.NotNull?) ==> exception == old(exception)
      ensures old(state.NotNull?) ==> state == old(state)
    {
      if exception.NotNull? {
        return true;
      }
      if state.Null? {
        var outcome := fn.value();
        match outcome
        case Returns(s) => state := s;
        case Throws(e) => exception := NotNull(e);
      }
      return exception.NotNull?;
    }

    /** `read()`: the value, or the stored exception thrown again. */
    method Read() returns (r: Outcome<Nullable<U>>)
      requires Valid()
      modifies this
      ensures Valid() && Result() == old(Result())
      ensures r == old(Result())
    {
      var failed := HasException();
      if !failed {
        return Returns(state);
      }
      return Throws(exception.value);
    }

    /** `bind(f)`: a null `f` is refused with IllegalArgumentException. An errored container gives a
        new one carrying the same exception, without calling `f`. Otherwise `f` is applied to the
        value; what it returns is the result, and an exception it throws is caught into a new
        errored container. */
    method Bind<B>(f: Nullable<Nullable<U> -> Outcome<MException<B>>>) returns (r: Outcome<MException<B>>)
      requires Valid()
      modifies this
      ensures Valid() && Result() == old(Result())
      ensures f.Null? ==> r == Throws(IllegalArgument)
      ensures f.NotNull? && Result().Returns? && f.value(Result().value).Returns? ==>
                r == f.value(Result().value)
      ensures f.NotNull? && Result().Returns? && f.value(Result().value).Throws? ==>
                r.Returns? && fresh(r.value) && r.value.Valid() &&
                r.value.Result() == Throws(f.value(Result().value).error)
      ensures f.NotNull? && Result().Throws? ==>
                r.Returns? && fresh(r.value) && r.value.Valid() && r.value.Result() == Throws(Result().error)
    {
      if f.Null? {
        return Throws(IllegalArgument);
      }
      var failed := HasException();
      if !failed {
        var applied := f.value(state);
        if applied.Returns? {
          return applied;
        }
        var caught := new MException<B>.Failed(applied.error);
        return Returns(caught);
      }
      var carried := new MException<B>.Failed(exception.value);
      return Returns(carried);
    }
  }

  /** `toMException(f)`, the 'return' of the monad: a lazy container over `f`; a null supplier is
      refused with IllegalArgumentException. */
  method ToMException<B>(f: Nullable<Supplier<B>>) returns (r: Outcome<MException<B>>)
    ensures f.Null? ==> r == Throws(IllegalArgument)
    ensures f.NotNull? ==> r.Returns? && fresh(r.value) && r.value.Valid() && r.value.Result() == f.value() &&
                           r.value.state.Null? && r.value.exception.Null?
  {
    if f.Null? {
      return Throws(IllegalArgument);
    }
    var m := new MException<B>.Lazy(f.value);
    return Returns(m);
  }

  /** `lift(f, a, b)`: a null `f` is refused; an errored `a`, else an errored `b`, gives a container
      with its exception; otherwise a lazy container over `f` applied to the two values. */
  method Lift<A, B, C>(f: Nullable<(Nullable<A>, Nullable<B>) -> Outcome<Nullable<C>>>, a: MException<A>, b: MException<B>)
    returns (r: Outcome<MException<C>>)
    requires a.Valid() && b.Valid()
    modifies a, b
    ensures a.Valid() && b.Valid() && a.Result() == old(a.Result()) && b.Result() == old(b.Result())
    ensures f.Null? ==> r == Throws(IllegalArgument)
    ensures f.NotNull? ==> r.Returns? && fresh(r.value) && r.value.Valid()
    ensures f.NotNull? && a.Result().Throws? ==> r.value.Result() == Throws(a.Result().error)
    ensures f.NotNull? && a.Result().Returns? && b.Result().Throws? ==> r.value.Result() == Throws(b.Result().error)
    ensures f.NotNull? && a.Result().Returns? && b.Result().Returns? ==>
              r.value.Result() == f.value(a.Result().value, b.Result().value)
  {
    if f.Null? {
      return Throws(IllegalArgument);
    }
    var aFailed := a.HasException();
    if aFailed {
      var carried := new MException<C>.Failed(a.exception.value);
      return Returns(carried);
    }
    var bFailed := b.HasException();
    if bFailed {
      var carried := new MException<C>.Failed(b.exception.value);
      return Returns(carried);
    }
    var av := a.Read();
    var bv := b.Read();
    var g := f.value;
    var x, y := av.value, bv.value;
    var delayed := new MException<C>.Lazy(() => g(x, y));
    return Returns(delayed);
  }

  /** 10 / 10 and 20 / 10 lifted with + read as 3. */
  method LiftExample() returns (sum: Outcome<Nullable<int>>)
    ensures sum == Returns(NotNull(3))
  {
    var a := new MException<int>.Lazy(() => Returns(NotNull(10 / 10)));
    var b := new MException<int>.Lazy(() => Returns(NotNull(20 / 10)));
    var plus := (x: Nullable<int>, y: Nullable<int>) =>
      if x.NotNull? && y.NotNull? then Returns(NotNull(x.value + y.value)) else Throws(General("null"));
    var c := Lift(NotNull(plus), a, b);
    sum := c.value.Read();
  }

  /** A function that throws "Argh" inside `bind` leaves an errored container holding that exception. */
  method BindCatchesExample() returns (caught: bool, error: Nullable<Exception>)
    ensures caught && error == NotNull(General("Argh"))
  {
    var one := new MException<int>.Lazy(() => Returns(NotNull(1)));
    var thrown: Outcome<MException<int>> := one.Bind(NotNull((_: Nullable<int>) => Throws(General("Argh"))));
    caught := thrown.value.HasException();
    error := thrown.value.exception;
  }

  /** Binding a container whose supplier throws "Argh" gives a container with the same exception,
      and the original reports its exception too. */
  method BindCarriesExample() returns (carried: bool, original: bool, error: Nullable<Exception>)
    ensures carried && original && error == NotNull(General("Argh"))
  {
    var failing := new MException<int>.Lazy(() => Throws(General("Argh")));
    var other := new MException<int>.Lazy(() => Returns(NotNull(0)));
    var bound: Outcome<MException<int>> := failing.Bind(NotNull((v: Nullable<int>) => Returns(other)));
    carried := bound.value.HasException();
    original := failing.HasException();
    error := bound.value.exception;
  }
}
