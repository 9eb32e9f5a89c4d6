/** Optional values, and results that carry either a value or the Java
    exception the original code would have thrown at that point. */
module Wrappers {

  datatype Option<+T> = None | Some(value: T)

  /** The range of Java's `int`. */
  const IntMax: int := 0x7FFF_FFFF
  const IntMin: int := -0x8000_0000

  /** The exceptions the modelled Java code can raise. */
  datatype JavaException =
    | IndexOutOfBounds                   // ArrayIndexOutOfBoundsException and friends
    | NegativeArraySize                  // new byte[n] with n < 0
    | EndOfFile                          // RandomAccessFile.readFully past the end
    | IOException(message: string)
    | IllegalArgument(message: string)
    | NullPointer(message: string)

  /** A value, or the exception that ended the computation.
      Failure-compatible, so `var x :- e;` propagates the exception. */
  datatype Result<+T> = Ok(value: T) | Err(error: JavaException) {
    predicate IsFailure() { Err? }

    function PropagateFailure<U>(): Result<U>
      requires Err?
    {
      Err(error)
    }

    function Extract(): T
      requires Ok?
    {
      value
    }
  }

  /** The outcome of an operation that returns nothing: it completed, or it
      threw. Failure-compatible, so `:- Op();` propagates the exception. */
  datatype Outcome = Pass | Fail(error: JavaException) {
    predicate IsFailure() { Fail? }

    function PropagateFailure(): Outcome
      requires Fail?
    {
      this
    }
  }

  /** `Ok(done + v)` for a result `Ok(v)`; an exception stays as it is. */
  function Then<T>(done: seq<T>, r: Result<seq<T>>): Result<seq<T>> {
    match r
    case Ok(v) => Ok(done + v)
    case Err(e) => Err(e)
  }

  lemma ThenEmpty<T>(r: Result<seq<T>>)
    ensures Then([], r) == r
  {
    if r.Ok? {
      assert [] + r.value == r.value;
    }
  }

  lemma ThenOkEmpty<T>(done: seq<T>)
    ensures Then(done, Ok([])) == Ok(done)
  {
    assert done + [] == done;
  }

  lemma ThenThen<T>(xs: seq<T>, ys: seq<T>, r: Result<seq<T>>)
    ensures Then(xs, Then(ys, r)) == Then(xs + ys, r)
  {
    if r.Ok? {
      assert xs + (ys + r.value) == xs + ys + r.value;
    }
  }

  lemma ConcatAssoc<T>(a: seq<T>, b: seq<T>, c: seq<T>)
    ensures a + b + c == a + (b + c)
  {
  }
}
