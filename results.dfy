/** Error-carrying values shared by the modules of this model, and the two ways the
    listing pipeline chains results of sequences: stop at the first failure, otherwise
    concatenate. */
module Results {

  datatype Option<+T> = None | Some(value: T)

  datatype Result<+T, +E> = Success(value: T) | Failure(error: E)

  /** `xs` followed by the sequence in `r`; a failure passes through unchanged. */
  function Prepend<T, E>(xs: seq<T>, r: Result<seq<T>, E>): Result<seq<T>, E>
  {
    match r
    case Success(ys) => Success(xs + ys)
    case Failure(e) => Failure(e)
  }

  /** Run `a`, then `b`: the first failure wins, otherwise the two sequences are concatenated. */
  function Then<T, E>(a: Result<seq<T>, E>, b: Result<seq<T>, E>): Result<seq<T>, E>
  {
    match a
    case Success(xs) => Prepend(xs, b)
    case Failure(e) => Failure(e)
  }

  lemma PrependPrepend<T, E>(xs: seq<T>, ys: seq<T>, r: Result<seq<T>, E>)
    ensures Prepend(xs, Prepend(ys, r)) == Prepend(xs + ys, r)
  {
    if r.Success? {
      assert xs + (ys + r.value) == (xs + ys) + r.value;
    }
  }

  lemma PrependThen<T, E>(xs: seq<T>, a: Result<seq<T>, E>, b: Result<seq<T>, E>)
    ensures Then(Prepend(xs, a), b) == Prepend(xs, Then(a, b))
  {
    if a.Success? {
      PrependPrepend(xs, a.value, b);
    }
  }

  lemma ThenAssociative<T, E>(a: Result<seq<T>, E>, b: Result<seq<T>, E>, c: Result<seq<T>, E>)
    ensures Then(Then(a, b), c) == Then(a, Then(b, c))
  {
    if a.Success? {
      PrependThen(a.value, b, c);
    }
  }

  lemma PrependEmpty<T, E>(r: Result<seq<T>, E>)
    ensures Prepend([], r) == r
  {
    if r.Success? {
      assert [] + r.value == r.value;
    }
  }

  lemma PrependNothing<T, E>(xs: seq<T>, r: Result<seq<T>, E>)
    requires r == Success([])
    ensures Prepend(xs, r) == Success(xs)
  {
    assert xs + [] == xs;
  }

  lemma ThenEmpty<T, E>(b: Result<seq<T>, E>)
    ensures Then(Success([]), b) == b
  {
    if b.Success? {
      assert [] + b.value == b.value;
    }
  }

  lemma ThenNothing<T, E>(a: Result<seq<T>, E>)
    ensures Then(a, Success([])) == a
  {
    if a.Success? {
      assert a.value + [] == a.value;
    }
  }
}
