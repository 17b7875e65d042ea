/** The capacity of a list: fixed when the list is built, never changed
    afterwards. */
module Capacity {
  import opened Outcome

  /** `Unbounded` stands for the source's floating-point infinity; `Bounded`
      holds the integer the caller passed. The source does not reject a
      negative integer, so `cap` may be negative. */
  datatype Limit = Unbounded | Bounded(cap: int)

  /** The constructor's reading of its `limit` argument: Python's `not limit`
      is true for `None` and for `0`, and both mean "no limit"; any other
      integer is kept as given. */
  function FromArg(arg: Option<int>): (l: Limit)
    ensures l.Unbounded? <==> (arg.None? || arg.value == 0)
    ensures l.Bounded? ==> arg == Some(l.cap)
  {
    match arg
    case None => Unbounded
    case Some(n) => if n == 0 then Unbounded else Bounded(n)
  }

  /** The capacity test `append` performs: the count equals the limit.
      Infinity equals no integer, so an unbounded list is never full. */
  predicate IsFull(size: int, l: Limit)
  {
    l.Bounded? && size == l.cap
  }

  /** The bound a list of `size` elements keeps under limit `l`. A negative
      limit is never met by `IsFull`, so it bounds nothing. */
  predicate Within(size: int, l: Limit)
  {
    l.Unbounded? || l.cap < 0 || size <= l.cap
  }
}
