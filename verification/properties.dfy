/** Properties that relate several list operations: appends in sequence,
    the capacity edge cases, remove undoing append, and the invariant kept
    across any run of operations. */
module ListProperties {
  import opened Outcome
  import opened Sequences
  import opened Chain
  import opened Capacity
  import opened LinkedLists

  /** Appends `xs[0]`, `xs[1]`, ... in turn, stopping at the first append
      that fails, as a caller's loop would when `append` raises. */
  function AppendEach<T>(l: LinkedList<T>, xs: seq<T>): Step<T, ()>
    decreases |xs|
  {
    if xs == [] then Step(l, Ok(()))
    else
      var s := Append(l, xs[0]);
      if s.out.Err? then s else AppendEach(s.list, xs[1..])
  }

  /** While the limit leaves room for all of `xs`, every append succeeds:
      the values end up head first in reverse order of appending, in front
      of the old ones, and the count grows by `|xs|`. Room means an
      unbounded limit, a negative one, or a count that stays at or below a
      non-negative one. */
  lemma {:induction false} AppendEachFits<T>(l: LinkedList<T>, xs: seq<T>)
    requires Valid(l)
    requires l.limit.Unbounded? || l.limit.cap < 0 || l.size + |xs| <= l.limit.cap
    ensures AppendEach(l, xs).out.Ok?
    ensures Contents(AppendEach(l, xs).list) == Reverse(xs) + Contents(l)
    ensures AppendEach(l, xs).list.size == l.size + |xs|
    ensures AppendEach(l, xs).list.limit == l.limit
    ensures Valid(AppendEach(l, xs).list)
    decreases |xs|
  {
    if xs != [] {
      var s := Append(l, xs[0]);
      assert s.out.Ok?;
      AppendEachFits(s.list, xs[1..]);
      assert Reverse(xs) == Reverse(xs[1..]) + [xs[0]];
    }
  }

  /** A list built with a falsy limit (`None` or `0`) is unbounded: any
      number of appends succeeds, the count equals the number of appends,
      and `peek` answers the value appended last. */
  lemma FalsyLimitNeverFills<T>(arg: Option<int>, xs: seq<T>)
    requires arg.None? || arg == Some(0)
    ensures AppendEach(New<T>(arg), xs).out.Ok?
    ensures AppendEach(New<T>(arg), xs).list.size == |xs|
    ensures Contents(AppendEach(New<T>(arg), xs).list) == Reverse(xs)
    ensures Valid(AppendEach(New<T>(arg), xs).list)
    ensures xs != [] ==> Peek(AppendEach(New<T>(arg), xs).list) == Ok(xs[|xs| - 1])
  {
    AppendEachFits(New<T>(arg), xs);
  }

  /** A list with a positive limit `n` takes exactly `n` appends; every
      later append fails with `Full` and leaves the first `n` values, and
      the count `n`, in place. */
  lemma {:induction false} FillThenOverflow<T>(n: int, xs: seq<T>, y: T)
    requires n > 0 && |xs| >= n
    ensures AppendEach(New<T>(Some(n)), xs[..n]).out.Ok?
    ensures AppendEach(New<T>(Some(n)), xs[..n]).list.size == n
    ensures Append(AppendEach(New<T>(Some(n)), xs[..n]).list, y)
              == Step(AppendEach(New<T>(Some(n)), xs[..n]).list, Err(Full))
    ensures |xs| > n ==> AppendEach(New<T>(Some(n)), xs)
                           == Step(AppendEach(New<T>(Some(n)), xs[..n]).list, Err(Full))
  {
    var l := New<T>(Some(n));
    AppendEachFits(l, xs[..n]);
    if |xs| > n {
      AppendEachSplit(l, xs[..n], xs[n..]);
      assert xs[..n] + xs[n..] == xs;
    }
  }

  /** Appending `a` then `b` is appending `a` and, if that succeeded,
      appending `b` to the result. */
  lemma {:induction false} AppendEachSplit<T>(l: LinkedList<T>, a: seq<T>, b: seq<T>)
    ensures AppendEach(l, a + b) ==
              if AppendEach(l, a).out.Err? then AppendEach(l, a)
              else AppendEach(AppendEach(l, a).list, b)
    decreases |a|
  {
    if a != [] {
      assert (a + b)[0] == a[0];
      assert (a + b)[1..] == a[1..] + b;
      var s := Append(l, a[0]);
      if s.out.Ok? {
        AppendEachSplit(s.list, a[1..], b);
      }
    } else {
      assert a + b == b;
    }
  }

  /** On a valid list with a non-negative limit, the source's equality test
      is as strong as a `>=` test: the count reaches the limit but never
      passes it. */
  lemma FullIsAtLeast<T>(l: LinkedList<T>)
    requires Valid(l) && l.limit.Bounded? && l.limit.cap >= 0
    ensures IsFull(l.size, l.limit) <==> l.size >= l.limit.cap
  {
  }

  /** A negative integer limit is truthy in Python, so it is kept, but no
      count ever equals it: appends never fail, and after one append the
      count exceeds the limit. */
  lemma NegativeLimitNeverFills<T>(c: int, xs: seq<T>)
    requires c < 0
    ensures AppendEach(New<T>(Some(c)), xs).out.Ok?
    ensures AppendEach(New<T>(Some(c)), xs).list.size == |xs|
    ensures xs != [] ==> AppendEach(New<T>(Some(c)), xs).list.size > c
  {
    AppendEachFits(New<T>(Some(c)), xs);
  }

  /** `remove` undoes a successful `append` of the same value: the new head
      is the first match, so unlinking it gives back the old list. */
  lemma AppendThenRemove<T>(l: LinkedList<T>, x: T)
    requires Valid(l) && Append(l, x).out.Ok?
    ensures Remove(Append(l, x).list, x) == Step(l, Ok(x))
    ensures Peek(Append(l, x).list) == Ok(x)
  {
  }

  /** Removing the value `peek` returns unlinks the head itself: the next
      node becomes the head. This is the stack's pop. */
  lemma RemovePeekedIsPop<T>(l: LinkedList<T>)
    requires Valid(l) && l.size != 0
    ensures Peek(l).Ok?
    ensures Remove(l, Peek(l).value) == Step(LinkedList(l.head.next, l.size - 1, l.limit), Ok(l.head.data))
  {
  }

  /** `remove` succeeds exactly when `contain` answers true, and fails with
      the error `contain` fails with or with `NotFound` when it answers
      false. */
  lemma RemoveAgreesWithContain<T>(l: LinkedList<T>, x: T)
    ensures Remove(l, x).out.Ok? <==> Contain(l, x) == Ok(true)
    ensures Contain(l, x).Err? ==> Remove(l, x).out == Err(Contain(l, x).error)
    ensures Contain(l, x) == Ok(false) ==> Remove(l, x).out == Err(NotFound)
  {
  }

  /** A successful `remove` deletes one copy of `x` and nothing else: the
      count of every other value is unchanged and one fewer `x` remains. */
  lemma RemoveDeletesOneCopy<T>(l: LinkedList<T>, x: T)
    requires Valid(l) && x in Contents(l)
    ensures Remove(l, x).out == Ok(x)
    ensures multiset(Contents(Remove(l, x).list)) == multiset(Contents(l)) - multiset{x}
    ensures |Contents(Remove(l, x).list)| == |Contents(l)| - 1
  {
    RemoveFirstFacts(Contents(l), x);
  }

  /** After removing a value the list held exactly once, `contain` no longer
      finds it: it answers false, or fails with `Empty` if the list is now
      empty. */
  lemma RemoveUniqueThenContain<T>(l: LinkedList<T>, x: T)
    requires Valid(l) && multiset(Contents(l))[x] == 1
    ensures Remove(l, x).out == Ok(x)
    ensures Contain(Remove(l, x).list, x) in {Ok(false), Err(Empty)}
  {
    RemoveFirstFacts(Contents(l), x);
    var after := Contents(Remove(l, x).list);
    assert multiset(after)[x] == 0;
  }

  /** One call on the list, as a caller makes it. */
  datatype Op<T> = AppendOp(x: T) | RemoveOp(x: T) | PeekOp | ContainOp(x: T) | SizeOp | IsEmptyOp

  /** The list after each call of `ops` in turn. A failing call leaves the
      list as it was and the run goes on, as when the caller catches the
      error. Queries leave the list as it was. */
  function Run<T(==)>(l: LinkedList<T>, ops: seq<Op<T>>): LinkedList<T>
    decreases |ops|
  {
    if ops == [] then l
    else
      var next := match ops[0]
        case AppendOp(x) => Append(l, x).list
        case RemoveOp(x) => Remove(l, x).list
        case _ => l;
      Run(next, ops[1..])
  }

  /** Every state a list reaches from its constructor keeps the invariant:
      the count equals the number of nodes, and the count respects the
      limit. */
  lemma {:induction false} RunKeepsValid<T>(l: LinkedList<T>, ops: seq<Op<T>>)
    requires Valid(l)
    ensures Valid(Run(l, ops))
    ensures Run(l, ops).limit == l.limit
    decreases |ops|
  {
    if ops != [] {
      var next := match ops[0]
        case AppendOp(x) => Append(l, x).list
        case RemoveOp(x) => Remove(l, x).list
        case _ => l;
      RunKeepsValid(next, ops[1..]);
    }
  }

  /** The unbounded list holding `n`, `n - 1`, ..., `1`, head first: what
      appending `1` to `n` in order builds. */
  function Countdown(n: nat): LinkedList<int>
  {
    LinkedList(CountdownChain(n), n, Unbounded)
  }

  function CountdownChain(n: nat): Chain<int>
  {
    if n == 0 then End else Node(n, CountdownChain(n - 1))
  }

  /** The countdown list is valid and holds exactly the values 1 to `n`. */
  lemma {:induction false} CountdownHolds(n: nat)
    ensures Valid(Countdown(n))
    ensures forall x :: x in Contents(Countdown(n)) <==> 1 <= x <= n
  {
    if n > 0 {
      CountdownHolds(n - 1);
      assert Contents(Countdown(n)) == [n] + Contents(Countdown(n - 1));
    }
  }

  /** Appending 1 to 5 to an unbounded list leaves 5 at the head and 1 at
      the tail, with count 5. */
  lemma FiveAppends()
    ensures AppendEach(New<int>(None), [1, 2, 3, 4, 5]) == Step(Countdown(5), Ok(()))
  {
  }

  /** Removing the head value `n` of the countdown list returns `n` and
      leaves the countdown list of `n - 1`; `contain` finds exactly the
      values 1 to `n`. */
  lemma CountdownPop(n: nat, x: int)
    requires n > 0
    ensures Remove(Countdown(n), n) == Step(Countdown(n - 1), Ok(n))
    ensures Contain(Countdown(n), x) == Ok(1 <= x <= n)
  {
    CountdownHolds(n);
    RemovePeekedIsPop(Countdown(n));
  }
}
