/** The bounded singly-linked list: a chain of nodes starting at `head`, a
    running count `size` and a capacity `limit`. New values go in at the
    head, so the most recently appended value is always first.

    The source mutates the list in place and raises on misuse. Here a list
    is an immutable value and every operation that may change it returns a
    `Step`: the list after the call together with the call's outcome. A
    failed call returns the list it was given, which is how "a failed
    operation mutates nothing" is stated. Queries (`peek`, `contain`,
    `size`, `is_empty`) return only their answer, so they cannot mutate. */
module LinkedLists {
  import opened Outcome
  import opened Sequences
  import opened Chain
  import opened Capacity

  datatype LinkedList<T> = LinkedList(head: Chain<T>, size: int, limit: Limit)

  /** The list after an operation, and what the operation returned. */
  datatype Step<T, R> = Step(list: LinkedList<T>, out: Result<R>)

  /** The values of the list, head first. */
  function Contents<T>(l: LinkedList<T>): seq<T>
  {
    Elements(l.head)
  }

  /** The invariant the class keeps: the count equals the number of nodes
      reachable from `head`, and the count respects the limit. */
  predicate Valid<T>(l: LinkedList<T>)
  {
    l.size == |Contents(l)| && Within(l.size, l.limit)
  }

  /** `LinkedList(limit)`: no nodes, count zero, and the limit read from
      the argument, with `None` and `0` meaning unbounded. */
  function New<T>(arg: Option<int>): (l: LinkedList<T>)
    ensures Valid(l)
    ensures Contents(l) == [] && l.size == 0
    ensures l.limit.Unbounded? <==> (arg.None? || arg.value == 0)
    ensures l.limit.Bounded? ==> arg == Some(l.limit.cap)
  {
    LinkedList(End, 0, FromArg(arg))
  }

  /** `append(x)`: fails with `Full` exactly when the count equals the
      limit, leaving the list as it was; otherwise `x` becomes the new head,
      the old chain follows it unchanged, and the count grows by one. */
  function Append<T>(l: LinkedList<T>, x: T): (s: Step<T, ()>)
    ensures s.out.Err? <==> IsFull(l.size, l.limit)
    ensures s.out.Err? ==> s.out.error == Full && s.list == l
    ensures s.out.Ok? ==> Contents(s.list) == [x] + Contents(l)
    ensures s.out.Ok? ==> s.list.size == l.size + 1 && s.list.limit == l.limit
    ensures Valid(l) ==> Valid(s.list)
  {
    if IsFull(l.size, l.limit) then Step(l, Err(Full))
    else Step(LinkedList(Node(x, l.head), l.size + 1, l.limit), Ok(()))
  }

  /** `remove(x)`: on a list of count zero fails with `Empty`; when no node
      holds `x` fails with `NotFound`; both leave the list as it was.
      Otherwise the first node from the head holding `x` is unlinked, its
      value is returned, every other value keeps its order, and the count
      drops by one. */
  function Remove<T(==)>(l: LinkedList<T>, x: T): (s: Step<T, T>)
    ensures l.size == 0 ==> s == Step(l, Err(Empty))
    ensures l.size != 0 && x !in Contents(l) ==> s == Step(l, Err(NotFound))
    ensures l.size != 0 && x in Contents(l) ==>
              && s.out == Ok(x)
              && Contents(s.list) == RemoveFirst(Contents(l), x)
              && s.list.size == l.size - 1
              && s.list.limit == l.limit
    ensures Valid(l) ==> Valid(s.list)
  {
    if l.size == 0 then Step(l, Err(Empty))
    else if !Contains(l.head, x) then Step(l, Err(NotFound))
    else
      UnlinkRemovesFirst(l.head, x);
      Step(LinkedList(Unlink(l.head, x), l.size - 1, l.limit), Ok(x))
  }

  /** `peek()`: fails with `Empty` on a list of count zero, otherwise
      returns the head's value. */
  function Peek<T>(l: LinkedList<T>): (r: Result<T>)
    requires Valid(l)
    ensures r.Err? <==> Contents(l) == []
    ensures r.Err? ==> r.error == Empty
    ensures r.Ok? ==> r.value == Contents(l)[0]
  {
    if l.size == 0 then Err(Empty) else Ok(l.head.data)
  }

  /** `contain(x)`: fails with `Empty` on a list of count zero (it does not
      answer `false`); otherwise answers whether some node holds `x`. */
  function Contain<T(==)>(l: LinkedList<T>, x: T): (r: Result<bool>)
    ensures l.size == 0 ==> r == Err(Empty)
    ensures l.size != 0 ==> r == Ok(x in Contents(l))
  {
    if l.size == 0 then Err(Empty) else Ok(Contains(l.head, x))
  }

  /** `size()`: the stored count, which on a valid list is the number of
      values it holds. */
  function Size<T>(l: LinkedList<T>): (n: int)
    ensures Valid(l) ==> n == |Contents(l)|
  {
    l.size
  }

  /** `is_empty()`: whether the stored count is zero, which on a valid list
      is whether it holds no value. */
  function IsEmpty<T>(l: LinkedList<T>): (b: bool)
    ensures Valid(l) ==> (b <==> Contents(l) == [])
  {
    l.size == 0
  }

  /** The loop of `contain`: walk from the head until a node holds `x` or
      the chain ends. It answers what `Contain` answers. */
  method ContainScan<T(==)>(l: LinkedList<T>, x: T) returns (r: Result<bool>)
    ensures l.size == 0 ==> r == Err(Empty)
    ensures l.size != 0 ==> r == Ok(x in Contents(l))
  {
    if l.size == 0 {
      return Err(Empty);
    }
    var current := l.head;
    while current.Node?
      invariant x in Contents(l) <==> x in Elements(current)
      decreases current
    {
      if x == current.data {
        return Ok(true);
      }
      current := current.next;
    }
    return Ok(false);
  }

  /** The loop of `remove`: walk from the head keeping the values already
      passed; at the first node holding `x`, patch the node before it (or
      the head) to point at its successor. It returns exactly the step
      `Remove` describes. */
  method RemoveScan<T(==)>(l: LinkedList<T>, x: T) returns (s: Step<T, T>)
    ensures s == Remove(l, x)
  {
    if l.size == 0 {
      return Step(l, Err(Empty));
    }
    var current := l.head;
    var passed: seq<T> := [];
    while current.Node?
      invariant Contents(l) == passed + Elements(current)
      invariant x !in passed
      decreases current
    {
      if x == current.data {
        var head := Relink(passed, current.next);
        assert Contents(l) == passed + [x] + Elements(current.next);
        RemoveFirstSplit(passed, x, Elements(current.next));
        UnlinkRemovesFirst(l.head, x);
        ElementsInjective(head, Unlink(l.head, x));
        return Step(LinkedList(head, l.size - 1, l.limit), Ok(current.data));
      }
      passed := passed + [current.data];
      current := current.next;
    }
    return Step(l, Err(NotFound));
  }
}
