# Bounded singly-linked list — a Dafny model

This project models the `LinkedList` class of `linkedlist.py`: a chain of
nodes starting at `head`, a running count `_size`, and a capacity `limit`
fixed at construction. `append` inserts at the head, so it behaves as a
prepend. `remove` scans from the head and unlinks the first node whose
value equals its argument. `peek` returns the head's value. `contain` is a
membership scan. `size` and `is_empty` read the stored count. Every misuse
raises an error instead of returning a sentinel.

The model is functional:

- `Chain.Chain` is the node chain: `Node(data, next)` cells ending in `End`.
  `Chain.Elements` reads it head first.
- `LinkedLists.LinkedList` holds `head`, `size` and `limit`. `Capacity.Limit`
  is either `Unbounded` (the source's `float("inf")`) or `Bounded(cap)`.
- Every operation that may change the list returns a `Step`: the list after
  the call, plus an `Outcome.Result` that is `Ok(value)` or `Err(kind)`. The
  kinds are `Full`, `Empty` and `NotFound`. A failed call returns the list
  it was given, so "a failed operation mutates nothing" is an ordinary
  postcondition.
- `Sequences` holds reference definitions on plain sequences:
  `FirstIndex`, `RemoveFirst` and `Reverse`. The chain operations are
  proved to agree with them.
- The two loops of the source, the scans in `remove` and `contain`, are
  also modelled as methods (`RemoveScan`, `ContainScan`). Their loop
  invariants prove that they compute exactly the functional `Remove` and
  `Contain`.
- `LinkedLists.Valid` is the class invariant. The count equals the number
  of nodes, and the count does not exceed a non-negative limit.
  `ListProperties.RunKeepsValid` shows every run of operations keeps it.

Three behaviours of the code differ from what the class's interface suggests, and the model follows the code:

- An absent limit means unbounded, but the code tests
  `not limit`, so `0` also means unbounded (linkedlist.py:53).
- `size <= limit` is not an invariant for every limit. The code accepts a
  negative integer limit, and the `==` test (linkedlist.py:83) never
  matches it, so such a list grows past its limit.
  `ListProperties.NegativeLimitNeverFills` states this. `Capacity.Within`
  and `LinkedLists.Valid` therefore bound the count only by a non-negative
  limit.
- `contain` on an empty list fails rather than answering false. The code
  raises the same `IndexError` as `peek` and `remove` do on an empty list,
  so the model uses one kind, `Empty`, for all three.

## Model

| member | source | states |
|---|---|---|
| `Capacity.FromArg` | linkedlist.py:53-54 | the limit is unbounded exactly when the argument is `None` or `0`; any other integer is kept as the limit |
| `LinkedLists.New` | linkedlist.py:48-56 | a new list is valid, holds no values, has count 0, and its limit is unbounded exactly for a falsy argument |
| `LinkedLists.Append` | linkedlist.py:77-86 | fails with `Full` exactly when the count equals the limit, and then leaves the list unchanged; otherwise the new value is the head, the old values follow in order, the count grows by one, and validity is kept |
| `LinkedLists.Remove` | linkedlist.py:88-108 | count 0 fails with `Empty`; an absent value fails with `NotFound`; both leave the list unchanged. Otherwise it returns the value, the values become the old ones with the first occurrence deleted, the count drops by one, and validity is kept |
| `LinkedLists.Peek` | linkedlist.py:110-117 | fails with `Empty` exactly when the list holds no values; otherwise returns the head value |
| `LinkedLists.Contain` | linkedlist.py:119-131 | count 0 fails with `Empty` rather than answering false; otherwise answers whether the value occurs in the list |
| `LinkedLists.Size` | linkedlist.py:133-138 | on a valid list, the answer is the number of values held |
| `LinkedLists.IsEmpty` | linkedlist.py:140-145 | on a valid list, true exactly when it holds no values |
| `LinkedLists.ContainScan` | linkedlist.py:125-131 | the head-to-tail loop answers `Empty` on count 0, else whether the value occurs |
| `LinkedLists.RemoveScan` | linkedlist.py:94-108 | the loop that tracks the passed nodes and patches the predecessor's link gives exactly the step `Remove` specifies |
| `Chain.Contains` | linkedlist.py:126-131 | the recursive scan answers true exactly when the value is among the chain's elements |
| `Chain.Unlink` | linkedlist.py:96-107 | a chain without the value comes back unchanged; otherwise the chain is one node shorter |
| `Chain.UnlinkRemovesFirst` | linkedlist.py:98-105 | unlinking deletes exactly the first occurrence counting from the head, and keeps every other element in order |
| `Chain.Relink` | linkedlist.py:100-103 | patching the predecessor gives a chain of the passed values followed by the nodes after the removed one |
| `Sequences.FirstIndex` | linkedlist.py:98-99 | the first match found walking from the head: an index holding the value with no earlier occurrence |
| `ListProperties.AppendEachFits` | linkedlist.py:83-86 | while the limit leaves room, successive appends all succeed, leave the values in reverse order of appending in front of the old ones, and add one to the count per append |
| `ListProperties.FalsyLimitNeverFills` | linkedlist.py:53-86 | with a `None` or `0` limit any number of appends succeeds; the count equals the number of appends and `peek` gives the last value appended |
| `ListProperties.FillThenOverflow` | linkedlist.py:83-86 | a positive limit `n` admits exactly `n` appends; every further append fails with `Full` and keeps the list, count `n` included |
| `ListProperties.FullIsAtLeast` | linkedlist.py:83-84 | on a valid list with a non-negative limit, the `==` capacity test is equivalent to `>=` |
| `ListProperties.NegativeLimitNeverFills` | linkedlist.py:53-86 | a negative limit is kept, yet appends never fail and the count passes the limit |
| `ListProperties.AppendThenRemove` | linkedlist.py:85-105 | removing a value just appended gives back the original list and returns the value; `peek` sees that value first |
| `ListProperties.RemovePeekedIsPop` | linkedlist.py:99-117 | removing the value `peek` returns unlinks the head node itself |
| `ListProperties.RemoveAgreesWithContain` | linkedlist.py:94-131 | `remove` succeeds exactly when `contain` answers true; on an empty list both fail with the same kind; when `contain` answers false, `remove` fails with `NotFound` |
| `ListProperties.RemoveDeletesOneCopy` | linkedlist.py:96-105 | a successful remove deletes exactly one copy of the value and leaves every other value's count unchanged |
| `ListProperties.RemoveUniqueThenContain` | linkedlist.py:96-131 | after removing a value held once, `contain` answers false, or fails with `Empty` when the list is now empty |
| `ListProperties.RunKeepsValid` | linkedlist.py:77-108 | any run of appends, removes and queries, failing or not, keeps the count equal to the node count and within the limit, and never changes the limit |
| `ListProperties.FiveAppends` | linkedlist.py:77-86 | appending 1 to 5 to an unbounded list gives the list 5, 4, 3, 2, 1 with count 5 |
| `ListProperties.CountdownHolds` | linkedlist.py:85-86 | the list `n`, ..., `1` built by appends keeps the invariant and holds exactly the values 1 to `n` |
| `ListProperties.CountdownPop` | linkedlist.py:88-131 | removing the head value `n` of the list `n`, ..., `1` returns `n` and leaves `n - 1`, ..., `1`; `contain` finds exactly 1 to `n`. Applied to 5, 4, 3 this is: three removals return 5, 4, 3, leave 2, 1, after which 4 is not found and 2 is |

## Left out

- `__str__` and `__repr__` (linkedlist.py:58-75): display and debugging text only.
- `LinkedListInterface` (linkedlist.py:5-42): abstract method stubs with no behaviour.
- Error message text: only the error kind is modelled. The source raises `IndexError` for all three kinds.
- `node.py` is not part of this model. Its `Node` is a value and next-link cell, represented by `Chain.Node`.
- `stack.py` is not part of this model, so the stack facade and its `pop` are not modelled. `ListProperties.RemovePeekedIsPop` states the head-removal property that `pop` relies on.
- In-place mutation and aliasing: the list is an immutable value. `remove` patches the predecessor's `next` field in place; `Chain.Relink` builds the equal chain instead, and `Chain.ElementsInjective` shows that chains with equal elements are equal.
- Non-integer limits: Python accepts any object as `limit`. The model takes `None` or an integer. A fractional limit, which no count ever equals, is not modelled.
- Python's `==` may relate values of different types (`1 == 1.0`). The model compares with Dafny equality, so the value `remove` returns is the argument itself.
