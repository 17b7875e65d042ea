/** The chain of nodes a linked list owns. Each node holds one value and
    the rest of the chain after it; the last node is followed by `End`
    (Python `None`). A chain is a finite, acyclic value, so no two lists can
    share or loop through nodes. */
module Chain {
  import opened Sequences

  datatype Chain<T> = End | Node(data: T, next: Chain<T>)

  /** The values met walking the chain from its first node to its last. */
  function Elements<T>(c: Chain<T>): seq<T>
  {
    match c
    case End => []
    case Node(d, n) => [d] + Elements(n)
  }

  /** Two chains holding the same values in the same order are the same
      chain: a chain is determined by its elements. */
  lemma {:induction false} ElementsInjective<T>(a: Chain<T>, b: Chain<T>)
    requires Elements(a) == Elements(b)
    ensures a == b
  {
    match a
    case End =>
    case Node(d, n) =>
      assert Elements(b)[0] == d;
      assert Elements(n) == Elements(a)[1..] == Elements(b)[1..] == Elements(b.next);
      ElementsInjective(n, b.next);
  }

  /** The membership scan: walk from the first node, comparing each node's
      value with `x`, and stop at the first match. */
  function Contains<T(==)>(c: Chain<T>, x: T): (r: bool)
    ensures r <==> x in Elements(c)
  {
    match c
    case End => false
    case Node(d, n) => x == d || Contains(n, x)
  }

  /** Unlinks the first node, counting from the front, whose value equals
      `x`: its predecessor (or the start of the chain) is made to point at
      its successor. A chain without such a node comes back unchanged. */
  function Unlink<T(==)>(c: Chain<T>, x: T): (r: Chain<T>)
    ensures x !in Elements(c) ==> r == c
    ensures x in Elements(c) ==> |Elements(r)| == |Elements(c)| - 1
  {
    match c
    case End => End
    case Node(d, n) => if x == d then n else Node(d, Unlink(n, x))
  }

  /** Unlinking deletes exactly the first occurrence of `x` and keeps every
      other value in its original order. */
  lemma {:induction false} UnlinkRemovesFirst<T>(c: Chain<T>, x: T)
    requires x in Elements(c)
    ensures Elements(Unlink(c, x)) == RemoveFirst(Elements(c), x)
  {
    match c
    case Node(d, n) =>
      if x == d {
        RemoveFirstSplit([], x, Elements(n));
      } else {
        UnlinkRemovesFirst(n, x);
        RemoveFirstCons(d, Elements(n), x);
      }
  }

  /** A chain holding `prefix` followed by the nodes of `rest`: the result
      of patching the node before a removed one to point past it, where
      `prefix` holds the values of the nodes already passed. */
  function Relink<T>(prefix: seq<T>, rest: Chain<T>): (r: Chain<T>)
    ensures Elements(r) == prefix + Elements(rest)
  {
    if prefix == [] then rest
    else
      assert prefix == [prefix[0]] + prefix[1..];
      Node(prefix[0], Relink(prefix[1..], rest))
  }
}
