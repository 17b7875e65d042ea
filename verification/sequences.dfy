/** Reference definitions on plain sequences, independent of the node chain:
    the position of the first occurrence of a value, the sequence with that
    occurrence deleted, and reversal. The chain operations are proved equal
    to these. */
module Sequences {

  /** The position of the first occurrence of `x` in `s`, counting from the
      front (the head of the list). */
  function FirstIndex<T(==)>(s: seq<T>, x: T): (i: nat)
    requires x in s
    ensures i < |s| && s[i] == x
    ensures x !in s[..i]
  {
    if s[0] == x then 0
    else
      var j := FirstIndex(s[1..], x);
      assert s[..j + 1] == [s[0]] + s[1..][..j];
      j + 1
  }

  /** `s` with its first occurrence of `x` deleted and every other element
      kept in its original order. */
  function RemoveFirst<T(==)>(s: seq<T>, x: T): seq<T>
    requires x in s
  {
    var i := FirstIndex(s, x);
    s[..i] + s[i + 1..]
  }

  /** Deleting the first `x` from `p + [x] + q`, where `p` holds no `x`,
      leaves exactly `p + q`: the occurrence deleted is the one right after
      `p`, and nothing before or after it moves. */
  lemma RemoveFirstSplit<T>(p: seq<T>, x: T, q: seq<T>)
    requires x !in p
    ensures x in p + [x] + q
    ensures RemoveFirst(p + [x] + q, x) == p + q
  {
    var s := p + [x] + q;
    assert s[|p|] == x;
    assert forall k :: 0 <= k < |p| ==> s[k] == p[k];
    var i := FirstIndex(s, x);
    assert s[..i] == p;
    assert s[i + 1..] == q;
  }

  /** Deleting the first `x` from a sequence whose front element is not `x`
      keeps that front element and deletes from the rest. */
  lemma RemoveFirstCons<T>(d: T, s: seq<T>, x: T)
    requires x != d && x in s
    ensures x in [d] + s
    ensures RemoveFirst([d] + s, x) == [d] + RemoveFirst(s, x)
  {
  }

  /** Deletion removes exactly one copy of `x`: one element fewer, the same
      multiset minus one `x`, the prefix before the first `x` untouched and
      the suffix after it shifted down by one. */
  lemma RemoveFirstFacts<T>(s: seq<T>, x: T)
    requires x in s
    ensures |RemoveFirst(s, x)| == |s| - 1
    ensures multiset(RemoveFirst(s, x)) == multiset(s) - multiset{x}
    ensures forall k :: 0 <= k < FirstIndex(s, x) ==> RemoveFirst(s, x)[k] == s[k]
    ensures forall k :: FirstIndex(s, x) <= k < |s| - 1 ==> RemoveFirst(s, x)[k] == s[k + 1]
  {
    var i := FirstIndex(s, x);
    var r := RemoveFirst(s, x);
    assert r == s[..i] + s[i + 1..];
    assert s == s[..i] + [x] + s[i + 1..];
    calc {
      multiset(s);
      multiset(s[..i] + [x] + s[i + 1..]);
      multiset(s[..i]) + multiset{x} + multiset(s[i + 1..]);
      multiset(r) + multiset{x};
    }
  }

  /** The elements of `s` back to front. */
  function Reverse<T>(s: seq<T>): (r: seq<T>)
    ensures |r| == |s|
    ensures forall k :: 0 <= k < |s| ==> r[k] == s[|s| - 1 - k]
  {
    if s == [] then [] else Reverse(s[1..]) + [s[0]]
  }
}
