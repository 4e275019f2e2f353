/** The doubly linked list of slot indices behind the fully-associative TLB's
    replacement policy, seen from its front to its back as a sequence. A node
    is named by its position. Popping the last node leaves one end pointing at
    the freed node, a state the sequence cannot express: it is `Dangling`. */
module EvictionList {

  datatype List = Linked(items: seq<nat>) | Dangling

  /** init_list: front and back both NULL. */
  function InitList(): (l: List)
    ensures IsEmptyList(l) && l.Linked? && |l.items| == 0
  {
    Linked([])
  }

  /** is_empty_list: front and back both NULL. A dangling list has one end
      set, so it is not empty. */
  predicate IsEmptyList(l: List): (b: bool)
    ensures b <==> l == Linked([])
  {
    l.Linked? && l.items == []
  }

  /** push_back dereferences `back`, so the list must hold a node. */
  function PushBack(l: List, v: nat): (r: List)
    requires l.Linked? && l.items != []
    ensures r.Linked? && |r.items| == |l.items| + 1
    ensures r.items[..|l.items|] == l.items && r.items[|l.items|] == v
  {
    Linked(l.items + [v])
  }

  /** push_front dereferences `front`, so the list must hold a node. */
  function PushFront(l: List, v: nat): (r: List)
    requires l.Linked? && l.items != []
    ensures r.Linked? && |r.items| == |l.items| + 1
    ensures r.items[1..] == l.items && r.items[0] == v
  {
    Linked([v] + l.items)
  }

  /** pop_back: a no-op on an empty list; removing the only node leaves the
      front pointing at it. With more nodes the new back still links to the
      freed node, a link the sequence does not show. */
  function PopBack(l: List): (r: List)
    requires l.Linked?
    ensures IsEmptyList(l) ==> r == l
    ensures |l.items| == 1 ==> r.Dangling? && !IsEmptyList(r)
    ensures |l.items| > 1 ==> r.Linked? && r.items + [l.items[|l.items| - 1]] == l.items
  {
    if l.items == [] then l
    else if |l.items| == 1 then Dangling
    else Linked(l.items[..|l.items| - 1])
  }

  /** pop_front: a no-op on an empty list; removing the only node leaves the
      back pointing at it. With more nodes the new front still links back to
      the freed node, a link the sequence does not show. */
  function PopFront(l: List): (r: List)
    requires l.Linked?
    ensures IsEmptyList(l) ==> r == l
    ensures |l.items| == 1 ==> r.Dangling? && !IsEmptyList(r)
    ensures |l.items| > 1 ==> r.Linked? && [l.items[0]] + r.items == l.items
  {
    if l.items == [] then l
    else if |l.items| == 1 then Dangling
    else Linked(l.items[1..])
  }

  /** Popping undoes pushing at the same end of a list that holds a node. */
  lemma PopUndoesPush(l: List, v: nat)
    requires l.Linked? && l.items != []
    ensures PopBack(PushBack(l, v)) == l
    ensures PopFront(PushFront(l, v)) == l
  {
  }

  /** The sequence without its element at position pos. */
  function Remove(s: seq<nat>, pos: nat): (r: seq<nat>)
    requires pos < |s|
    ensures |r| == |s| - 1
    ensures forall i :: 0 <= i < pos ==> r[i] == s[i]
    ensures forall i :: pos <= i < |r| ==> r[i] == s[i + 1]
  {
    s[..pos] + s[pos + 1..]
  }

  /** move_back unlinks the node through both its neighbours, so it must be
      neither the front nor the back. */
  predicate MoveBackDefined(l: List, pos: nat)
  {
    l.Linked? && 0 < pos < |l.items| - 1
  }

  /** move_back as written: unlink the node, then push its value at the back. */
  function MoveBack(l: List, pos: nat): (r: List)
    requires MoveBackDefined(l, pos)
    ensures r.Linked? && multiset(r.items) == multiset(l.items)
    ensures r.items[|r.items| - 1] == l.items[pos]
    ensures r.items[..|r.items| - 1] == Remove(l.items, pos)
  {
    var s := l.items;
    assert s == s[..pos] + [s[pos]] + s[pos + 1..];
    PushBack(Linked(Remove(s, pos)), s[pos])
  }

  /** The move to the back the replacement policy needs: defined for every
      node, including the front (a miss) and the back (a hit on the most
      recently used slot, which is then a no-op). */
  function MoveToBack(s: seq<nat>, pos: nat): (r: seq<nat>)
    requires pos < |s|
    ensures |r| == |s| && multiset(r) == multiset(s)
    ensures r[|r| - 1] == s[pos]
    ensures r[..|r| - 1] == Remove(s, pos)
  {
    assert s == s[..pos] + [s[pos]] + s[pos + 1..];
    Remove(s, pos) + [s[pos]]
  }

  /** Every element of s is below n. */
  predicate AllBelow(s: seq<nat>, n: nat)
  {
    forall i :: 0 <= i < |s| ==> s[i] < n
  }

  /** Moving a node keeps the set of values, so a bound on them survives. */
  lemma MoveToBackBounded(s: seq<nat>, pos: nat, n: nat)
    requires pos < |s| && AllBelow(s, n)
    ensures AllBelow(MoveToBack(s, pos), n)
  {
    var r := MoveToBack(s, pos);
    forall i | 0 <= i < |r|
      ensures r[i] < n
    {
      if i == |r| - 1 {
      } else if i < pos {
        assert r[i] == Remove(s, pos)[i] == s[i];
      } else {
        assert r[i] == Remove(s, pos)[i] == s[i + 1];
      }
    }
  }

  /** The corrected move of the back node to the back changes nothing; the
      written move_back cannot take the back node at all. */
  lemma MoveBackOfBack(s: seq<nat>)
    requires |s| > 0
    ensures MoveToBack(s, |s| - 1) == s
  {
    assert Remove(s, |s| - 1) == s[..|s| - 1];
  }

  /** Where move_back is defined it agrees with MoveToBack; the front, which
      the TLB moves on every miss, and the back are outside its domain. */
  lemma MoveBackDomain(l: List, pos: nat)
    requires l.Linked? && pos < |l.items|
    ensures MoveBackDefined(l, pos) ==> MoveBack(l, pos) == Linked(MoveToBack(l.items, pos))
    ensures pos == 0 || pos == |l.items| - 1 ==> !MoveBackDefined(l, pos)
  {
  }

  /** 0, 1, ..., n - 1. */
  function Iota(n: nat): (r: seq<nat>)
    ensures |r| == n && forall i :: 0 <= i < n ==> r[i] == i
  {
    if n == 0 then [] else Iota(n - 1) + [n - 1]
  }

  /** s holds each of 0 .. n - 1 exactly once. */
  predicate IsPermutation(s: seq<nat>, n: nat)
  {
    multiset(s) == multiset(Iota(n))
  }

  /** A permutation of 0 .. n - 1 has length n and only elements below n. */
  lemma {:induction false} PermutationBounds(s: seq<nat>, n: nat)
    requires IsPermutation(s, n)
    ensures |s| == n
    ensures forall i :: 0 <= i < |s| ==> s[i] < n
  {
    assert |multiset(s)| == |multiset(Iota(n))|;
    forall i | 0 <= i < |s|
      ensures s[i] < n
    {
      assert s[i] in multiset(s);
      assert s[i] in multiset(Iota(n));
      var j :| 0 <= j < n && Iota(n)[j] == s[i];
    }
  }

  /** Moving any node to the back keeps the list a permutation. */
  lemma MoveToBackKeepsPermutation(s: seq<nat>, n: nat, pos: nat)
    requires IsPermutation(s, n) && pos < |s|
    ensures IsPermutation(MoveToBack(s, pos), n)
  {
  }
}
