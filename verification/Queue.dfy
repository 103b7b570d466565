/** The circular doubly linked queue of `night_queue.h` and its insertion sort. */
module Queue {

  type Id = nat

  const HEAD: Id := 0           // the sentinel

  type Compare = (Id, Id) -> int

  /** Any two are comparable, and "not after" is transitive. */
  predicate Lawful(cmp: Compare, a: Id, b: Id, c: Id) {
    && (cmp(a, b) <= 0 || cmp(b, a) <= 0)
    && (cmp(a, b) <= 0 && cmp(b, c) <= 0 ==> cmp(a, c) <= 0)
  }

  /** What a comparator must satisfy. */
  ghost predicate Preorder(cmp: Compare) {
    forall a, b, c {:trigger Lawful(cmp, a, b, c)} :: Lawful(cmp, a, b, c)
  }

  /** Equivalent under the comparator. */
  predicate Same(cmp: Compare, a: Id, b: Id) {
    cmp(a, b) <= 0 && cmp(b, a) <= 0
  }

  ghost predicate Sorted(cmp: Compare, s: seq<Id>) {
    forall i, j :: 0 <= i < j < |s| ==> cmp(s[i], s[j]) <= 0
  }

  /** The elements equivalent to c, in order: a stable sort does not change them. */
  function Class(cmp: Compare, s: seq<Id>, c: Id): seq<Id> {
    if s == [] then []
    else Class(cmp, s[..|s| - 1], c) + if Same(cmp, s[|s| - 1], c) then [s[|s| - 1]] else []
  }

  /** Where x goes: behind the last element that is not after it. */
  function Slot(cmp: Compare, s: seq<Id>, x: Id): (k: nat)
    ensures k <= |s|
    ensures k > 0 ==> cmp(s[k - 1], x) <= 0
    ensures forall i :: k <= i < |s| ==> cmp(s[i], x) > 0
  {
    if s == [] || cmp(s[|s| - 1], x) <= 0 then |s| else Slot(cmp, s[..|s| - 1], x)
  }

  function InsertAt(s: seq<Id>, k: nat, x: Id): (r: seq<Id>)
    requires k <= |s|
  {
    s[..k] + [x] + s[k..]
  }

  /** Insertion sort of the first n elements. */
  function SortedPrefix(cmp: Compare, s: seq<Id>, n: nat): (r: seq<Id>)
    requires n <= |s|
    ensures |r| == n
  {
    if n == 0 then [] else
      var rest := SortedPrefix(cmp, s, n - 1);
      InsertAt(rest, Slot(cmp, rest, s[n - 1]), s[n - 1])
  }

  lemma {:induction false} SlotKeepsSorted(cmp: Compare, s: seq<Id>, x: Id)
    requires Preorder(cmp) && Sorted(cmp, s)
    ensures Sorted(cmp, InsertAt(s, Slot(cmp, s, x), x))
  {
    var k := Slot(cmp, s, x);
    forall i | 0 <= i < |s|
      ensures if i < k then cmp(s[i], x) <= 0 else cmp(x, s[i]) <= 0
    {
      SlotDivides(cmp, s, x, k, i);
    }
    InsertedSorted(cmp, s, k, x);
  }

  lemma {:induction false} SlotDivides(cmp: Compare, s: seq<Id>, x: Id, k: nat, i: nat)
    requires Preorder(cmp) && Sorted(cmp, s) && k == Slot(cmp, s, x) && i < |s|
    ensures if i < k then cmp(s[i], x) <= 0 else cmp(x, s[i]) <= 0
  {
    if i + 1 < k {
      assert Lawful(cmp, s[i], s[k - 1], x);
    }
    assert Lawful(cmp, s[i], x, x);
  }

  lemma {:induction false} InsertedSorted(cmp: Compare, s: seq<Id>, k: nat, x: Id)
    requires Sorted(cmp, s) && k <= |s|
    requires forall i :: 0 <= i < |s| ==> if i < k then cmp(s[i], x) <= 0 else cmp(x, s[i]) <= 0
    ensures Sorted(cmp, InsertAt(s, k, x))
  {
    var r := InsertAt(s, k, x);
    forall i, j | 0 <= i < j < |r|
      ensures cmp(r[i], r[j]) <= 0
    {
      assert i < k ==> r[i] == s[i];
      assert i > k ==> r[i] == s[i - 1];
      assert j < k ==> r[j] == s[j];
      assert j > k ==> r[j] == s[j - 1];
    }
  }

  lemma {:induction false} ClassConcat(cmp: Compare, a: seq<Id>, b: seq<Id>, c: Id)
    ensures Class(cmp, a + b, c) == Class(cmp, a, c) + Class(cmp, b, c)
  {
    if b == [] {
      assert a + b == a;
    } else {
      ClassConcat(cmp, a, b[..|b| - 1], c);
      assert (a + b)[..|a + b| - 1] == a + b[..|b| - 1];
    }
  }

  lemma {:induction false} ClassNone(cmp: Compare, s: seq<Id>, c: Id)
    requires forall i :: 0 <= i < |s| ==> !Same(cmp, s[i], c)
    ensures Class(cmp, s, c) == []
  {
    if s != [] {
      ClassNone(cmp, s[..|s| - 1], c);
    }
  }

  lemma {:induction false} ClassAround(cmp: Compare, a: seq<Id>, x: Id, b: seq<Id>, c: Id)
    requires Same(cmp, x, c) ==> Class(cmp, b, c) == []
    ensures Class(cmp, a + [x] + b, c) == Class(cmp, a + b + [x], c)
  {
    ClassConcat(cmp, a + [x], b, c);
    ClassConcat(cmp, a, [x], c);
    ClassConcat(cmp, a + b, [x], c);
    ClassConcat(cmp, a, b, c);
    ClassOne(cmp, x, c);
  }

  lemma ClassOne(cmp: Compare, x: Id, c: Id)
    ensures Class(cmp, [x], c) == if Same(cmp, x, c) then [x] else []
  {
    var one := [x];
    assert one[..0] == [];
  }

  /** x overtakes only elements that are not equivalent to it. */
  lemma InsertKeepsClass(cmp: Compare, s: seq<Id>, x: Id, c: Id)
    requires Preorder(cmp)
    ensures Class(cmp, InsertAt(s, Slot(cmp, s, x), x), c) == Class(cmp, s + [x], c)
  {
    var k := Slot(cmp, s, x);
    var tail := s[k..];
    if Same(cmp, x, c) {
      forall i | 0 <= i < |tail|
        ensures !Same(cmp, tail[i], c)
      {
        assert tail[i] == s[k + i] && cmp(s[k + i], x) > 0;
        assert Lawful(cmp, s[k + i], c, x);
      }
      ClassNone(cmp, tail, c);
    }
    ClassAround(cmp, s[..k], x, tail, c);
    assert s == s[..k] + tail;
  }

  lemma InsertKeepsMembers(s: seq<Id>, k: nat, x: Id)
    requires k <= |s|
    ensures multiset(InsertAt(s, k, x)) == multiset(s) + multiset{x}
  {
    assert s == s[..k] + s[k..];
  }

  lemma {:induction false} SortedPrefixIsSorted(cmp: Compare, s: seq<Id>, n: nat)
    requires Preorder(cmp) && n <= |s|
    ensures Sorted(cmp, SortedPrefix(cmp, s, n))
  {
    if n > 0 {
      SortedPrefixIsSorted(cmp, s, n - 1);
      SlotKeepsSorted(cmp, SortedPrefix(cmp, s, n - 1), s[n - 1]);
    }
  }

  lemma {:induction false} SortedPrefixIsPermutation(cmp: Compare, s: seq<Id>, n: nat)
    requires n <= |s|
    ensures multiset(SortedPrefix(cmp, s, n)) == multiset(s[..n])
  {
    if n == 0 {
      assert s[..n] == [];
    } else {
      SortedPrefixIsPermutation(cmp, s, n - 1);
      var rest, x := SortedPrefix(cmp, s, n - 1), s[n - 1];
      InsertKeepsMembers(rest, Slot(cmp, rest, x), x);
      MembersLast(s, n);
    }
  }

  lemma PrefixLast(s: seq<Id>, n: nat)
    requires 0 < n <= |s|
    ensures s[..n] == s[..n - 1] + [s[n - 1]]
  {
  }

  lemma MembersLast(s: seq<Id>, n: nat)
    requires 0 < n <= |s|
    ensures multiset(s[..n]) == multiset(s[..n - 1]) + multiset{s[n - 1]}
  {
    PrefixLast(s, n);
  }

  lemma ClassLast(cmp: Compare, a: seq<Id>, b: seq<Id>, x: Id, c: Id)
    requires Class(cmp, a, c) == Class(cmp, b, c)
    ensures Class(cmp, a + [x], c) == Class(cmp, b + [x], c)
  {
    ClassConcat(cmp, a, [x], c);
    ClassConcat(cmp, b, [x], c);
  }

  lemma KeepsClassStep(cmp: Compare, rest: seq<Id>, prefix: seq<Id>, x: Id, longer: seq<Id>, c: Id)
    requires Preorder(cmp) && Class(cmp, rest, c) == Class(cmp, prefix, c) && longer == prefix + [x]
    ensures Class(cmp, InsertAt(rest, Slot(cmp, rest, x), x), c) == Class(cmp, longer, c)
  {
    InsertKeepsClass(cmp, rest, x, c);
    ClassLast(cmp, rest, prefix, x, c);
  }

  /** Equivalent elements keep their order. */
  lemma {:induction false} SortedPrefixKeepsClass(cmp: Compare, s: seq<Id>, n: nat, c: Id)
    requires Preorder(cmp) && n <= |s|
    ensures Class(cmp, SortedPrefix(cmp, s, n), c) == Class(cmp, s[..n], c)
  {
    if n == 0 {
      assert s[..n] == [];
    } else {
      SortedPrefixKeepsClass(cmp, s, n - 1, c);
      PrefixLast(s, n);
      KeepsClassStep(cmp, SortedPrefix(cmp, s, n - 1), s[..n - 1], s[n - 1], s[..n], c);
    }
  }

  /** The sort yields a stable sorted permutation. */
  lemma SortIsStable(cmp: Compare, s: seq<Id>)
    requires Preorder(cmp)
    ensures
      var r := SortedPrefix(cmp, s, |s|);
      Sorted(cmp, r) && multiset(r) == multiset(s) && forall c :: Class(cmp, r, c) == Class(cmp, s, c)
  {
    SortedPrefixIsSorted(cmp, s, |s|);
    SortedPrefixIsPermutation(cmp, s, |s|);
    assert s[..|s|] == s;
    forall c
      ensures Class(cmp, SortedPrefix(cmp, s, |s|), c) == Class(cmp, s, c)
    {
      SortedPrefixKeepsClass(cmp, s, |s|, c);
    }
  }

  /** The next element moves from behind the sorted prefix into it. */
  lemma MoveIn(cmp: Compare, s: seq<Id>, n: nat)
    requires n < |s|
    ensures
      var sorted := SortedPrefix(cmp, s, n);
      InsertAt(sorted + s[n + 1..], Slot(cmp, sorted, s[n]), s[n]) == SortedPrefix(cmp, s, n + 1) + s[n + 1..]
  {
    var sorted := SortedPrefix(cmp, s, n);
    InsertBefore(sorted, s[n + 1..], Slot(cmp, sorted, s[n]), s[n]);
  }

  lemma InsertBefore(s: seq<Id>, tail: seq<Id>, k: nat, x: Id)
    requires k <= |s|
    ensures InsertAt(s + tail, k, x) == InsertAt(s, k, x) + tail
  {
    assert (s + tail)[..k] == s[..k] && (s + tail)[k..] == s[k..] + tail;
  }

  // ---------- links ----------

  /** The i-th entry of the ring: the sentinel stands before the first element and behind the last. */
  function At(order: seq<Id>, i: int): Id {
    if 0 <= i < |order| then order[i] else HEAD
  }

  /** Entries i and i + 1 point at each other. */
  predicate Joined(prev: map<Id, Id>, next: map<Id, Id>, order: seq<Id>, i: int) {
    && At(order, i) in next && next[At(order, i)] == At(order, i + 1)
    && At(order, i + 1) in prev && prev[At(order, i + 1)] == At(order, i)
  }

  ghost predicate Linked(prev: map<Id, Id>, next: map<Id, Id>, order: seq<Id>) {
    forall i {:trigger Joined(prev, next, order, i)} :: -1 <= i < |order| ==> Joined(prev, next, order, i)
  }

  ghost predicate Distinct(order: seq<Id>) {
    && (forall i :: 0 <= i < |order| ==> order[i] != HEAD)
    && (forall i, j :: 0 <= i < j < |order| ==> order[i] != order[j])
  }

  lemma Unlinked(prev: map<Id, Id>, next: map<Id, Id>, order: seq<Id>, k: nat)
    requires Distinct(order) && Linked(prev, next, order) && k < |order|
    ensures
      var order' := order[..k] + order[k + 1..];
      && Joined(prev, next, order, k - 1) && Joined(prev, next, order, k)
      && Distinct(order') && Linked(prev[At(order, k + 1) := At(order, k - 1)],
        next[At(order, k - 1) := At(order, k + 1)], order')
  {
    var order' := order[..k] + order[k + 1..];
    var prev', next' := prev[At(order, k + 1) := At(order, k - 1)], next[At(order, k - 1) := At(order, k + 1)];
    assert Joined(prev, next, order, k - 1) && Joined(prev, next, order, k);
    forall i | -1 <= i < |order'|
      ensures Joined(prev', next', order', i)
    {
      assert Joined(prev, next, order, if i < k - 1 then i else i + 1);
    }
  }

  lemma Inserted(prev: map<Id, Id>, next: map<Id, Id>, order: seq<Id>, k: nat, x: Id)
    requires Distinct(order) && Linked(prev, next, order) && k <= |order| && x != HEAD && x !in order
    ensures
      && Joined(prev, next, order, k - 1)
      && Distinct(InsertAt(order, k, x))
      && Linked(prev[At(order, k) := x][x := At(order, k - 1)], next[x := At(order, k)][At(order, k - 1) := x],
        InsertAt(order, k, x))
  {
    var order' := InsertAt(order, k, x);
    var prev', next' := prev[At(order, k) := x][x := At(order, k - 1)], next[x := At(order, k)][At(order, k - 1) := x];
    assert Joined(prev, next, order, k - 1);
    forall i | -1 <= i < |order'|
      ensures Joined(prev', next', order', i)
    {
      if i != k - 1 && i != k {
        assert Joined(prev, next, order, if i < k then i else i - 1);
      }
    }
  }

  class LinkQueue {
    var prev: map<Id, Id>
    var next: map<Id, Id>
    ghost var order: seq<Id>

    ghost predicate Valid()
      reads this
    {
      Distinct(order) && Linked(prev, next, order)
    }

    /** The sentinel alone. */
    constructor ()
      ensures Valid() && order == []
    {
      prev, next, order := map[HEAD := HEAD], map[HEAD := HEAD], [];
    }

    /** `night_queue_remove` of the element at k. */
    method Remove(x: Id, ghost k: nat)
      requires Valid() && k < |order| && order[k] == x
      modifies this
      ensures Valid() && order == old(order)[..k] + old(order)[k + 1..] && x !in order && x != HEAD
    {
      Unlinked(prev, next, order, k);
      var before, after := prev[x], next[x];
      prev := prev[after := before];
      next := next[before := after];
      order := order[..k] + order[k + 1..];
    }

    /** `night_queue_insert_after`, which is also `night_queue_insert_head` when p is the sentinel. */
    method InsertAfter(p: Id, x: Id, ghost k: nat)
      requires Valid() && k <= |order| && At(order, k - 1) == p && x != HEAD && x !in order
      modifies this
      ensures Valid() && order == InsertAt(old(order), k, x)
    {
      Inserted(prev, next, order, k, x);
      var after := next[p];
      next := next[x := after];
      prev := prev[after := x];
      prev := prev[x := p];
      next := next[p := x];
      order := InsertAt(order, k, x);
    }

    /** The inner loop of the sort: back from p, at index n - 1, to the first element that is not after x. */
    method SearchBack(cmp: Compare, p: Id, x: Id, ghost n: nat) returns (q: Id)
      requires Valid() && 0 < n <= |order| && p == order[n - 1]
      ensures q == At(order, Slot(cmp, order[..n], x) - 1)
    {
      q := p;
      ghost var k := n;
      while true
        invariant 0 < k <= n && q == order[k - 1] && Slot(cmp, order[..k], x) == Slot(cmp, order[..n], x)
        decreases k
      {
        assert order[..k][..k - 1] == order[..k - 1];
        if cmp(q, x) <= 0 {
          break;
        }
        assert Joined(prev, next, order, k - 2);
        q := prev[q];
        k := k - 1;
        if q == HEAD {
          break;
        }
      }
    }

    /** One round of the sort: the element behind the sorted prefix moves into it. */
    method SortStep(cmp: Compare, q: Id, ghost s: seq<Id>, ghost n: nat) returns (after: Id)
      requires Valid() && 1 <= n < |s| && order == SortedPrefix(cmp, s, n) + s[n..] && q == order[n]
      modifies this
      ensures Valid() && order == SortedPrefix(cmp, s, n + 1) + s[n + 1..] && after == At(order, n + 1)
    {
      ghost var sorted := SortedPrefix(cmp, s, n);
      assert Joined(prev, next, order, n - 1) && Joined(prev, next, order, n);
      var p := prev[q];
      after := next[q];
      assert after == At(s, n + 1);
      Remove(q, n);
      assert order == sorted + s[n + 1..] && order[..n] == sorted;
      MoveIn(cmp, s, n);
      p := SearchBack(cmp, p, q, n);
      InsertAfter(p, q, Slot(cmp, sorted, q));
    }

    /** `night_queue_sort`: insertion sort, which for a total preorder gives a sorted, stable permutation. */
    method Sort(cmp: Compare)
      requires Valid()
      modifies this
      ensures Valid() && order == SortedPrefix(cmp, old(order), |old(order)|)
      ensures Preorder(cmp) ==>
        && Sorted(cmp, order) && multiset(order) == multiset(old(order))
        && forall c :: Class(cmp, order, c) == Class(cmp, old(order), c)
    {
      if Preorder(cmp) {
        SortIsStable(cmp, order);
      }
      Relink(cmp);
    }

    /** Its loop. */
    method Relink(cmp: Compare)
      requires Valid()
      modifies this
      ensures Valid() && order == SortedPrefix(cmp, old(order), |old(order)|)
    {
      ghost var s := order;
      assert Joined(prev, next, order, -1) && Joined(prev, next, order, |order| - 1);
      var q := next[HEAD];
      if q == prev[HEAD] {
        assert |s| <= 1;
        return;
      }
      assert Joined(prev, next, order, 0);
      q := next[q];
      ghost var n := 1;
      while q != HEAD
        invariant Valid() && 1 <= n <= |s| == |order| && q == At(order, n)
        invariant order == SortedPrefix(cmp, s, n) + s[n..]
        decreases |s| - n
      {
        q := SortStep(cmp, q, s, n);
        n := n + 1;
      }
    }

    /** `night_queue_middle`: one pointer walks twice as fast as the other. */
    method Middle() returns (middle: Id)
      requires Valid()
      ensures middle == At(order, |order| / 2)
    {
      ghost var n := |order|;
      assert Joined(prev, next, order, -1) && Joined(prev, next, order, n - 1);
      middle := next[HEAD];
      var last := prev[HEAD];
      if middle == last {
        assert n <= 1;
        return;
      }
      var fast := next[HEAD];
      ghost var i := 0;
      while true
        invariant 0 <= i && 2 * i < n - 1 && middle == order[i] && fast == order[2 * i]
        decreases n - i
      {
        assert Joined(prev, next, order, i) && Joined(prev, next, order, 2 * i) && Joined(prev, next, order, 2 * i + 1);
        middle := next[middle];
        fast := next[fast];
        i := i + 1;
        if fast == last {
          return;
        }
        fast := next[fast];
        if fast == last {
          return;
        }
      }
    }
  }
}
