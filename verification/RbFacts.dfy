/** What the local rules of `RedBlack` mean for the whole tree, and what insertion and deletion do to sorted keys. */
module RbFacts {
  import opened Basics
  import opened RbLinks
  import opened RbInsert
  import opened RbTree

  // ---------- the in-order sequence is what a walk over the pointers yields ----------

  ghost function Walk(s: Links, n: Id): seq<Id>
    requires Shape(s) && (n == s.nil || n in s.nodes)
    decreases if n == s.nil then 0 else (assert Link(s, n); s.at[n].hi - s.at[n].lo)
  {
    if n == s.nil then []
    else
      assert Link(s, n);
      assert s.left[n] != s.nil ==> Link(s, s.left[n]);
      assert s.right[n] != s.nil ==> Link(s, s.right[n]);
      Walk(s, s.left[n]) + [n] + Walk(s, s.right[n])
  }

  lemma {:induction false} WalkIsInterval(s: Links, n: Id)
    requires Shape(s) && n in s.nodes
    ensures Link(s, n) && Walk(s, n) == s.order[s.at[n].lo..s.at[n].hi]
    decreases assert Link(s, n); s.at[n].hi - s.at[n].lo
  {
    assert Link(s, n);
    var i, l, r := s.at[n], s.left[n], s.right[n];
    if l != s.nil {
      WalkIsInterval(s, l);
    }
    if r != s.nil {
      WalkIsInterval(s, r);
    }
    assert (if l == s.nil then [] else Walk(s, l)) == s.order[i.lo..i.pos];
    assert (if r == s.nil then [] else Walk(s, r)) == s.order[i.pos + 1..i.hi];
    SliceAround(s.order, i.lo, i.pos, i.hi);
  }

  lemma SliceAround(order: seq<Id>, lo: nat, pos: nat, hi: nat)
    requires lo <= pos < hi <= |order|
    ensures order[lo..hi] == order[lo..pos] + [order[pos]] + order[pos + 1..hi]
  {
  }

  /** Every node is reached from the root, and the walk from the root is the in-order sequence. */
  lemma WalkIsOrder(s: Links)
    requires Shape(s)
    ensures (s.root == s.nil || s.root in s.nodes) && Walk(s, s.root) == s.order
    ensures forall n :: n in s.nodes <==> n in Walk(s, s.root)
  {
    if s.order == [] {
      NoRootNoNodes(s);
    } else {
      WalkIsInterval(s, s.root);
      forall n | n in s.nodes
        ensures n in s.order
      {
        assert Link(s, n);
      }
    }
  }

  // ---------- ways down ----------

  /** path leads from n downwards, child by child, and stops at the sentinel. */
  ghost predicate WayDown(s: Links, n: Id, path: seq<Id>)
    decreases |path|
  {
    if n == s.nil then path == []
    else
      && In(s, n) && path != [] && path[0] == n
      && (WayDown(s, s.left[n], path[1..]) || WayDown(s, s.right[n], path[1..]))
  }

  ghost function BlackCount(k: Paint, path: seq<Id>): nat {
    if path == [] then 0 else (if Red(k, path[0]) then 0 else 1) + BlackCount(k, path[1..])
  }

  lemma {:induction false} WayBlacks(s: Links, k: Paint, n: Id, path: seq<Id>)
    requires RedBlack(s, k) && WayDown(s, n, path)
    ensures BlackCount(k, path) == Blacks(k, n)
    decreases |path|
  {
    if n != s.nil {
      assert Tone(s, k, n, s.nil);
      if WayDown(s, s.left[n], path[1..]) {
        WayBlacks(s, k, s.left[n], path[1..]);
      } else {
        WayBlacks(s, k, s.right[n], path[1..]);
      }
    }
  }

  /** All ways from the root to the sentinel pass the same number of black nodes. */
  lemma EqualBlackCounts(s: Links, k: Paint, path: seq<Id>, path': seq<Id>)
    requires RedBlack(s, k) && WayDown(s, s.root, path) && WayDown(s, s.root, path')
    ensures BlackCount(k, path) == BlackCount(k, path')
  {
    WayBlacks(s, k, s.root, path);
    WayBlacks(s, k, s.root, path');
  }

  /** Below a black node, at most every second node is red. */
  lemma {:induction false} WayLength(s: Links, k: Paint, n: Id, path: seq<Id>)
    requires RedBlack(s, k) && WayDown(s, n, path)
    ensures |path| <= 2 * Blacks(k, n) + if Red(k, n) then 1 else 0
    decreases |path|
  {
    if n != s.nil {
      assert Tone(s, k, n, s.nil);
      if WayDown(s, s.left[n], path[1..]) {
        WayLength(s, k, s.left[n], path[1..]);
      } else {
        WayLength(s, k, s.right[n], path[1..]);
      }
    }
  }

  ghost function Pow2(n: nat): nat {
    if n == 0 then 1 else 2 * Pow2(n - 1)
  }

  lemma {:induction false} EnoughNodes(s: Links, k: Paint, n: Id)
    requires RedBlack(s, k) && n in s.nodes
    ensures Link(s, n) && Blacks(k, n) >= 0 && Pow2(Blacks(k, n)) - 1 <= s.at[n].hi - s.at[n].lo
    decreases assert Link(s, n); s.at[n].hi - s.at[n].lo
  {
    assert Link(s, n) && Tone(s, k, n, s.nil);
    var l, r := s.left[n], s.right[n];
    if l != s.nil {
      EnoughNodes(s, k, l);
    }
    if r != s.nil {
      EnoughNodes(s, k, r);
    }
  }

  lemma {:induction false} Pow2Monotone(a: nat, b: nat)
    requires a <= b
    ensures Pow2(a) <= Pow2(b)
  {
    if a < b {
      Pow2Monotone(a, b - 1);
    }
  }

  /** The tree is balanced: a way down of d nodes needs at least 2^ceil(d/2) - 1 nodes in the tree. */
  lemma DepthIsLogarithmic(s: Links, k: Paint, path: seq<Id>)
    requires RedBlack(s, k) && WayDown(s, s.root, path)
    ensures Pow2((|path| + 1) / 2) <= |s.order| + 1
  {
    WayLength(s, k, s.root, path);
    if s.root != s.nil {
      EnoughNodes(s, k, s.root);
      Pow2Monotone((|path| + 1) / 2, Blacks(k, s.root));
    }
  }

  // ---------- sorted keys ----------

  /** Inserting at the place the descent finds keeps the keys sorted. */
  lemma InsertKeepsSorted(order: seq<Id>, key: map<Id, int>, x: Id, k: nat)
    requires k <= |order| && x in key && Sorted(order, key) && Place(order, key, x, k, k)
    ensures Sorted(order[..k] + [x] + order[k..], key)
  {
    var after := order[..k] + [x] + order[k..];
    forall i, j | 0 <= i < j < |after| && after[i] in key && after[j] in key
      ensures key[after[i]] <= key[after[j]]
    {
      assert after[i] == if i < k then order[i] else if i == k then x else order[i - 1];
      assert after[j] == if j < k then order[j] else if j == k then x else order[j - 1];
    }
  }

  lemma DeleteKeepsSorted(order: seq<Id>, key: map<Id, int>, k: nat)
    requires k < |order| && Sorted(order, key) && (forall i :: 0 <= i < |order| && i != k ==> order[i] != order[k])
    ensures Sorted(order[..k] + order[k + 1..], key[order[k] := 0])
  {
    var after := order[..k] + order[k + 1..];
    forall i, j | 0 <= i < j < |after| && after[i] in key && after[j] in key
      ensures key[order[k] := 0][after[i]] <= key[order[k] := 0][after[j]]
    {
      assert after[i] == order[if i < k then i else i + 1];
      assert after[j] == order[if j < k then j else j + 1];
    }
  }

  /** The first node of a sorted tree carries the least key. */
  lemma FirstIsLeast(s: Links, key: map<Id, int>, n: Id)
    requires Shape(s) && Sorted(s.order, key) && n in s.nodes && s.nodes <= key.Keys
    ensures s.order != [] && s.order[0] in key && key[s.order[0]] <= key[n]
  {
    assert Link(s, n);
    assert s.order[0] in s.nodes;
  }

  /** The subtraction test of the descent orders two int64 keys correctly exactly when their difference is an int64. */
  lemma ComparisonIsExact(a: int, b: int)
    requires Int64(a) && Int64(b)
    ensures (Wrap64(a - b) < 0 <==> a < b) <==> Int64(a - b)
  {
    if a - b >= 0x8000_0000_0000_0000 {
      assert Wrap64(a - b) == a - b - 0x1_0000_0000_0000_0000;
    } else if a - b < -0x8000_0000_0000_0000 {
      assert Wrap64(a - b) == a - b + 0x1_0000_0000_0000_0000;
    }
  }
}
