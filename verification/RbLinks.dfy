/**
 * The link structure of the intrusive red-black tree.
 *
 * Nodes are addresses; `left`, `right` and `parent` hold the pointer fields of all nodes, as a C heap does.
 * The proof device is the in-order sequence `order`: every node n owns an interval [lo, hi) of it and sits at
 * `pos`, its left child owns [lo, pos) and its right child [pos + 1, hi).  Being a tree is then a conjunction of
 * facts local to each node, and no recursive predicate over the heap is needed.
 */
module RbLinks {

  type Id = nat

  const NULL: Id := 0

  datatype Spot = Spot(lo: int, pos: int, hi: int)

  datatype Links = Links(
    root: Id, nil: Id, order: seq<Id>, nodes: set<Id>,
    left: map<Id, Id>, right: map<Id, Id>, parent: map<Id, Id>, at: map<Id, Spot>)

  ghost predicate In(s: Links, n: Id) {
    n in s.nodes && n in s.left && n in s.right && n in s.parent && n in s.at
  }

  ghost predicate Sited(s: Links, n: Id) {
    && In(s, n)
    && 0 <= s.at[n].lo <= s.at[n].pos < s.at[n].hi <= |s.order| && s.order[s.at[n].pos] == n
    && (n == s.root ==> s.at[n].lo == 0 && s.at[n].hi == |s.order|)
  }

  ghost predicate LeftLink(s: Links, n: Id)
    requires In(s, n)
  {
    var i, l := s.at[n], s.left[n];
    && (l == s.nil ==> i.lo == i.pos)
    && (l != s.nil ==> In(s, l) && s.parent[l] == n && i.lo == s.at[l].lo < s.at[l].hi == i.pos)
  }

  ghost predicate RightLink(s: Links, n: Id)
    requires In(s, n)
  {
    var i, r := s.at[n], s.right[n];
    && (r == s.nil ==> i.pos + 1 == i.hi)
    && (r != s.nil ==> In(s, r) && s.parent[r] == n && i.pos + 1 == s.at[r].lo < s.at[r].hi == i.hi)
  }

  ghost predicate UpLink(s: Links, n: Id)
    requires In(s, n)
  {
    n != s.root ==> var p := s.parent[n]; In(s, p) && (s.left[p] == n || s.right[p] == n)
  }

  /** Everything the tree shape demands of one node.  The parent link of the root is exempt: it may be stale. */
  ghost predicate Link(s: Links, n: Id) {
    Sited(s, n) && LeftLink(s, n) && RightLink(s, n) && UpLink(s, n)
  }

  ghost predicate Linked(s: Links) {
    && s.nil !in s.nodes
    && s.nil in s.parent
    && (forall n {:trigger Link(s, n)} :: n in s.nodes ==> Link(s, n))
    && (s.order == [] ==> s.root == s.nil)
    && (s.order != [] ==> In(s, s.root))
  }

  /** The sequence lists each node exactly once. */
  ghost predicate Indexed(s: Links) {
    forall i {:trigger s.order[i]} :: 0 <= i < |s.order| ==> In(s, s.order[i]) && s.at[s.order[i]].pos == i
  }

  ghost predicate Shape(s: Links) {
    Linked(s) && Indexed(s)
  }

  // ---------- mirror image ----------

  ghost function Backward(q: seq<Id>): (r: seq<Id>)
    ensures |r| == |q|
  {
    if q == [] then [] else Backward(q[1..]) + [q[0]]
  }

  lemma {:induction false} BackwardAt(q: seq<Id>, i: nat)
    requires i < |q|
    ensures Backward(q)[i] == q[|q| - 1 - i]
  {
    if i < |q| - 1 {
      BackwardAt(q[1..], i);
    }
  }

  lemma BackwardTwice(q: seq<Id>)
    ensures Backward(Backward(q)) == q
  {
    forall i | 0 <= i < |q|
      ensures Backward(Backward(q))[i] == q[i]
    {
      BackwardAt(Backward(q), i);
      BackwardAt(q, |q| - 1 - i);
    }
  }

  ghost function Flip(i: Spot, n: int): Spot {
    Spot(n - i.hi, n - 1 - i.pos, n - i.lo)
  }

  /** The tree seen in a mirror: left and right exchanged, the in-order sequence reversed. */
  ghost function Mirror(s: Links): Links {
    s.(order := Backward(s.order), left := s.right, right := s.left, at := map n | n in s.at ::
      Flip(s.at[n], |s.order|))
  }

  lemma MirrorTwice(s: Links)
    ensures Mirror(Mirror(s)) == s
  {
    BackwardTwice(s.order);
    assert Mirror(Mirror(s)).at == s.at;
  }

  lemma MirrorLink(s: Links, n: Id)
    requires Link(s, n)
    ensures Link(Mirror(s), n)
  {
    BackwardAt(s.order, |s.order| - 1 - s.at[n].pos);
  }

  lemma MirrorLinked(s: Links)
    requires Linked(s)
    ensures Linked(Mirror(s))
  {
    var m := Mirror(s);
    forall n | n in m.nodes
      ensures Link(m, n)
    {
      assert Link(s, n);
      MirrorLink(s, n);
    }
    assert |s.order| == |m.order|;
  }

  lemma MirrorShape(s: Links)
    requires Shape(s)
    ensures Shape(Mirror(s))
  {
    MirrorLinked(s);
    var m := Mirror(s);
    forall i | 0 <= i < |m.order|
      ensures In(m, m.order[i]) && m.at[m.order[i]].pos == i
    {
      BackwardAt(s.order, i);
    }
  }

  // ---------- rotation ----------

  /** x is about to be turned left around its right child y; b is y's left child and p is x's parent. */
  ghost predicate Corners(s: Links, x: Id, y: Id, b: Id, p: Id) {
    && In(s, x) && In(s, y) && x != y && b != y && b != x
    && y == s.right[x] && b == s.left[y] && p == s.parent[x]
    && (b != s.nil ==> In(s, b))
    && (x != s.root ==> In(s, p) && p != x && p != y && p != b && (s.left[p] == x || s.right[p] == x))
  }

  lemma HasCorners(s: Links, x: Id)
    requires Linked(s) && In(s, x) && s.right[x] != s.nil
    ensures In(s, s.right[x])
    ensures Corners(s, x, s.right[x], s.left[s.right[x]], s.parent[x])
  {
    assert Link(s, x);
    var y := s.right[x];
    assert Link(s, y);
    assert s.left[y] != s.nil ==> Link(s, s.left[y]);
    assert x != s.root ==> Link(s, s.parent[x]);
  }

  ghost function Turned(s: Links, x: Id, y: Id, b: Id, p: Id): Links
    requires Corners(s, x, y, b, p)
  {
    var left' := if x != s.root && s.left[p] == x then s.left[p := y] else s.left;
    var right' := s.right[x := b];
    var right' := if x != s.root && s.left[p] != x then right'[p := y] else right';
    var parent' := if b != s.nil then s.parent[b := x] else s.parent;
    s.(root := if x == s.root then y else s.root,
    left := left'[y := x],
    right := right',
    parent := parent'[y := p][x := y],
    at := s.at[x := s.at[x].(hi := s.at[y].pos)][y := s.at[y].(lo := s.at[x].lo)])
  }

  lemma TurnedXY(s: Links, x: Id, y: Id, b: Id, p: Id)
    requires Corners(s, x, y, b, p) && s.nil !in s.nodes && Link(s, x) && Link(s, y)
    ensures Link(Turned(s, x, y, b, p), x) && Link(Turned(s, x, y, b, p), y)
  {
  }

  lemma TurnedB(s: Links, x: Id, y: Id, b: Id, p: Id)
    requires Corners(s, x, y, b, p) && s.nil !in s.nodes && Link(s, x) && Link(s, y)
    requires b in s.nodes && Link(s, b)
    ensures Link(Turned(s, x, y, b, p), b)
  {
  }

  lemma TurnedP(s: Links, x: Id, y: Id, b: Id, p: Id)
    requires Corners(s, x, y, b, p) && s.nil !in s.nodes && Link(s, x) && Link(s, y)
    requires p in s.nodes && Link(s, p) && x != s.root
    ensures Link(Turned(s, x, y, b, p), p)
  {
  }

  lemma TurnedRest(s: Links, x: Id, y: Id, b: Id, p: Id, n: Id)
    requires Corners(s, x, y, b, p) && s.nil !in s.nodes && Link(s, x) && Link(s, y)
    requires n in s.nodes && Link(s, n) && (x != s.root ==> Link(s, p))
    requires n !in {x, y, b} && (x == s.root || n != p)
    ensures Link(Turned(s, x, y, b, p), n)
  {
    var s' := Turned(s, x, y, b, p);
    assert s'.left[n] == s.left[n] && s'.right[n] == s.right[n] && s'.parent[n] == s.parent[n] && s'.at[n] == s.at[n];
    assert s.left[n] != x && s.left[n] != y && (s.left[n] == b ==> b == s.nil);
    assert s.right[n] != x && s.right[n] != y && (s.right[n] == b ==> b == s.nil);
  }

  lemma TurnedLink(s: Links, x: Id, y: Id, b: Id, p: Id, n: Id)
    requires Linked(s) && Corners(s, x, y, b, p) && n in s.nodes
    ensures Link(Turned(s, x, y, b, p), n)
  {
    assert Link(s, x) && Link(s, y) && Link(s, n);
    if n == x || n == y {
      TurnedXY(s, x, y, b, p);
    } else if n == b {
      TurnedB(s, x, y, n, p);
    } else if x != s.root && n == p {
      TurnedP(s, x, y, b, n);
    } else {
      assert x != s.root ==> Link(s, p);
      TurnedRest(s, x, y, b, p, n);
    }
  }

  /** A rotation keeps the tree shape, and by its definition the in-order sequence. */
  lemma TurnedShape(s: Links, x: Id, y: Id, b: Id, p: Id)
    requires Shape(s) && Corners(s, x, y, b, p)
    ensures Shape(Turned(s, x, y, b, p))
  {
    var s' := Turned(s, x, y, b, p);
    assert Linked(s') by {
      forall n | n in s.nodes
        ensures Link(s', n)
      {
        TurnedLink(s, x, y, b, p, n);
      }
    }
    assert Indexed(s');
  }

  ghost predicate CanTurnLeft(s: Links, x: Id) {
    In(s, x) && In(s, s.right[x]) && Corners(s, x, s.right[x], s.left[s.right[x]], s.parent[x])
  }

  /** The tree after `night_rbtree_left_rotate` at x. */
  ghost function LeftTurn(s: Links, x: Id): Links
    requires CanTurnLeft(s, x)
  {
    Turned(s, x, s.right[x], s.left[s.right[x]], s.parent[x])
  }

  ghost predicate CanTurnRight(s: Links, x: Id) {
    CanTurnLeft(Mirror(s), x)
  }

  /** The tree after `night_rbtree_right_rotate` at x: the left rotation, seen in the mirror. */
  ghost function RightTurn(s: Links, x: Id): Links
    requires CanTurnRight(s, x)
  {
    Mirror(LeftTurn(Mirror(s), x))
  }

  lemma LeftTurnShape(s: Links, x: Id)
    requires Shape(s) && In(s, x) && s.right[x] != s.nil
    ensures CanTurnLeft(s, x) && Shape(LeftTurn(s, x))
  {
    HasCorners(s, x);
    TurnedShape(s, x, s.right[x], s.left[s.right[x]], s.parent[x]);
  }

  lemma RightTurnShape(s: Links, x: Id)
    requires Shape(s) && In(s, x) && s.left[x] != s.nil
    ensures CanTurnRight(s, x) && Shape(RightTurn(s, x))
  {
    MirrorShape(s);
    LeftTurnShape(Mirror(s), x);
    MirrorShape(LeftTurn(Mirror(s), x));
  }

  /** What surrounds x before it is turned right. */
  lemma CornersRight(s: Links, x: Id)
    requires Linked(s) && In(s, x) && s.left[x] != s.nil
    ensures CanTurnRight(s, x) && In(s, s.left[x])
    ensures
      var y, p := s.left[x], s.parent[x];
      var b := s.right[y];
      && x != y && b != y && b != x && (b != s.nil ==> In(s, b))
      && (x != s.root ==> In(s, p) && p != x && p != y && p != b && (s.right[p] == x || s.left[p] == x))
  {
    MirrorLinked(s);
    HasCorners(Mirror(s), x);
  }

  /** The right rotation field by field. */
  lemma RightTurnFields(s: Links, x: Id)
    requires CanTurnRight(s, x)
    ensures
      var y, p, t := s.left[x], s.parent[x], RightTurn(s, x);
      var b := s.right[y];
      && t.order == s.order && t.nodes == s.nodes && t.nil == s.nil
      && t.root == (if x == s.root then y else s.root)
      && t.right == (if x != s.root && s.right[p] == x then s.right[p := y] else s.right)[y := x]
      && t.left == (if x != s.root && s.right[p] != x then s.left[x := b][p := y] else s.left[x := b])
      && t.parent == (if b != s.nil then s.parent[b := x] else s.parent)[y := p][x := y]
      && t.at == s.at[x := s.at[x].(lo := s.at[y].pos + 1)][y := s.at[y].(hi := s.at[x].hi)]
  {
    MirrorTwice(s);
    var y, t := s.left[x], RightTurn(s, x);
    BackwardTwice(s.order);
    assert t.at == s.at[x := s.at[x].(lo := s.at[y].pos + 1)][y := s.at[y].(hi := s.at[x].hi)];
  }

  /** How a rotation at x, which lifts y, changes the children of n. */
  ghost predicate Rewired(s: Links, s': Links, x: Id, y: Id, n: Id) {
    && In(s, n) && In(s', n) && s'.nil == s.nil
    && (n != x && n != y ==>
          && s'.left[n] == (if s.left[n] == x then y else s.left[n])
          && s'.right[n] == (if s.right[n] == x then y else s.right[n]))
  }

  lemma LeftTurnWires(s: Links, x: Id, n: Id)
    requires Linked(s) && In(s, x) && s.right[x] != s.nil && n in s.nodes
    ensures CanTurnLeft(s, x) && Rewired(s, LeftTurn(s, x), x, s.right[x], n)
    ensures n == x ==> LeftTurn(s, x).left[x] == s.left[x] && LeftTurn(s, x).right[x] == s.left[s.right[x]]
    ensures n == s.right[x] ==> LeftTurn(s, x).left[n] == x && LeftTurn(s, x).right[n] == s.right[n]
    ensures s.left[n] == x || s.right[n] == x ==> x != s.root && n == s.parent[x]
    ensures s.left[n] == s.right[x] || s.right[n] == s.right[x] ==> n == x
  {
    HasCorners(s, x);
    assert Link(s, x) && Link(s, n);
    assert x != s.root ==> Link(s, s.parent[x]);
  }

  lemma RightTurnWires(s: Links, x: Id, n: Id)
    requires Linked(s) && In(s, x) && s.left[x] != s.nil && n in s.nodes
    ensures CanTurnRight(s, x) && Rewired(s, RightTurn(s, x), x, s.left[x], n)
    ensures n == x ==> RightTurn(s, x).right[x] == s.right[x] && RightTurn(s, x).left[x] == s.right[s.left[x]]
    ensures n == s.left[x] ==> RightTurn(s, x).right[n] == x && RightTurn(s, x).left[n] == s.left[n]
    ensures s.left[n] == x || s.right[n] == x ==> x != s.root && n == s.parent[x]
    ensures s.left[n] == s.left[x] || s.right[n] == s.left[x] ==> n == x
  {
    MirrorLinked(s);
    LeftTurnWires(Mirror(s), x, n);
  }

  /** The links upwards: only three parent fields change, and the root only if x was the root. */
  lemma LeftTurnUp(s: Links, x: Id, n: Id)
    requires Linked(s) && In(s, x) && s.right[x] != s.nil && n in s.parent
    ensures CanTurnLeft(s, x) && n in LeftTurn(s, x).parent
    ensures LeftTurn(s, x).order == s.order && LeftTurn(s, x).nodes == s.nodes && LeftTurn(s, x).nil == s.nil
    ensures LeftTurn(s, x).root == if x == s.root then s.right[x] else s.root
    ensures n != x && n != s.right[x] && n != s.left[s.right[x]] ==> LeftTurn(s, x).parent[n] == s.parent[n]
    ensures n == s.nil ==> LeftTurn(s, x).parent[n] == s.parent[n]
  {
    HasCorners(s, x);
  }

  lemma RightTurnUp(s: Links, x: Id, n: Id)
    requires Linked(s) && In(s, x) && s.left[x] != s.nil && n in s.parent
    ensures CanTurnRight(s, x) && n in RightTurn(s, x).parent
    ensures RightTurn(s, x).order == s.order && RightTurn(s, x).nodes == s.nodes && RightTurn(s, x).nil == s.nil
    ensures RightTurn(s, x).root == if x == s.root then s.left[x] else s.root
    ensures n != x && n != s.left[x] && n != s.right[s.left[x]] ==> RightTurn(s, x).parent[n] == s.parent[n]
    ensures n == s.nil ==> RightTurn(s, x).parent[n] == s.parent[n]
  {
    MirrorLinked(s);
    MirrorTwice(s);
    LeftTurnUp(Mirror(s), x, n);
  }
}
