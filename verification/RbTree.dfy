/** The red-black tree of `night_rbtree.c`: insertion, deletion and minimum over mutable link, colour and key fields. */
module RbTree {
  import opened Basics
  import opened RbLinks
  import opened RbEdits
  import opened RbInsert
  import opened RbDelete
  import opened RbRemove

  /** int64 subtraction, wrapping around as the compiled code does. */
  function Wrap64(x: int): (r: int)
    ensures Int64(r) && (Int64(x) ==> r == x)
    ensures (x - r) % 0x1_0000_0000_0000_0000 == 0
  {
    (x + 0x8000_0000_0000_0000) % 0x1_0000_0000_0000_0000 - 0x8000_0000_0000_0000
  }

  ghost predicate Sorted(order: seq<Id>, key: map<Id, int>) {
    forall i, j {:trigger order[i], order[j]} :: 0 <= i < j < |order| && order[i] in key && order[j] in key ==>
      key[order[i]] <= key[order[j]]
  }

  /** No difference between x's key and a key in the tree overflows an int64. */
  ghost predicate InWindow(order: seq<Id>, key: map<Id, int>, x: Id)
    requires x in key
  {
    forall i {:trigger order[i]} :: 0 <= i < |order| && order[i] in key ==>
      Int64(key[x] - key[order[i]])
  }

  /** Index k is behind all keys not greater than that of x, and before all greater ones. */
  ghost predicate Place(order: seq<Id>, key: map<Id, int>, x: Id, lo: int, hi: int)
    requires x in key
  {
    && (forall i {:trigger order[i]} :: 0 <= i < lo && i < |order| && order[i] in key ==> key[order[i]] <= key[x])
    && (forall i {:trigger order[i]} :: 0 <= hi <= i < |order| && order[i] in key ==> key[x] < key[order[i]])
  }

  /** One comparison at temp narrows the place of x to one side of temp. */
  lemma Narrow(s: Links, key: map<Id, int>, x: Id, temp: Id)
    requires Shape(s) && Link(s, temp) && x in key && temp in key
    ensures
      Sorted(s.order, key) && InWindow(s.order, key, x) && Place(s.order, key, x, s.at[temp].lo, s.at[temp].hi) ==>
        if Wrap64(key[x] - key[temp]) < 0 then Place(s.order, key, x, s.at[temp].lo, s.at[temp].pos)
        else Place(s.order, key, x, s.at[temp].pos + 1, s.at[temp].hi)
  {
  }

  lemma NoRootNoNodes(s: Links)
    requires Shape(s) && s.root == s.nil
    ensures s.order == [] && s.nodes == {}
  {
    assert forall n :: n in s.nodes ==> Link(s, n);
  }

  lemma SingleNode(s: Links, k: Paint)
    requires In(s, s.root) && s.nodes == {s.root} && s.order == [s.root] && s.at[s.root] == Spot(0, 0, 1)
    requires s.nil != s.root && s.nil in s.parent
    requires s.left[s.root] == s.nil == s.right[s.root] && NilBlack(s, k) && !Red(k, s.root) && Blacks(k, s.root) == 1
    ensures RedBlack(s, k)
  {
    assert Link(s, s.root) && Tone(s, k, s.root, s.nil);
  }

  /** A tree that holds only n, black. */
  ghost function OneNode(s: Links, n: Id): Links {
    s.(root := n, order := [n], nodes := {n}, left := s.left[n := s.nil], right := s.right[n := s.nil],
    parent := s.parent[n := NULL], at := s.at[n := Spot(0, 0, 1)])
  }

  lemma OneNodeIsValid(s: Links, k: Paint, n: Id)
    requires n != s.nil && s.nil in s.parent && NilBlack(s, k)
    ensures RedBlack(OneNode(s, n), Paint(k.red[n := false], k.bh[n := 1]))
  {
    SingleNode(OneNode(s, n), Paint(k.red[n := false], k.bh[n := 1]));
  }

  class Tree {
    const sentinel: Id
    var root: Id
    var left: map<Id, Id>
    var right: map<Id, Id>
    var parent: map<Id, Id>
    var red: map<Id, bool>
    var key: map<Id, int>

    ghost var order: seq<Id>
    ghost var nodes: set<Id>
    ghost var at: map<Id, Spot>
    ghost var bh: map<Id, int>

    ghost function View(): Links
      reads this
    {
      Links(root, sentinel, order, nodes, left, right, parent, at)
    }

    ghost function Tint(): Paint
      reads this
    {
      Paint(red, bh)
    }

    /** Every node has its fields. */
    ghost predicate Fielded()
      reads this
    {
      nodes <= key.Keys && nodes <= red.Keys && sentinel in red
    }

    ghost predicate Valid()
      reads this
    {
      RedBlack(View(), Tint()) && Fielded()
    }

    constructor (s: Id)
      ensures Valid() && sentinel == s && order == [] && nodes == {}
    {
      sentinel, root := s, s;
      left, right, parent := map[s := NULL], map[s := NULL], map[s := NULL];
      red, key := map[s := false], map[s := 0];
      order, nodes, at, bh := [], {}, map[], map[];
    }

    method LeftRotate(node: Id)
      requires Shape(View()) && In(View(), node) && right[node] != sentinel
      modifies this`root, this`left, this`right, this`parent, this`at
      ensures CanTurnLeft(old(View()), node) && View() == LeftTurn(old(View()), node)
    {
      HasCorners(View(), node);
      var temp := right[node];
      at := at[node := at[node].(hi := at[temp].pos)][temp := at[temp].(lo := at[node].lo)];
      right := right[node := left[temp]];
      if left[temp] != sentinel {
        parent := parent[left[temp] := node];
      }
      parent := parent[temp := parent[node]];
      if node == root {
        root := temp;
      } else if node == left[parent[node]] {
        left := left[parent[node] := temp];
      } else {
        right := right[parent[node] := temp];
      }
      left := left[temp := node];
      parent := parent[node := temp];
    }

    method RightRotate(node: Id)
      requires Shape(View()) && In(View(), node) && left[node] != sentinel
      modifies this`root, this`left, this`right, this`parent, this`at
      ensures CanTurnRight(old(View()), node) && View() == RightTurn(old(View()), node)
    {
      ghost var s := View();
      CornersRight(s, node);
      RightTurnFields(s, node);
      var temp := left[node];
      at := at[node := at[node].(lo := at[temp].pos + 1)][temp := at[temp].(hi := at[node].hi)];
      left := left[node := right[temp]];
      if right[temp] != sentinel {
        parent := parent[right[temp] := node];
      }
      parent := parent[temp := parent[node]];
      if node == root {
        root := temp;
      } else if node == right[parent[node]] {
        right := right[parent[node] := temp];
      } else {
        left := left[parent[node] := temp];
      }
      right := right[temp := node];
      parent := parent[node := temp];
    }

    /** The descent of `night_rbtree_insert_timer_value`: the free slot under temp where node belongs. */
    method Descend(node: Id) returns (temp: Id, goLeft: bool)
      requires Valid() && order != [] && node in key
      ensures temp in nodes && temp in left && temp in right && temp in at
      ensures (if goLeft then left[temp] else right[temp]) == sentinel
      ensures temp in key && goLeft == (Wrap64(key[node] - key[temp]) < 0)
      ensures Sorted(order, key) && InWindow(order, key, node) ==>
                Place(order, key, node, if goLeft then at[temp].pos else at[temp].pos + 1, if goLeft then at[temp].pos
                  else at[temp].pos + 1)
    {
      ghost var s := View();
      temp := root;
      assert Link(s, temp);
      goLeft := Wrap64(key[node] - key[temp]) < 0;
      while (if goLeft then left[temp] else right[temp]) != sentinel
        invariant Link(s, temp)
        invariant goLeft == (Wrap64(key[node] - key[temp]) < 0)
        invariant Sorted(order, key) && InWindow(order, key, node) ==> Place(order, key, node, at[temp].lo, at[temp].hi)
        decreases at[temp].hi - at[temp].lo
      {
        Narrow(s, key, node, temp);
        var next := if goLeft then left[temp] else right[temp];
        assert Link(s, next);
        temp := next;
        goLeft := Wrap64(key[node] - key[temp]) < 0;
      }
      Narrow(s, key, node, temp);
    }

    /** The tail of the insertion: node becomes a red leaf in the free slot. */
    method Hang(temp: Id, node: Id, goLeft: bool)
      requires RedBlack(View(), Tint()) && In(View(), temp) && node !in nodes && node != sentinel
      requires (if goLeft then left[temp] else right[temp]) == sentinel
      modifies this`left, this`right, this`parent, this`red, this`order, this`nodes, this`at, this`bh
      ensures Rising(View(), Tint(), node) && nodes == old(nodes) + {node} && red == old(red)[node := true]
      ensures
        var k := old(if goLeft then at[temp].pos else at[temp].pos + 1);
        0 <= k <= |old(order)| && order == old(order)[..k] + [node] + old(order)[k..]
    {
      ghost var s', k := HungRising(View(), Tint(), temp, node, goLeft);
      Attach(temp, node, goLeft);
      order, nodes, at, bh := s'.order, s'.nodes, s'.at, bh[node := 0];
      assert View() == s';
    }

    /** The pointer writes of the insertion. */
    method Attach(temp: Id, node: Id, goLeft: bool)
      modifies this`left, this`right, this`parent, this`red
      ensures left == (if goLeft then old(left)[temp := node] else old(left))[node := sentinel]
      ensures right == (if goLeft then old(right) else old(right)[temp := node])[node := sentinel]
      ensures parent == old(parent)[node := temp] && red == old(red)[node := true]
    {
      if goLeft {
        left := left[temp := node];
      } else {
        right := right[temp := node];
      }
      parent := parent[node := temp];
      left := left[node := sentinel];
      right := right[node := sentinel];
      red := red[node := true];
    }

    /** `night_rbtree_insert_timer_value`: the leaf is at index k of the in-order sequence. */
    method InsertTimerValue(node: Id) returns (ghost k: nat)
      requires Valid() && order != [] && node !in nodes && node != sentinel && node in key
      modifies this`left, this`right, this`parent, this`red, this`order, this`nodes, this`at, this`bh
      ensures Rising(View(), Tint(), node) && nodes == old(nodes) + {node} && red == old(red)[node := true]
      ensures k <= |old(order)| && order == old(order)[..k] + [node] + old(order)[k..]
      ensures Sorted(old(order), key) && InWindow(old(order), key, node) ==> Place(old(order), key, node, k, k)
      ensures |old(order)| == 1 ==> old(order)[0] in key && k == if Wrap64(key[node] - key[old(order)[0]]) < 0 then 0
        else 1
    {
      var temp, goLeft := Descend(node);
      assert Link(View(), temp);
      k := if goLeft then at[temp].pos else at[temp].pos + 1;
      Hang(temp, node, goLeft);
    }

    /** How far z is below the root, in nodes not under it. */
    ghost function Room(z: Id): int
      reads this
    {
      if z in nodes && z in at then |order| - (at[z].hi - at[z].lo) else |order|
    }

    ghost predicate Resting(z: Id)
      reads this
    {
      z == root || (z in parent && !Red(Tint(), parent[z]))
    }

    ghost predicate Climbing(node: Id)
      reads this
    {
      && Rising(View(), Tint(), node) && Fielded() && !Resting(node)
      && node in parent && parent[node] in parent && parent[parent[node]] in left && parent[parent[node]] in right
    }

    /** A red uncle: parent and uncle turn black, the grandparent red. */
    method Recolour(node: Id, uncle: Id) returns (up: Id)
      requires Climbing(node) && red[parent[node]] && uncle in red && red[uncle]
      requires var g := parent[parent[node]]; {left[g], right[g]} == {parent[node], uncle} && uncle != parent[node]
      modifies this`red, this`bh
      ensures Rising(View(), Tint(), up) && Fielded() && Room(up) < old(Room(node))
    {
      ghost var s, tint := View(), Tint();
      Grandparent(s, tint, node);
      assert Room(parent[parent[node]]) < Room(node) by {
        assert Link(s, node) && Link(s, parent[node]) && Link(s, parent[parent[node]]);
      }
      RecolouredRising(s, tint, node);
      RecolouredSides(s, tint, parent[parent[node]], parent[node], uncle);
      red := red[parent[node] := false];
      red := red[uncle := false];
      red := red[parent[parent[node]] := true];
      up := parent[parent[node]];
      bh := Recoloured(s, tint, up).bh;
    }

    /** The inner child of a left child is rotated to the outside. */
    method StraightenLeft(node: Id) returns (up: Id)
      requires Climbing(node) && left[parent[parent[node]]] == parent[node] && !Red(Tint(), right[parent[parent[node]]])
      requires parent[node] in right && right[parent[node]] == node
      modifies this`root, this`left, this`right, this`parent, this`at
      ensures Climbing(up) && left[parent[parent[up]]] == parent[up] && !Red(Tint(), right[parent[parent[up]]])
      ensures parent[up] in left && left[parent[up]] == up
    {
      ghost var s, tint := View(), Tint();
      Grandparent(s, tint, node);
      up := parent[node];
      InnerRising(s, tint, node, up);
      LeftRotate(up);
    }

    /** The outer child of a left child: one rotation at the grandparent ends the climb. */
    method RotateUpLeft(up: Id)
      requires Climbing(up) && left[parent[parent[up]]] == parent[up] && !Red(Tint(), right[parent[parent[up]]])
      requires parent[up] in left && left[parent[up]] == up
      modifies this`root, this`left, this`right, this`parent, this`red, this`at, this`bh
      ensures Rising(View(), Tint(), up) && Fielded() && Resting(up)
    {
      ghost var s, tint, p, g := View(), Tint(), parent[up], parent[parent[up]];
      Grandparent(s, tint, up);
      OuterRisingLeft(s, tint, up, p, g);
      red := red[parent[up] := false];
      red := red[parent[parent[up]] := true];
      RightRotate(parent[parent[up]]);
      assert View() == RightTurn(s, g);
      bh := Lifted(tint, p, g).bh;
    }

    /** A black uncle on the right: one more rotation brings the line to rest. */
    method LiftLeft(node: Id) returns (up: Id)
      requires Climbing(node) && left[parent[parent[node]]] == parent[node] && !Red(Tint(), right[parent[parent[node]]])
      modifies this`root, this`left, this`right, this`parent, this`red, this`at, this`bh
      ensures Rising(View(), Tint(), up) && Fielded() && Resting(up)
    {
      up := node;
      Grandparent(View(), Tint(), node);
      if up == right[parent[up]] {
        up := StraightenLeft(up);
      }
      RotateUpLeft(up);
    }

    /** The inner child of a right child is rotated to the outside. */
    method StraightenRight(node: Id) returns (up: Id)
      requires Climbing(node) && right[parent[parent[node]]] == parent[node] && !Red(Tint(), left[parent[parent[node]]])
      requires parent[node] in left && left[parent[node]] == node
      modifies this`root, this`left, this`right, this`parent, this`at
      ensures Climbing(up) && right[parent[parent[up]]] == parent[up] && !Red(Tint(), left[parent[parent[up]]])
      ensures parent[up] in right && right[parent[up]] == up
    {
      ghost var s, tint := View(), Tint();
      Grandparent(s, tint, node);
      up := parent[node];
      InnerRisingRight(s, tint, node, up);
      RightRotate(up);
    }

    /** A black uncle on the left: one more rotation brings the line to rest. */
    method LiftRight(node: Id) returns (up: Id)
      requires Climbing(node) && right[parent[parent[node]]] == parent[node] && !Red(Tint(), left[parent[parent[node]]])
      modifies this`root, this`left, this`right, this`parent, this`red, this`at, this`bh
      ensures Rising(View(), Tint(), up) && Fielded() && Resting(up)
    {
      up := node;
      Grandparent(View(), Tint(), node);
      if up == left[parent[up]] {
        up := StraightenRight(up);
      }
      RotateUpRight(up);
    }

    /** The outer child of a right child: one rotation at the grandparent ends the climb. */
    method RotateUpRight(up: Id)
      requires Climbing(up) && right[parent[parent[up]]] == parent[up] && !Red(Tint(), left[parent[parent[up]]])
      requires parent[up] in right && right[parent[up]] == up
      modifies this`root, this`left, this`right, this`parent, this`red, this`at, this`bh
      ensures Rising(View(), Tint(), up) && Fielded() && Resting(up)
    {
      ghost var s, tint, p, g := View(), Tint(), parent[up], parent[parent[up]];
      Grandparent(s, tint, up);
      OuterRising(s, tint, up, p, g);
      red := red[parent[up] := false];
      red := red[parent[parent[up]] := true];
      LeftRotate(parent[parent[up]]);
      bh := Lifted(tint, p, g).bh;
    }

    /** The re-balancing loop of `night_rbtree_insert`. */
    method Rebalance(node: Id)
      requires Rising(View(), Tint(), node) && Fielded()
      modifies this`root, this`left, this`right, this`parent, this`red, this`at, this`bh
      ensures Valid()
    {
      var z := node;
      assert Link(View(), z);
      while z != root && red[parent[z]]
        invariant Rising(View(), Tint(), z) && Fielded()
        invariant z in parent && (z != root ==> parent[z] in red)
        decreases if Resting(z) then 0 else 1, Room(z)
      {
        Grandparent(View(), Tint(), z);
        assert Link(View(), parent[parent[z]]);
        if parent[z] == left[parent[parent[z]]] {
          var temp := right[parent[parent[z]]];
          if red[temp] {
            z := Recolour(z, temp);
          } else {
            z := LiftLeft(z);
          }
        } else {
          var temp := left[parent[parent[z]]];
          if red[temp] {
            z := Recolour(z, temp);
          } else {
            z := LiftRight(z);
          }
        }
        assert Link(View(), z);
      }
      Settled(View(), Tint(), z);
      ghost var calm := RootBlack(View(), Tint());
      red := red[root := false];
      bh := calm.bh;
    }

    /** The first node of an empty tree becomes its black root. */
    method Seed(node: Id)
      requires Valid() && root == sentinel && node != sentinel && node in key
      modifies this`root, this`left, this`right, this`parent, this`red, this`order, this`nodes, this`at, this`bh
      ensures Valid() && order == [node] && nodes == {node} && old(order) == [] && old(nodes) == {}
    {
      NoRootNoNodes(View());
      Plant(node);
    }

    /** The pointer writes for the first node. */
    method BecomeRoot(node: Id)
      modifies this`root, this`left, this`right, this`parent, this`red
      ensures parent == old(parent)[node := NULL] && left == old(left)[node := sentinel]
      ensures right == old(right)[node := sentinel]
      ensures red == old(red)[node := false] && root == node
    {
      parent := parent[node := NULL];
      left := left[node := sentinel];
      right := right[node := sentinel];
      red := red[node := false];
      root := node;
    }

    /** The fields of a tree of one node. */
    method Plant(node: Id)
      requires node != sentinel && node in key && sentinel in parent && sentinel in red && NilBlack(View(), Tint())
      modifies this`root, this`left, this`right, this`parent, this`red, this`order, this`nodes, this`at, this`bh
      ensures Valid() && order == [node] && nodes == {node}
    {
      ghost var s, k := View(), Tint();
      OneNodeIsValid(s, k, node);
      BecomeRoot(node);
      order, nodes, at, bh := [node], {node}, at[node := Spot(0, 0, 1)], bh[node := 1];
      assert View() == OneNode(s, node) && Tint() == Paint(k.red[node := false], k.bh[node := 1]);
    }

    /** `night_rbtree_insert`: equal keys stay first-in first-out, because node goes behind every key not greater. */
    method Insert(node: Id) returns (ghost k: nat)
      requires Valid() && node !in nodes && node != sentinel && node in key
      modifies this`root, this`left, this`right, this`parent, this`red, this`order, this`nodes, this`at, this`bh
      ensures Valid() && nodes == old(nodes) + {node}
      ensures k <= |old(order)| && order == old(order)[..k] + [node] + old(order)[k..]
      ensures Sorted(old(order), key) && InWindow(old(order), key, node) ==>
        && (forall i :: 0 <= i < k && old(order)[i] in key ==> key[old(order)[i]] <= key[node])
        && (forall i :: k <= i < |old(order)| && old(order)[i] in key ==> key[node] < key[old(order)[i]])
      ensures Sorted(old(order), key) && InWindow(old(order), key, node) ==> Place(old(order), key, node, k, k)
      ensures |old(order)| == 1 ==> old(order)[0] in key && k == if Wrap64(key[node] - key[old(order)[0]]) < 0 then 0
        else 1
    {
      if root == sentinel {
        Seed(node);
        k := 0;
      } else {
        k := InsertTimerValue(node);
        Rebalance(node);
      }
    }

    /** `night_rbtree_min`: the first node of the subtree. */
    method Min(start: Id) returns (node: Id)
      requires Shape(View()) && start in nodes
      ensures In(View(), node) && left[node] == sentinel && start in at && at[node].pos == at[start].lo
    {
      node := start;
      assert Link(View(), node);
      while left[node] != sentinel
        invariant Link(View(), node) && start in at && at[node].lo == at[start].lo
        decreases at[node].hi - at[node].lo
      {
        assert Link(View(), left[node]);
        node := left[node];
      }
    }

    /** The removed node is wiped. */
    method Wipe(node: Id)
      modifies this`left, this`right, this`parent
      ensures left == old(left)[node := NULL] && right == old(right)[node := NULL]
      ensures parent == old(parent)[node := NULL]
    {
      left := left[node := NULL];
      right := right[node := NULL];
      parent := parent[node := NULL];
    }

    /** Removal of a node with a free child slot, before any fixup. */
    method SpliceOut(node: Id, temp: Id)
      requires Shape(View()) && CanSplice(View(), node, temp) && node != root
      modifies this`left, this`right, this`parent, this`order, this`nodes, this`at
      ensures Agree(old(Spliced(View(), node, temp)), View())
      ensures temp in parent && parent[temp] == old(parent[node])
    {
      ghost var s := View();
      ghost var s' := Spliced(s, node, temp);
      assert Link(s, node);
      if node == left[parent[node]] {
        left := left[parent[node] := temp];
      } else {
        right := right[parent[node] := temp];
      }
      parent := parent[temp := parent[node]];
      Wipe(node);
      order, nodes, at := s'.order, s'.nodes, s'.at;
      assert View() == Wiped(s', node);
      WipedAgrees(s', node);
    }

    /** The parent of subst now points to temp, and temp to its new parent. */
    method Bypass(node: Id, subst: Id, temp: Id)
      requires subst in parent && parent[subst] in left && parent[subst] in right
      modifies this`left, this`right, this`parent
      ensures
        var p := old(parent[subst]);
        && left == (if old(left)[p] == subst then old(left)[p := temp] else old(left))
        && right == (if old(left)[p] != subst then old(right)[p := temp] else old(right))
        && parent == old(parent)[temp := if p == node then subst else p]
    {
      if subst == left[parent[subst]] {
        left := left[parent[subst] := temp];
      } else {
        right := right[parent[subst] := temp];
      }
      if parent[subst] == node {
        parent := parent[temp := subst];
      } else {
        parent := parent[temp := parent[subst]];
      }
    }

    /** subst gets the links and the colour of node, and node's neighbours point to subst. */
    method TakeOver(node: Id, subst: Id)
      requires node in left && node in right && node in parent && node in red && subst != node
      requires node != root ==> parent[node] in left && parent[node] in right && parent[node] !in {node, subst}
      modifies this`root, this`left, this`right, this`parent, this`red
      ensures red == old(red[subst := red[node]]) && root == if old(root) == node then subst else old(root)
      ensures
        var q, l, r := old(parent[node]), old(left)[subst := old(left[node])], old(right)[subst := old(right[node])];
        && left == (if node != old(root) && l[q] == node then l[q := subst] else l)
        && right == (if node != old(root) && l[q] != node then r[q := subst] else r)
      ensures
        var p := old(parent)[subst := old(parent[node])];
        var p := if old(left[node]) != sentinel then p[old(left[node]) := subst] else p;
        parent == if old(right[node]) != sentinel then p[old(right[node]) := subst] else p
    {
      left := left[subst := left[node]];
      right := right[subst := right[node]];
      parent := parent[subst := parent[node]];
      red := red[subst := red[node]];
      if node == root {
        root := subst;
      } else if node == left[parent[node]] {
        left := left[parent[node] := subst];
      } else {
        right := right[parent[node] := subst];
      }
      if left[subst] != sentinel {
        parent := parent[left[subst] := subst];
      }
      if right[subst] != sentinel {
        parent := parent[right[subst] := subst];
      }
    }

    /** Removal of a node with two children, before any fixup: its successor subst takes over all its links. */
    method Substitute(node: Id, subst: Id, temp: Id)
      requires Shape(View()) && CanRemove(View(), node, subst, temp) && subst != node && Fielded()
      modifies this`root, this`left, this`right, this`parent, this`red, this`order, this`nodes, this`at
      ensures Agree(old(Removed(View(), node, subst, temp)), View())
      ensures subst in old(parent) && temp in parent && parent[temp] == old(RemovedParent(View(), node, subst))
      ensures node in old(red) && red == old(red[subst := red[node]])
    {
      ghost var s := View();
      ghost var s2 := Removed(s, node, subst, temp);
      Relink(node, subst, temp);
      ghost var before := parent;
      Wipe(node);
      order, nodes, at := s2.order, s2.nodes, s2.at;
      RemovedAgrees(s, node, subst, temp, before, View());
    }

    /** The pointer writes that put subst in the place of node, before node is wiped. */
    method Relink(node: Id, subst: Id, temp: Id)
      requires Shape(View()) && CanRemove(View(), node, subst, temp) && subst != node && Fielded()
      modifies this`root, this`left, this`right, this`parent, this`red
      ensures old(HasUps(View(), node, subst)) && parent == old(RemovedUps(View(), node, subst, temp))
      ensures
        var s2 := old(Removed(View(), node, subst, temp));
        left == s2.left && right == s2.right && root == s2.root
      ensures node in old(red) && red == old(red[subst := red[node]])
    {
      ghost var s := View();
      HasRename(s, node, subst, temp);
      ghost var s1 := Spliced(s, subst, temp);
      Neighbours(s, node, subst, temp);
      Bypass(node, subst, temp);
      assert left == s1.left && right == s1.right;
      TakeOver(node, subst);
    }

    /** The loop state of the deletion fixup with the fault on the left of its parent. */
    ghost predicate ShortLeft(temp: Id)
      reads this
    {
      && temp in parent && Sinking(View(), Tint(), temp, parent[temp], true) && Fielded()
      && temp != root && !Red(Tint(), temp)
    }

    /** A red sibling is rotated away. */
    method TurnRedSiblingLeft(temp: Id, w: Id)
      requires ShortLeft(temp) && w == right[parent[temp]] && Red(Tint(), w)
      modifies this`root, this`left, this`right, this`parent, this`red, this`at, this`bh
      ensures ShortLeft(temp) && parent[temp] == old(parent[temp]) && !Red(Tint(), right[parent[temp]])
      ensures Room(temp) == old(Room(temp))
    {
      ghost var s, tint, p := View(), Tint(), parent[temp];
      RedSibling(s, tint, temp, p);
      assert Link(s, p);
      red := red[w := false];
      red := red[parent[temp] := true];
      LeftRotate(parent[temp]);
      bh := Lifted(tint, w, p).bh;
    }

    /** A red inner child of the sibling is rotated to the outside. */
    method TurnInnerNephewLeft(temp: Id, w: Id)
      requires ShortLeft(temp) && w == right[parent[temp]] && !Red(Tint(), w) && In(View(), w)
      requires Red(Tint(), left[w]) && !Red(Tint(), right[w])
      modifies this`root, this`left, this`right, this`parent, this`red, this`at, this`bh
      ensures ShortLeft(temp) && parent[temp] == old(parent[temp])
      ensures var w := right[parent[temp]]; In(View(), w) && !Red(Tint(), w) && Red(Tint(), right[w])
    {
      ghost var s, tint, c := View(), Tint(), left[w];
      InnerNephew(s, tint, temp, parent[temp]);
      assert Link(s, w);
      red := red[left[w] := false];
      red := red[w := true];
      RightRotate(w);
      bh := Lifted(tint, c, w).bh;
    }

    /** A red outer child of the sibling: one rotation mends the fault. */
    method TurnOuterNephewLeft(temp: Id, w: Id)
      requires ShortLeft(temp) && w == right[parent[temp]] && !Red(Tint(), w) && In(View(), w) && Red(Tint(), right[w])
      modifies this`root, this`left, this`right, this`parent, this`red, this`at, this`bh
      ensures Valid()
    {
      ghost var s, tint, p, r := View(), Tint(), parent[temp], right[w];
      OuterNephew(s, tint, temp, p);
      assert Link(s, w);
      red := red[w := red[parent[temp]]];
      red := red[parent[temp] := false];
      red := red[right[w] := false];
      LeftRotate(parent[temp]);
      bh := Mended(tint, p, w, r).bh;
    }

    /** A black sibling with black children turns red, and the fault moves up to the parent. */
    method PassUpLeft(temp: Id, w: Id) returns (up: Id, ghost leftSide: bool)
      requires ShortLeft(temp) && w == right[parent[temp]] && !Red(Tint(), w) && In(View(), w)
      requires !Red(Tint(), left[w]) && !Red(Tint(), right[w])
      modifies this`red, this`bh
      ensures up == parent[temp] && up in parent && Sinking(View(), Tint(), up, parent[up], leftSide) && Fielded()
      ensures 0 <= Room(up) < old(Room(temp))
    {
      ghost var s, tint, p := View(), Tint(), parent[temp];
      BlackSibling(s, tint, temp, p);
      assert Link(s, p);
      leftSide := p != root && left[parent[p]] == p;
      red := red[w := true];
      up := parent[temp];
      bh := Drained(tint, w, p).bh;
    }

    /** A red child of the sibling ends the loop. */
    method MendNephewLeft(temp: Id, sibling: Id)
      requires ShortLeft(temp) && sibling == right[parent[temp]] && !Red(Tint(), sibling) && In(View(), sibling)
      requires Red(Tint(), left[sibling]) || Red(Tint(), right[sibling])
      modifies this`root, this`left, this`right, this`parent, this`red, this`at, this`bh
      ensures Valid() && root in parent && Room(root) == 0
    {
      var w := sibling;
      assert Link(View(), w);
      if !red[right[w]] {
        TurnInnerNephewLeft(temp, w);
        w := right[parent[temp]];
      }
      TurnOuterNephewLeft(temp, w);
      assert Link(View(), root);
    }

    /** The part of a round behind the red sibling: the fault moves up, or the loop ends. */
    method SettleLeft(temp: Id, w: Id) returns (up: Id, ghost leftSide: bool)
      requires ShortLeft(temp) && w == right[parent[temp]] && !Red(Tint(), w) && In(View(), w) && Room(temp) > 0
      modifies this`root, this`left, this`right, this`parent, this`red, this`at, this`bh
      ensures up in parent && Sinking(View(), Tint(), up, parent[up], leftSide) && Fielded()
      ensures 0 <= Room(up) < old(Room(temp))
    {
      assert Link(View(), w);
      if !red[left[w]] && !red[right[w]] {
        up, leftSide := PassUpLeft(temp, w);
      } else {
        MendNephewLeft(temp, w);
        up, leftSide := root, true;
        ArrivedAtRoot(View(), Tint(), parent[up], true);
      }
    }

    /** One round of the fixup loop with the fault on the left. */
    method SinkLeft(temp: Id) returns (up: Id, ghost leftSide: bool)
      requires ShortLeft(temp)
      modifies this`root, this`left, this`right, this`parent, this`red, this`at, this`bh
      ensures up in parent && Sinking(View(), Tint(), up, parent[up], leftSide) && Fielded()
      ensures 0 <= Room(up) < old(Room(temp))
    {
      var w := right[parent[temp]];
      assert Link(View(), parent[temp]);
      assert Room(temp) > 0;
      Sibling(View(), Tint(), temp, parent[temp]);
      if red[w] {
        TurnRedSiblingLeft(temp, w);
        w := right[parent[temp]];
        Sibling(View(), Tint(), temp, parent[temp]);
      }
      up, leftSide := SettleLeft(temp, w);
    }

    /** The loop state of the deletion fixup with the fault on the right of its parent. */
    ghost predicate ShortRight(temp: Id)
      reads this
    {
      && temp in parent && Sinking(View(), Tint(), temp, parent[temp], false) && Fielded()
      && temp != root && !Red(Tint(), temp)
    }

    /** A red sibling is rotated away. */
    method TurnRedSiblingRight(temp: Id, w: Id)
      requires ShortRight(temp) && w == left[parent[temp]] && Red(Tint(), w)
      modifies this`root, this`left, this`right, this`parent, this`red, this`at, this`bh
      ensures ShortRight(temp) && parent[temp] == old(parent[temp]) && !Red(Tint(), left[parent[temp]])
      ensures Room(temp) == old(Room(temp))
    {
      ghost var s, tint, p := View(), Tint(), parent[temp];
      RedSiblingRight(s, tint, temp, p);
      assert Link(s, p);
      red := red[w := false];
      red := red[parent[temp] := true];
      RightRotate(parent[temp]);
      bh := Lifted(tint, w, p).bh;
    }

    /** A red inner child of the sibling is rotated to the outside. */
    method TurnInnerNephewRight(temp: Id, w: Id)
      requires ShortRight(temp) && w == left[parent[temp]] && !Red(Tint(), w) && In(View(), w)
      requires Red(Tint(), right[w]) && !Red(Tint(), left[w])
      modifies this`root, this`left, this`right, this`parent, this`red, this`at, this`bh
      ensures ShortRight(temp) && parent[temp] == old(parent[temp])
      ensures var w := left[parent[temp]]; In(View(), w) && !Red(Tint(), w) && Red(Tint(), left[w])
    {
      ghost var s, tint, c := View(), Tint(), right[w];
      InnerNephewRight(s, tint, temp, parent[temp]);
      assert Link(s, w);
      red := red[right[w] := false];
      red := red[w := true];
      LeftRotate(w);
      bh := Lifted(tint, c, w).bh;
    }

    /** A red outer child of the sibling: one rotation mends the fault. */
    method TurnOuterNephewRight(temp: Id, w: Id)
      requires ShortRight(temp) && w == left[parent[temp]] && !Red(Tint(), w) && In(View(), w) && Red(Tint(), left[w])
      modifies this`root, this`left, this`right, this`parent, this`red, this`at, this`bh
      ensures Valid()
    {
      ghost var s, tint, p, r := View(), Tint(), parent[temp], left[w];
      OuterNephewRight(s, tint, temp, p);
      assert Link(s, w);
      red := red[w := red[parent[temp]]];
      red := red[parent[temp] := false];
      red := red[left[w] := false];
      RightRotate(parent[temp]);
      bh := Mended(tint, p, w, r).bh;
    }

    /** A black sibling with black children turns red, and the fault moves up to the parent. */
    method PassUpRight(temp: Id, w: Id) returns (up: Id, ghost leftSide: bool)
      requires ShortRight(temp) && w == left[parent[temp]] && !Red(Tint(), w) && In(View(), w)
      requires !Red(Tint(), left[w]) && !Red(Tint(), right[w])
      modifies this`red, this`bh
      ensures up == parent[temp] && up in parent && Sinking(View(), Tint(), up, parent[up], leftSide) && Fielded()
      ensures 0 <= Room(up) < old(Room(temp))
    {
      ghost var s, tint, p := View(), Tint(), parent[temp];
      BlackSiblingRight(s, tint, temp, p);
      assert Link(s, p);
      leftSide := !(p != root && right[parent[p]] == p);
      red := red[w := true];
      up := parent[temp];
      bh := Drained(tint, w, p).bh;
    }

    /** A red child of the sibling ends the loop. */
    method MendNephewRight(temp: Id, sibling: Id)
      requires ShortRight(temp) && sibling == left[parent[temp]] && !Red(Tint(), sibling) && In(View(), sibling)
      requires Red(Tint(), left[sibling]) || Red(Tint(), right[sibling])
      modifies this`root, this`left, this`right, this`parent, this`red, this`at, this`bh
      ensures Valid() && root in parent && Room(root) == 0
    {
      var w := sibling;
      assert Link(View(), w);
      if !red[left[w]] {
        TurnInnerNephewRight(temp, w);
        w := left[parent[temp]];
      }
      TurnOuterNephewRight(temp, w);
      assert Link(View(), root);
    }

    /** The part of a round behind the red sibling: the fault moves up, or the loop ends. */
    method SettleRight(temp: Id, w: Id) returns (up: Id, ghost leftSide: bool)
      requires ShortRight(temp) && w == left[parent[temp]] && !Red(Tint(), w) && In(View(), w) && Room(temp) > 0
      modifies this`root, this`left, this`right, this`parent, this`red, this`at, this`bh
      ensures up in parent && Sinking(View(), Tint(), up, parent[up], leftSide) && Fielded()
      ensures 0 <= Room(up) < old(Room(temp))
    {
      assert Link(View(), w);
      if !red[left[w]] && !red[right[w]] {
        up, leftSide := PassUpRight(temp, w);
      } else {
        MendNephewRight(temp, w);
        up, leftSide := root, true;
        ArrivedAtRoot(View(), Tint(), parent[up], true);
      }
    }

    /** One round of the fixup loop with the fault on the right. */
    method SinkRight(temp: Id) returns (up: Id, ghost leftSide: bool)
      requires ShortRight(temp)
      modifies this`root, this`left, this`right, this`parent, this`red, this`at, this`bh
      ensures up in parent && Sinking(View(), Tint(), up, parent[up], leftSide) && Fielded()
      ensures 0 <= Room(up) < old(Room(temp))
    {
      var w := left[parent[temp]];
      assert Link(View(), parent[temp]);
      assert Room(temp) > 0;
      SiblingRight(View(), Tint(), temp, parent[temp]);
      if red[w] {
        TurnRedSiblingRight(temp, w);
        w := left[parent[temp]];
        SiblingRight(View(), Tint(), temp, parent[temp]);
      }
      up, leftSide := SettleRight(temp, w);
    }

    /** The fixup loop of `night_rbtree_delete`. */
    method Fixup(start: Id, ghost startSide: bool)
      requires start in parent && Sinking(View(), Tint(), start, parent[start], startSide) && Fielded()
      modifies this`root, this`left, this`right, this`parent, this`red, this`at, this`bh
      ensures Valid()
    {
      var temp := start;
      ghost var leftSide := startSide;
      while temp != root && !red[temp]
        invariant temp in parent && Sinking(View(), Tint(), temp, parent[temp], leftSide) && Fielded() && temp in red
        decreases Room(temp)
      {
        if temp == left[parent[temp]] {
          temp, leftSide := SinkLeft(temp);
        } else {
          temp, leftSide := SinkRight(temp);
        }
      }
      Mend(View(), Tint(), temp, parent[temp], leftSide);
      ghost var k := Blackened(Tint(), temp);
      red := red[temp := false];
      bh := k.bh;
    }

    /** The root's child takes its place and turns black, and the root is wiped. */
    method Unroot(node: Id, temp: Id)
      requires node == root && CanSplice(View(), node, temp)
      modifies this`root, this`left, this`right, this`parent, this`red, this`order, this`nodes, this`at, this`bh
      ensures View() == old(Wiped(Spliced(View(), node, temp), node)) && Tint() == old(Blackened(Tint(), temp))
    {
      ghost var s', k := Spliced(View(), node, temp), Blackened(Tint(), temp);
      root := temp;
      red := red[temp := false];
      Wipe(node);
      order, nodes, at, bh := s'.order, s'.nodes, s'.at, k.bh;
    }

    /** The early return of `night_rbtree_delete`: the root has a free child slot, so its other child becomes the
        root. */
    method DropRoot(node: Id, temp: Id)
      requires Valid() && node == root && CanSplice(View(), node, temp)
      modifies this`root, this`left, this`right, this`parent, this`red, this`order, this`nodes, this`at, this`bh
      ensures Valid() && nodes == old(nodes) - {node}
      ensures order == old(order[..at[node].pos] + order[at[node].pos + 1..])
    {
      DroppedRoot(View(), Tint(), temp);
      Unroot(node, temp);
    }

    /** The node that is spliced out in place of node, and its child that moves up. */
    method Pick(node: Id) returns (temp: Id, subst: Id)
      requires Shape(View()) && node in nodes
      ensures CanRemove(View(), node, subst, temp)
    {
      ghost var s := View();
      assert Link(s, node);
      if left[node] == sentinel {
        temp, subst := right[node], node;
      } else if right[node] == sentinel {
        temp, subst := left[node], node;
      } else {
        subst := Min(right[node]);
        temp := right[subst];
      }
      HasSplice(s, subst, temp);
    }

    /** Both removals in one: node is out of the tree, and at most one black is missing at temp. */
    method TakeOut(node: Id, subst: Id, temp: Id, ghost leftSide: bool)
      requires Valid() && CanRemove(View(), node, subst, temp) && subst != root
      requires leftSide == (left[parent[subst]] == subst)
      modifies this`root, this`left, this`right, this`parent, this`red, this`order, this`nodes, this`at, this`bh
      ensures order == old(Removed(View(), node, subst, temp).order)
      ensures nodes == old(Removed(View(), node, subst, temp).nodes)
      ensures Fielded() && (old(Red(Tint(), subst)) ==> RedBlack(View(), Tint()))
      ensures temp in parent && (!old(Red(Tint(), subst)) ==> Sinking(View(), Tint(), temp, parent[temp], leftSide))
    {
      ghost var s, tint := View(), Tint();
      RemovedOrder(s, node, subst, temp);
      ghost var s' := Removed(s, node, subst, temp);
      if subst == node {
        SpliceOut(node, temp);
      } else {
        Substitute(node, subst, temp);
        bh := bh[subst := Blacks(tint, node)];
      }
      if Red(tint, subst) {
        RemovedRed(s, tint, node, subst, temp);
        AgreeRedBlack(s', View(), Tint());
      } else {
        RemovedBlack(s, tint, node, subst, temp);
        AgreeSinking(s', View(), Tint(), temp, parent[temp], leftSide);
      }
    }

    /** `night_rbtree_delete`: exactly this node leaves the tree, and the red-black rules hold again. */
    method Delete(node: Id) returns (ghost k: nat)
      requires Valid() && node in nodes
      modifies this
      ensures Valid() && nodes == old(nodes) - {node} && key == old(key)[node := 0]
      ensures k < |old(order)| && old(order)[k] == node && order == old(order)[..k] + old(order)[k + 1..]
    {
      var temp, subst := Pick(node);
      RemovedOrder(View(), node, subst, temp);
      k := at[node].pos;
      if subst != node {
        HasRename(View(), node, subst, temp);
      }
      if subst == root {
        DropRoot(node, temp);
      } else {
        var wasRed := red[subst];
        TakeOut(node, subst, temp, left[parent[subst]] == subst);
        if !wasRed {
          Fixup(temp, old(left[parent[subst]]) == subst);
        }
      }
      key := key[node := 0];
    }
  }
}
