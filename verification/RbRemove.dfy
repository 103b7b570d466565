/** What taking a node out of the tree does to the colours, before the fixup loop starts. */
module RbRemove {
  import opened RbLinks
  import opened RbEdits
  import opened RbInsert
  import opened RbDelete

  // ---------- splicing ----------

  lemma SplicedKids(s: Links, x: Id, t: Id, n: Id)
    requires Shape(s) && CanSplice(s, x, t) && n in s.nodes && n != x
    ensures In(Spliced(s, x, t), n)
    ensures Spliced(s, x, t).left[n] == if s.left[n] == x then t else s.left[n]
    ensures Spliced(s, x, t).right[n] == if s.right[n] == x then t else s.right[n]
    ensures x in {s.left[n], s.right[n]} ==> x != s.root && n == s.parent[x] && s.left[n] != s.right[n]
  {
    assert Link(s, n) && Link(s, x);
  }

  lemma SplicedRed(s: Links, k: Paint, x: Id, t: Id)
    requires RedBlack(s, k) && CanSplice(s, x, t) && Red(k, x)
    ensures RedBlack(Spliced(s, x, t), k)
  {
    SplicedShape(s, x, t);
    assert Tone(s, k, x, s.nil);
    forall n | n in Spliced(s, x, t).nodes
      ensures Tone(Spliced(s, x, t), k, n, s.nil)
    {
      assert Tone(s, k, n, s.nil);
      SplicedKids(s, x, t, n);
    }
  }

  lemma SplicedBlackDim(s: Links, k: Paint, x: Id, t: Id, n: Id)
    requires RedBlack(s, k) && CanSplice(s, x, t) && !Red(k, x) && x != s.root && n in s.nodes && n != x
    ensures Dim(Spliced(s, x, t), k, n, t, s.parent[x])
  {
    assert Tone(s, k, n, s.nil) && Link(s, x);
    assert Link(s, s.root);
    assert t != s.root;
    SplicedKids(s, x, t, n);
  }

  lemma SplicedBlack(s: Links, k: Paint, x: Id, t: Id)
    requires RedBlack(s, k) && CanSplice(s, x, t) && !Red(k, x) && x != s.root
    ensures Sinking(Spliced(s, x, t), k, t, s.parent[x], s.left[s.parent[x]] == x)
  {
    SplicedShape(s, x, t);
    var p, s' := s.parent[x], Spliced(s, x, t);
    assert Tone(s, k, x, s.nil) && Tone(s, k, p, s.nil) && Link(s, x) && Link(s, p);
    SplicedKids(s, x, t, p);
    forall n | n in s'.nodes
      ensures Dim(s', k, n, t, p)
    {
      SplicedBlackDim(s, k, x, t, n);
    }
  }

  /** Removing the root when it has at most one child leaves that child as a black root. */
  lemma SplicedRoot(s: Links, k: Paint, t: Id)
    requires RedBlack(s, k) && CanSplice(s, s.root, t)
    ensures RedBlack(Spliced(s, s.root, t), Blackened(k, t))
  {
    var x, s' := s.root, Spliced(s, s.root, t);
    SplicedShape(s, x, t);
    assert Link(s, x);
    forall n | n in s'.nodes
      ensures Tone(s', Blackened(k, t), n, s.nil)
    {
      assert Tone(s, k, n, s.nil) && Link(s, n);
      SplicedKids(s, x, t, n);
    }
  }

  // ---------- renaming ----------

  /** b gets the colour of a, as `night_rbt_copy_color` gives it. */
  ghost function Copied(k: Paint, a: Id, b: Id): Paint {
    Paint(k.red[b := Red(k, a)], k.bh[b := Blacks(k, a)])
  }

  lemma RenamedKids(s: Links, a: Id, b: Id, n: Id)
    requires Shape(s) && CanRename(s, a, b) && n in s.nodes
    ensures In(Renamed(s, a, b), if n == a then b else n)
    ensures Renamed(s, a, b).left[if n == a then b else n] == if s.left[n] == a then b else s.left[n]
    ensures Renamed(s, a, b).right[if n == a then b else n] == if s.right[n] == a then b else s.right[n]
    ensures s.left[n] != b && s.right[n] != b
  {
    assert Link(s, n) && Link(s, a);
    assert a != s.root ==> Link(s, s.parent[a]);
  }

  lemma RenamedRed(s: Links, k: Paint, a: Id, b: Id)
    requires RedBlack(s, k) && CanRename(s, a, b)
    ensures RedBlack(Renamed(s, a, b), Copied(k, a, b))
  {
    RenamedShape(s, a, b);
    var s' := Renamed(s, a, b);
    forall n | n in s'.nodes
      ensures Tone(s', Copied(k, a, b), n, s.nil)
    {
      var m := if n == b then a else n;
      assert Tone(s, k, m, s.nil);
      RenamedKids(s, a, b, m);
    }
    assert Link(s, a);
  }

  lemma RenamedDim(s: Links, k: Paint, a: Id, b: Id, t: Id, p: Id, n: Id)
    requires Shape(s) && CanRename(s, a, b) && n in s.nodes && Dim(s, k, n, t, p) && t !in {a, b}
    ensures In(Renamed(s, a, b), if n == a then b else n)
    ensures Dim(Renamed(s, a, b), Copied(k, a, b), if n == a then b else n, t, if p == a then b else p)
  {
    RenamedKids(s, a, b, n);
  }

  /** The root is dropped and its fields are wiped. */
  lemma DroppedRoot(s: Links, k: Paint, t: Id)
    requires RedBlack(s, k) && CanSplice(s, s.root, t)
    ensures t != s.root && RedBlack(Wiped(Spliced(s, s.root, t), s.root), Blackened(k, t))
  {
    var s' := Spliced(s, s.root, t);
    SplicedRoot(s, k, t);
    assert Link(s, s.root);
    WipedAgrees(s', s.root);
    AgreeRedBlack(s', Wiped(s', s.root), Blackened(k, t));
  }

  lemma RenamedUp(s: Links, a: Id, b: Id, t: Id, p: Id)
    requires Shape(s) && CanRename(s, a, b) && t !in {a, b, s.root} && t in s.nodes && t in s.parent && s.parent[t] == p
    ensures t in Renamed(s, a, b).parent && Renamed(s, a, b).parent[t] == if p == a then b else p
  {
    assert Link(s, a) && Link(s, t);
  }

  lemma RenamedShort(s: Links, k: Paint, a: Id, b: Id, t: Id, p: Id, leftSide: bool)
    requires Shape(s) && CanRename(s, a, b) && t !in {a, b, s.root} && Short(s, k, t, p, leftSide)
    requires (t == s.nil || In(s, t))
    ensures Short(Renamed(s, a, b), Copied(k, a, b), t, if p == a then b else p, leftSide)
  {
    RenamedKids(s, a, b, p);
    assert Link(s, a) && Link(s, p);
  }

  lemma RenamedDims(s: Links, k: Paint, a: Id, b: Id, t: Id, p: Id)
    requires Shape(s) && CanRename(s, a, b) && t !in {a, b}
    requires forall n {:trigger Dim(s, k, n, t, p)} :: n in s.nodes ==> Dim(s, k, n, t, p)
    ensures
      var s', k', p' := Renamed(s, a, b), Copied(k, a, b), if p == a then b else p;
      forall n {:trigger Dim(s', k', n, t, p')} :: n in s'.nodes ==> Dim(s', k', n, t, p')
  {
    var s', k', p' := Renamed(s, a, b), Copied(k, a, b), if p == a then b else p;
    forall n | n in s'.nodes
      ensures Dim(s', k', n, t, p')
    {
      var m := if n == b then a else n;
      assert Dim(s, k, m, t, p);
      RenamedDim(s, k, a, b, t, p, m);
    }
  }

  lemma RenamedSinking(s: Links, k: Paint, a: Id, b: Id, t: Id, p: Id, leftSide: bool)
    requires Sinking(s, k, t, p, leftSide) && CanRename(s, a, b) && t !in {a, b, s.root}
    ensures Sinking(Renamed(s, a, b), Copied(k, a, b), t, if p == a then b else p, leftSide)
  {
    RenamedShape(s, a, b);
    RenamedShort(s, k, a, b, t, p, leftSide);
    if t in s.nodes && t in s.parent && s.parent[t] == p {
      RenamedUp(s, a, b, t, p);
    }
    RenamedDims(s, k, a, b, t, p);
    assert t != s.nil ==> In(Renamed(s, a, b), t);
  }

  // ---------- links of nodes outside the tree do not matter ----------

  lemma AgreeRedBlack(s: Links, s': Links, k: Paint)
    requires RedBlack(s, k) && Agree(s, s')
    ensures RedBlack(s', k)
  {
    AgreeShape(s, s');
    forall n | n in s'.nodes
      ensures Tone(s', k, n, s.nil)
    {
      assert Tone(s, k, n, s.nil) && Same(s, s', n);
    }
  }

  lemma AgreeSinking(s: Links, s': Links, k: Paint, t: Id, p: Id, leftSide: bool)
    requires Sinking(s, k, t, p, leftSide) && Agree(s, s')
    ensures Sinking(s', k, t, p, leftSide)
  {
    AgreeShape(s, s');
    assert t != s.root ==> Same(s, s', p);
    assert t != s.nil ==> Same(s, s', t);
    forall n | n in s'.nodes
      ensures Dim(s', k, n, t, p)
    {
      assert Dim(s, k, n, t, p) && Same(s, s', n);
    }
  }

  // ---------- the whole removal ----------

  /** x is node itself, or the node just after it, which then takes its place; t is the child that moves up. */
  ghost predicate CanRemove(s: Links, node: Id, x: Id, t: Id) {
    && In(s, node) && CanSplice(s, x, t)
    && (x != node ==>
          && In(s, x) && s.left[node] != s.nil && s.right[node] != s.nil
          && s.at[x].pos == s.at[node].pos + 1 && s.left[x] == s.nil)
  }

  lemma HasRename(s: Links, node: Id, x: Id, t: Id)
    requires Shape(s) && CanRemove(s, node, x, t) && x != node
    ensures CanRename(Spliced(s, x, t), node, x) && x != s.root && t !in {node, x}
  {
    SplicedShape(s, x, t);
    assert Link(s, node) && Link(s, x) && Link(Spliced(s, x, t), node);
    var s' := Spliced(s, x, t);
    assert node != s'.root ==> Link(s', s'.parent[node]);
  }

  ghost function Removed(s: Links, node: Id, x: Id, t: Id): Links
    requires Shape(s) && CanRemove(s, node, x, t)
  {
    if x == node then Spliced(s, x, t)
    else
      HasRename(s, node, x, t);
      Renamed(Spliced(s, x, t), node, x)
  }

  /** Exactly the given node leaves the in-order sequence. */
  lemma RemovedOrder(s: Links, node: Id, x: Id, t: Id)
    requires Shape(s) && CanRemove(s, node, x, t)
    ensures
      var k := s.at[node].pos;
      && 0 <= k < |s.order| && s.order[k] == node
      && Removed(s, node, x, t).order == s.order[..k] + s.order[k + 1..]
        && Removed(s, node, x, t).nodes == s.nodes - {node}
  {
    assert Link(s, node) && Link(s, x);
    if x != node {
      HasRename(s, node, x, t);
    }
  }

  ghost function RemovedPaint(k: Paint, node: Id, x: Id): Paint {
    if x == node then k else Copied(k, node, x)
  }

  ghost function RemovedParent(s: Links, node: Id, x: Id): Id
    requires x in s.parent
  {
    if x != node && s.parent[x] == node then x else s.parent[x]
  }

  lemma RemovedRed(s: Links, k: Paint, node: Id, x: Id, t: Id)
    requires RedBlack(s, k) && CanRemove(s, node, x, t) && Red(k, x)
    ensures RedBlack(Removed(s, node, x, t), RemovedPaint(k, node, x))
  {
    SplicedRed(s, k, x, t);
    if x != node {
      HasRename(s, node, x, t);
      RenamedRed(Spliced(s, x, t), k, node, x);
    }
  }

  lemma RemovedBlack(s: Links, k: Paint, node: Id, x: Id, t: Id)
    requires RedBlack(s, k) && CanRemove(s, node, x, t) && !Red(k, x) && x != s.root
    ensures Sinking(Removed(s, node, x, t), RemovedPaint(k, node, x), t, RemovedParent(s, node, x),
      s.left[s.parent[x]] == x)
  {
    SplicedBlack(s, k, x, t);
    if x != node {
      HasRename(s, node, x, t);
      assert Link(s, s.root) && Link(s, x);
      assert t != s.root;
      RenamedSinking(Spliced(s, x, t), k, node, x, t, s.parent[x], s.left[s.parent[x]] == x);
    }
  }

  /** The nodes around node and its successor x are all different. */
  lemma Neighbours(s: Links, node: Id, x: Id, t: Id)
    requires Shape(s) && CanRemove(s, node, x, t) && x != node
    ensures In(s, x) && In(s, s.parent[x]) && x != s.root && x !in {s.parent[x], t} && node != t
    ensures node != s.root ==> In(s, s.parent[node]) && s.parent[node] !in {node, x, t, s.parent[x]}
    ensures s.left[node] !in {x, t, node, s.nil} && In(s, s.left[node]) && s.right[node] !in {t, node, s.nil}
    ensures In(s, s.right[node])
    ensures s.parent[x] == node ==> s.right[node] == x && s.left[node] != x
    ensures s.right[node] == x ==> s.parent[x] == node
  {
    assert Link(s, node) && Link(s, x);
    assert Link(s, s.root);
    assert Link(s, s.parent[x]);
    assert node != s.root ==> Link(s, s.parent[node]);
    assert t != s.nil ==> Link(s, t);
  }

  /** The parent fields that the code ends with, and the tree it should have built, agree. */
  ghost predicate HasUps(s: Links, node: Id, x: Id) {
    x in s.parent && node in s.parent && x in s.left && node in s.right && node in s.left && s.parent[x] in s.left
  }

  /** The parent links that the code writes, before it wipes those of node. */
  ghost function RemovedUps(s: Links, node: Id, x: Id, t: Id): map<Id, Id>
    requires HasUps(s, node, x)
  {
    var p := s.parent[t := RemovedParent(s, node, x)][x := s.parent[node]];
    var p := if s.left[node] != s.nil then p[s.left[node] := x] else p;
    var c := if s.left[s.parent[x]] != x && s.parent[x] == node then t else s.right[node];
    if c != s.nil then p[c := x] else p
  }

  /** The fields of a node other than node and x, as the code leaves them. */
  lemma RemovedSame(s: Links, node: Id, x: Id, t: Id, up: map<Id, Id>, s': Links, n: Id)
    requires Shape(s) && CanRemove(s, node, x, t) && x != node
    requires
      var r := Removed(s, node, x, t);
      && s'.root == r.root && s'.nil == r.nil && s'.order == r.order && s'.nodes == r.nodes && s'.at == r.at
      && s'.left == r.left[node := NULL] && s'.right == r.right[node := NULL] && s'.parent == up[node := NULL]
    requires HasUps(s, node, x) && up == RemovedUps(s, node, x, t)
    requires var r := Removed(s, node, x, t); n in r.nodes && In(r, n)
    ensures Same(Removed(s, node, x, t), s', n)
  {
    HasRename(s, node, x, t);
    Neighbours(s, node, x, t);
  }

  lemma RemovedUp(s: Links, node: Id, x: Id, t: Id, up: map<Id, Id>, s': Links)
    requires Shape(s) && CanRemove(s, node, x, t) && x != node
    requires
      var r := Removed(s, node, x, t);
      && s'.root == r.root && s'.nil == r.nil && s'.order == r.order && s'.nodes == r.nodes && s'.at == r.at
      && s'.left == r.left[node := NULL] && s'.right == r.right[node := NULL] && s'.parent == up[node := NULL]
    requires HasUps(s, node, x) && up == RemovedUps(s, node, x, t)
    ensures t in s'.parent && s'.parent[t] == RemovedParent(s, node, x) && s.nil in s'.parent
  {
    HasRename(s, node, x, t);
    Neighbours(s, node, x, t);
  }

  lemma RemovedAgrees(s: Links, node: Id, x: Id, t: Id, up: map<Id, Id>, s': Links)
    requires Shape(s) && CanRemove(s, node, x, t) && x != node
    requires
      var r := Removed(s, node, x, t);
      && s'.root == r.root && s'.nil == r.nil && s'.order == r.order && s'.nodes == r.nodes && s'.at == r.at
      && s'.left == r.left[node := NULL] && s'.right == r.right[node := NULL] && s'.parent == up[node := NULL]
    requires HasUps(s, node, x) && up == RemovedUps(s, node, x, t)
    ensures Agree(Removed(s, node, x, t), s')
    ensures t in s'.parent && s'.parent[t] == RemovedParent(s, node, x)
  {
    var r := Removed(s, node, x, t);
    RemovedUp(s, node, x, t, up, s');
    forall n | n in r.nodes && In(r, n)
      ensures Same(r, s', n)
    {
      RemovedSame(s, node, x, t, up, s', n);
    }
  }
}
