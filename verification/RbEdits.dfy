/** Hanging a new leaf under a node, splicing a node out, and putting one node in the place of another. */
module RbEdits {
  import opened RbLinks

  // ---------- hanging a leaf ----------

  ghost function Pushed(i: Spot, k: int): Spot {
    Spot(if i.lo > k then i.lo + 1 else i.lo, if i.pos >= k then i.pos + 1 else i.pos, if i.hi > k then i.hi + 1
      else i.hi)
  }

  ghost predicate CanHangLeft(s: Links, p: Id, z: Id) {
    In(s, p) && s.left[p] == s.nil && z !in s.nodes && z != s.nil && 0 <= s.at[p].pos < |s.order|
  }

  /** z becomes the left child of p, just before p in order. */
  ghost function HungLeft(s: Links, p: Id, z: Id): Links
    requires CanHangLeft(s, p, z)
  {
    var k := s.at[p].pos;
    s.(order := s.order[..k] + [z] + s.order[k..],
    nodes := s.nodes + {z},
    left := s.left[p := z][z := s.nil],
    right := s.right[z := s.nil],
    parent := s.parent[z := p],
    at := (map n | n in s.at :: Pushed(s.at[n], k))[z := Spot(k, k, k + 1)])
  }

  lemma HungLink(s: Links, p: Id, z: Id, n: Id)
    requires CanHangLeft(s, p, z) && s.nil !in s.nodes && Link(s, p)
    requires n == z || (n in s.nodes && Link(s, n))
    requires s.root in s.nodes
    ensures Link(HungLeft(s, p, z), n)
  {
    var s' := HungLeft(s, p, z);
    var k := s.at[p].pos;
    if n == z {
    } else {
      assert s'.at[n] == Pushed(s.at[n], k);
      assert s'.order[s'.at[n].pos] == s.order[s.at[n].pos];
      assert n != p ==> s.at[n].pos != k;
    }
  }

  lemma HungLeftShape(s: Links, p: Id, z: Id)
    requires Shape(s) && CanHangLeft(s, p, z)
    ensures Shape(HungLeft(s, p, z))
  {
    var s', k := HungLeft(s, p, z), s.at[p].pos;
    assert Linked(s') by {
      assert Link(s, p);
      forall n | n in s'.nodes
        ensures Link(s', n)
      {
        assert n != z ==> Link(s, n);
        HungLink(s, p, z, n);
      }
    }
    forall i | 0 <= i < |s'.order|
      ensures In(s', s'.order[i]) && s'.at[s'.order[i]].pos == i
    {
      assert s'.order[i] == if i < k then s.order[i] else if i == k then z else s.order[i - 1];
    }
  }

  /** The mirror image: z becomes the right child of p, just after p in order. */
  ghost predicate CanHangRight(s: Links, p: Id, z: Id) {
    CanHangLeft(Mirror(s), p, z)
  }

  ghost function HungRight(s: Links, p: Id, z: Id): Links
    requires CanHangRight(s, p, z)
  {
    Mirror(HungLeft(Mirror(s), p, z))
  }

  lemma HungRightShape(s: Links, p: Id, z: Id)
    requires Shape(s) && In(s, p) && s.right[p] == s.nil && z !in s.nodes && z != s.nil
    ensures CanHangRight(s, p, z) && Shape(HungRight(s, p, z))
  {
    assert Link(s, p);
    MirrorShape(s);
    HungLeftShape(Mirror(s), p, z);
    MirrorShape(HungLeft(Mirror(s), p, z));
  }

  /** Inserting into the reversed sequence, seen from the other end. */
  lemma InsertBackward(order: seq<Id>, k: nat, z: Id)
    requires k <= |order|
    ensures
      var b := Backward(order);
      |b| == |order| && Backward(b[..|order| - k] + [z] + b[|order| - k..]) == order[..k] + [z] + order[k..]
  {
    var b := Backward(order);
    var m := b[..|order| - k] + [z] + b[|order| - k..];
    var t := order[..k] + [z] + order[k..];
    forall i | 0 <= i < |t|
      ensures Backward(m)[i] == t[i]
    {
      BackwardAt(m, i);
      var j := |m| - 1 - i;
      if j < |order| - k {
        BackwardAt(order, j);
      } else if j > |order| - k {
        BackwardAt(order, j - 1);
      }
    }
  }

  lemma HungRightFields(s: Links, p: Id, z: Id)
    requires Shape(s) && CanHangRight(s, p, z)
    ensures
      var k, t := s.at[p].pos + 1, HungRight(s, p, z);
      && t.order == s.order[..k] + [z] + s.order[k..] && t.nodes == s.nodes + {z} && t.nil == s.nil && t.root == s.root
      && t.right == s.right[p := z][z := s.nil] && t.left == s.left[z := s.nil] && t.parent == s.parent[z := p]
  {
    assert Link(s, p);
    InsertBackward(s.order, s.at[p].pos + 1, z);
  }

  // ---------- splicing out a node with at most one child ----------

  ghost function Pulled(i: Spot, k: int): Spot {
    Spot(if i.lo > k then i.lo - 1 else i.lo, if i.pos > k then i.pos - 1 else i.pos, if i.hi > k then i.hi - 1
      else i.hi)
  }

  /** One child slot of x is empty and t is in the other (t may be the sentinel). */
  ghost predicate CanSplice(s: Links, x: Id, t: Id) {
    && In(s, x) && 0 <= s.at[x].pos < |s.order|
    && ((s.left[x] == s.nil && t == s.right[x]) || (s.right[x] == s.nil && t == s.left[x]))
    && (x != s.root ==> In(s, s.parent[x]) && s.parent[x] != x && s.parent[x] != t)
  }

  /** t moves up into the place of x. */
  ghost function Spliced(s: Links, x: Id, t: Id): Links
    requires CanSplice(s, x, t)
  {
    var k, p := s.at[x].pos, s.parent[x];
    s.(root := if x == s.root then t else s.root,
    order := s.order[..k] + s.order[k + 1..],
    nodes := s.nodes - {x},
    left := if x != s.root && s.left[p] == x then s.left[p := t] else s.left,
    right := if x != s.root && s.left[p] != x then s.right[p := t] else s.right,
    parent := if x == s.root then s.parent else s.parent[t := p],
    at := map n | n in s.at :: Pulled(s.at[n], k))
  }

  lemma HasSplice(s: Links, x: Id, t: Id)
    requires Linked(s) && In(s, x)
    requires (s.left[x] == s.nil && t == s.right[x]) || (s.right[x] == s.nil && t == s.left[x])
    ensures CanSplice(s, x, t)
  {
    assert Link(s, x);
    assert x != s.root ==> Link(s, s.parent[x]);
  }

  lemma SplicedSited(s: Links, x: Id, t: Id, n: Id)
    requires CanSplice(s, x, t) && Sited(s, x) && Sited(s, n) && n != x
    ensures In(Spliced(s, x, t), n)
    ensures n != t || x != s.root ==> Sited(Spliced(s, x, t), n)
  {
    var s' := Spliced(s, x, t);
    assert s.at[n].pos != s.at[x].pos;
    assert s'.order[s'.at[n].pos] == s.order[s.at[n].pos];
  }

  lemma SplicedTDown(s: Links, x: Id, t: Id)
    requires CanSplice(s, x, t) && s.nil !in s.nodes && Link(s, x) && (x != s.root ==> Link(s, s.parent[x]))
    requires t in s.nodes && Link(s, t)
    ensures In(Spliced(s, x, t), t) && LeftLink(Spliced(s, x, t), t) && RightLink(Spliced(s, x, t), t)
  {
    assert s.left[t] != x && s.left[t] != t && s.right[t] != x && s.right[t] != t;
  }

  lemma SplicedTUp(s: Links, x: Id, t: Id)
    requires CanSplice(s, x, t) && s.nil !in s.nodes && Link(s, x) && (x != s.root ==> Link(s, s.parent[x]))
    requires t in s.nodes && Link(s, t)
    ensures In(Spliced(s, x, t), t) && UpLink(Spliced(s, x, t), t)
  {
  }

  lemma SplicedTSited(s: Links, x: Id, t: Id)
    requires CanSplice(s, x, t) && s.nil !in s.nodes && Link(s, x) && (x != s.root ==> Link(s, s.parent[x]))
    requires t in s.nodes && Link(s, t)
    ensures Sited(Spliced(s, x, t), t)
  {
    SplicedSited(s, x, t, t);
  }

  lemma SplicedT(s: Links, x: Id, t: Id)
    requires CanSplice(s, x, t) && s.nil !in s.nodes && Link(s, x) && (x != s.root ==> Link(s, s.parent[x]))
    requires t in s.nodes && Link(s, t)
    ensures Link(Spliced(s, x, t), t)
  {
    SplicedTSited(s, x, t);
    SplicedTDown(s, x, t);
    SplicedTUp(s, x, t);
  }

  lemma SplicedP(s: Links, x: Id, t: Id)
    requires CanSplice(s, x, t) && s.nil !in s.nodes && Link(s, x) && x != s.root && Link(s, s.parent[x])
    requires t != s.nil ==> Link(s, t)
    ensures Link(Spliced(s, x, t), s.parent[x])
  {
    var s', p := Spliced(s, x, t), s.parent[x];
    SplicedSited(s, x, t, p);
    SplicedUp(s, x, t, p);
    if s.left[p] == x {
      assert LeftLink(s', p);
      assert s.right[p] != x;
    } else {
      assert RightLink(s', p);
      assert s.left[p] != x;
    }
  }

  /** A node that is neither x nor next to it keeps its links. */
  lemma SplicedFar(s: Links, x: Id, t: Id, n: Id)
    requires CanSplice(s, x, t) && In(s, n) && n != x && n != t && (x == s.root || n != s.parent[x])
    ensures
      var s' := Spliced(s, x, t);
      && In(s', n) && s'.left[n] == s.left[n] && s'.right[n] == s.right[n] && s'.parent[n] == s.parent[n]
      && s'.at[n] == Pulled(s.at[n], s.at[x].pos)
  {
  }

  /** Pulling at k keeps two intervals next to each other, if k is the position of neither. */
  lemma PulledEdges(i: Spot, a: Spot, k: int)
    requires i.pos != k && a.lo <= a.pos < a.hi && a.pos != k
    ensures i.lo == a.lo && a.hi == i.pos ==> Pulled(i, k).lo == Pulled(a, k).lo < Pulled(a, k).hi == Pulled(i, k).pos
    ensures i.pos + 1 == a.lo && a.hi == i.hi ==>
      Pulled(i, k).pos + 1 == Pulled(a, k).lo < Pulled(a, k).hi == Pulled(i, k).hi
  {
  }

  /** A child of a node away from x is not x, and not the child of x. */
  lemma ChildAway(s: Links, x: Id, t: Id, n: Id, c: Id)
    requires CanSplice(s, x, t) && s.nil !in s.nodes && Link(s, x) && (t != s.nil ==> Link(s, t))
    requires In(s, n) && Link(s, n) && n != x && (x == s.root || n != s.parent[x]) && c != s.nil
    requires (c == s.left[n] || c == s.right[n])
    ensures c != x && c != t && In(s, c) && s.parent[c] == n
  {
    assert c == s.left[n] ==> LeftLink(s, n);
    assert c == s.right[n] ==> RightLink(s, n);
  }

  lemma SplicedLeft(s: Links, x: Id, t: Id, n: Id)
    requires CanSplice(s, x, t) && s.nil !in s.nodes && Link(s, x)
    requires n in s.nodes && Link(s, n) && n != x && n != t && (x == s.root || n != s.parent[x])
    requires t != s.nil ==> Link(s, t)
    requires s.left[n] != s.nil ==> Sited(s, s.left[n])
    ensures In(Spliced(s, x, t), n) && LeftLink(Spliced(s, x, t), n)
  {
    var k, l := s.at[x].pos, s.left[n];
    SplicedFar(s, x, t, n);
    assert s.at[n].pos != k;
    if l != s.nil {
      ChildAway(s, x, t, n, l);
      assert s.at[l].pos != k;
      PulledEdges(s.at[n], s.at[l], k);
    }
  }

  lemma SplicedRight(s: Links, x: Id, t: Id, n: Id)
    requires CanSplice(s, x, t) && s.nil !in s.nodes && Link(s, x)
    requires n in s.nodes && Link(s, n) && n != x && n != t && (x == s.root || n != s.parent[x])
    requires t != s.nil ==> Link(s, t)
    requires s.right[n] != s.nil ==> Sited(s, s.right[n])
    ensures In(Spliced(s, x, t), n) && RightLink(Spliced(s, x, t), n)
  {
    var k, r := s.at[x].pos, s.right[n];
    SplicedFar(s, x, t, n);
    assert s.at[n].pos != k;
    if r != s.nil {
      ChildAway(s, x, t, n, r);
      assert s.at[r].pos != k;
      PulledEdges(s.at[n], s.at[r], k);
    }
  }

  lemma SplicedUp(s: Links, x: Id, t: Id, n: Id)
    requires CanSplice(s, x, t) && s.nil !in s.nodes && Link(s, x) && Link(s, n) && n != x && n != t
    ensures In(Spliced(s, x, t), n) && UpLink(Spliced(s, x, t), n)
  {
  }

  lemma SplicedRest(s: Links, x: Id, t: Id, n: Id)
    requires Shape(s) && CanSplice(s, x, t)
    requires n in s.nodes && n != x && n != t && (x == s.root || n != s.parent[x])
    ensures Link(Spliced(s, x, t), n)
  {
    assert Link(s, x) && Link(s, n);
    assert t != s.nil ==> Link(s, t);
    assert s.left[n] != s.nil ==> Link(s, s.left[n]);
    assert s.right[n] != s.nil ==> Link(s, s.right[n]);
    SplicedSited(s, x, t, n);
    SplicedLeft(s, x, t, n);
    SplicedRight(s, x, t, n);
    SplicedUp(s, x, t, n);
  }

  lemma SplicedLinked(s: Links, x: Id, t: Id)
    requires Shape(s) && CanSplice(s, x, t)
    ensures Linked(Spliced(s, x, t))
  {
    var s' := Spliced(s, x, t);
    assert Link(s, x);
    assert x != s.root ==> Link(s, s.parent[x]);
    assert t != s.nil ==> t in s.nodes && Link(s, t);
    forall n | n in s'.nodes
      ensures Link(s', n)
    {
      assert Link(s, n);
      if n == t {
        SplicedT(s, x, t);
      } else if x != s.root && n == s.parent[x] {
        SplicedP(s, x, t);
      } else {
        SplicedRest(s, x, t, n);
      }
    }
  }

  lemma SplicedShape(s: Links, x: Id, t: Id)
    requires Shape(s) && CanSplice(s, x, t)
    ensures Shape(Spliced(s, x, t))
  {
    SplicedLinked(s, x, t);
    var s', k := Spliced(s, x, t), s.at[x].pos;
    forall i | 0 <= i < |s'.order|
      ensures In(s', s'.order[i]) && s'.at[s'.order[i]].pos == i
    {
      assert s'.order[i] == s.order[if i < k then i else i + 1];
      assert Link(s, x);
      assert s.at[s'.order[i]].pos != k;
    }
  }

  // ---------- one node in the place of another ----------

  ghost predicate CanRename(s: Links, a: Id, b: Id) {
    && In(s, a) && 0 <= s.at[a].pos < |s.order| && b !in s.nodes && b != s.nil
    && s.left[a] != a && s.right[a] != a
    && (a != s.root ==> In(s, s.parent[a]) && s.parent[a] != a)
  }

  /** b takes over all links of a. */
  ghost function Renamed(s: Links, a: Id, b: Id): Links
    requires CanRename(s, a, b)
  {
    var p := s.parent[a];
    var left', right', parent' := s.left[b := s.left[a]], s.right[b := s.right[a]], s.parent[b := p];
    var parent' := if s.left[a] != s.nil then parent'[s.left[a] := b] else parent';
    s.(root := if a == s.root then b else s.root,
    order := s.order[s.at[a].pos := b],
    nodes := s.nodes - {a} + {b},
    left := if a != s.root && left'[p] == a then left'[p := b] else left',
    right := if a != s.root && left'[p] != a then right'[p := b] else right',
    parent := if s.right[a] != s.nil then parent'[s.right[a] := b] else parent',
    at := s.at[b := s.at[a]])
  }

  lemma RenamedB(s: Links, a: Id, b: Id)
    requires CanRename(s, a, b) && s.nil !in s.nodes && Link(s, a) && (a != s.root ==> Link(s, s.parent[a]))
    requires s.root in s.nodes
    ensures Link(Renamed(s, a, b), b)
  {
  }

  lemma RenamedSited(s: Links, a: Id, b: Id, n: Id)
    requires CanRename(s, a, b) && Sited(s, a) && Sited(s, n) && n != a && n != b
    ensures Sited(Renamed(s, a, b), n)
  {
    assert s.at[n].pos != s.at[a].pos;
  }

  lemma RenamedDown(s: Links, a: Id, b: Id, n: Id)
    requires CanRename(s, a, b) && s.nil !in s.nodes && Link(s, a) && Link(s, n) && n != a && n != b
    requires a != s.root ==> Link(s, s.parent[a])
    ensures In(Renamed(s, a, b), n) && LeftLink(Renamed(s, a, b), n) && RightLink(Renamed(s, a, b), n)
  {
    assert s.left[n] != s.nil ==> s.left[n] != s.left[a] && s.left[n] != s.right[a];
    assert s.right[n] != s.nil ==> s.right[n] != s.left[a] && s.right[n] != s.right[a];
    assert s.left[n] == a || s.right[n] == a ==> a != s.root && n == s.parent[a];
  }

  lemma RenamedUp(s: Links, a: Id, b: Id, n: Id)
    requires CanRename(s, a, b) && s.nil !in s.nodes && Link(s, a) && Link(s, n) && n != a && n != b
    requires a != s.root ==> Link(s, s.parent[a])
    ensures In(Renamed(s, a, b), n) && UpLink(Renamed(s, a, b), n)
  {
  }

  lemma RenamedShape(s: Links, a: Id, b: Id)
    requires Shape(s) && CanRename(s, a, b)
    ensures Shape(Renamed(s, a, b))
  {
    var s' := Renamed(s, a, b);
    assert Linked(s') by {
      assert Link(s, a);
      assert a != s.root ==> Link(s, s.parent[a]);
      forall n | n in s'.nodes
        ensures Link(s', n)
      {
        if n == b {
          RenamedB(s, a, b);
        } else {
          assert Link(s, n);
          RenamedSited(s, a, b, n);
          RenamedDown(s, a, b, n);
          RenamedUp(s, a, b, n);
        }
      }
    }
    forall i | 0 <= i < |s'.order|
      ensures In(s', s'.order[i]) && s'.at[s'.order[i]].pos == i
    {
      assert s.at[s.order[i]].pos == i;
    }
  }

  // ---------- links of nodes outside the tree do not matter ----------

  ghost predicate Same(s: Links, s': Links, n: Id)
    requires In(s, n)
  {
    In(s', n) && s'.left[n] == s.left[n] && s'.right[n] == s.right[n] && s'.parent[n] == s.parent[n]
      && s'.at[n] == s.at[n]
  }

  ghost predicate Agree(s: Links, s': Links) {
    && s'.root == s.root && s'.nil == s.nil && s'.order == s.order && s'.nodes == s.nodes && s.nil in s'.parent
    && (forall n {:trigger Same(s, s', n)} {:trigger In(s', n)} :: n in s.nodes && In(s, n) ==> Same(s, s', n))
  }

  ghost function Wiped(s: Links, n: Id): Links {
    s.(left := s.left[n := NULL], right := s.right[n := NULL], parent := s.parent[n := NULL])
  }

  lemma WipedAgrees(s: Links, n: Id)
    requires n !in s.nodes && s.nil in s.parent
    ensures Agree(s, Wiped(s, n))
  {
  }

  lemma AgreeLink(s: Links, s': Links, n: Id)
    requires Agree(s, s') && Link(s, n)
    ensures Link(s', n)
  {
    assert Same(s, s', n);
    assert s.left[n] != s.nil ==> Same(s, s', s.left[n]);
    assert s.right[n] != s.nil ==> Same(s, s', s.right[n]);
    assert n != s.root ==> Same(s, s', s.parent[n]);
  }

  lemma AgreeShape(s: Links, s': Links)
    requires Shape(s) && Agree(s, s')
    ensures Shape(s')
  {
    forall n | n in s'.nodes
      ensures Link(s', n)
    {
      assert Link(s, n);
      AgreeLink(s, s', n);
    }
    forall i | 0 <= i < |s'.order|
      ensures In(s', s'.order[i]) && s'.at[s'.order[i]].pos == i
    {
      assert Same(s, s', s.order[i]);
    }
    assert s.order != [] ==> Same(s, s', s.root);
  }
}
