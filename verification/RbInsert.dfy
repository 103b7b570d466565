/** The colours of the tree, and why re-balancing after an insertion restores the red-black rules. */
module RbInsert {
  import opened RbLinks
  import opened RbEdits

  /** `red` holds the colour fields; `bh` counts the black nodes on any way down from a node, the node included. */
  datatype Paint = Paint(red: map<Id, bool>, bh: map<Id, int>)

  predicate Red(k: Paint, n: Id) {
    n in k.red && k.red[n]
  }

  ghost function Blacks(k: Paint, n: Id): int {
    if n in k.bh then k.bh[n] else 0
  }

  /** Both ways down from n meet the same number of black nodes. */
  ghost predicate Even(s: Links, k: Paint, n: Id)
    requires In(s, n)
  {
    && Blacks(k, s.left[n]) == Blacks(k, s.right[n])
    && Blacks(k, n) == Blacks(k, s.left[n]) + if Red(k, n) then 0 else 1
  }

  /** A red n has no red child, the child z excepted. */
  ghost predicate Calm(s: Links, k: Paint, n: Id, z: Id)
    requires In(s, n)
  {
    Red(k, n) ==> (Red(k, s.left[n]) ==> s.left[n] == z) && (Red(k, s.right[n]) ==> s.right[n] == z)
  }

  ghost predicate Tone(s: Links, k: Paint, n: Id, z: Id) {
    In(s, n) && Even(s, k, n) && Calm(s, k, n, z)
  }

  ghost predicate Alike(k: Paint, k': Paint, a: Id, b: Id) {
    Blacks(k', b) == Blacks(k, a) && Red(k', b) == Red(k, a)
  }

  /** A node away from a rotation keeps its tone when the lifted node y looks as x did. */
  lemma RestKept(s: Links, s': Links, k: Paint, k': Paint, x: Id, y: Id, n: Id, z: Id)
    requires Rewired(s, s', x, y, n) && n != x && n != y && x != z
    requires Alike(k, k', n, n) && Alike(k, k', x, y)
    requires s.left[n] != x ==> Alike(k, k', s.left[n], s.left[n])
    requires s.right[n] != x ==> Alike(k, k', s.right[n], s.right[n])
    ensures Even(s, k, n) ==> Even(s', k', n)
    ensures Calm(s, k, n, z) ==> Calm(s', k', n, z)
  {
  }

  ghost predicate NilBlack(s: Links, k: Paint) {
    !Red(k, s.nil) && Blacks(k, s.nil) == 0
  }

  /** The red-black rules.  The sentinel is never red, so it stands for "no exception". */
  ghost predicate RedBlack(s: Links, k: Paint) {
    && Shape(s) && NilBlack(s, k) && !Red(k, s.root)
    && forall n {:trigger Tone(s, k, n, s.nil)} :: n in s.nodes ==> Tone(s, k, n, s.nil)
  }

  /** The state of the insertion loop: the red node z may sit under a red parent, all else is in order. */
  ghost predicate Rising(s: Links, k: Paint, z: Id) {
    && Shape(s) && NilBlack(s, k) && In(s, z) && Red(k, z) && (Red(k, s.root) ==> s.root == z)
    && forall n {:trigger Tone(s, k, n, z)} :: n in s.nodes ==> Tone(s, k, n, z)
  }

  lemma MirrorRising(s: Links, k: Paint, z: Id)
    requires Rising(s, k, z)
    ensures Rising(Mirror(s), k, z)
  {
    MirrorShape(s);
    forall n | n in s.nodes
      ensures Tone(Mirror(s), k, n, z)
    {
      assert Tone(s, k, n, z);
    }
  }

  /** A red parent of the rising node is not the root, and the grandparent is black. */
  lemma Grandparent(s: Links, k: Paint, z: Id)
    requires Rising(s, k, z) && z != s.root && Red(k, s.parent[z])
    ensures
      var p := s.parent[z];
      In(s, p) && p != s.root && In(s, s.parent[p])
    ensures
      var p := s.parent[z];
      var g := s.parent[p];
      && !Red(k, g) && (s.left[g] == p || s.right[g] == p) && (s.left[p] == z || s.right[p] == z)
      && z != p && p != g && z != g && s.left[p] != s.right[p] && s.left[g] != s.right[g]
  {
    assert Link(s, z);
    var p := s.parent[z];
    assert Link(s, p);
    var g := s.parent[p];
    assert Link(s, g) && Tone(s, k, g, z);
  }

  // ---------- red uncle ----------

  ghost function Recoloured(s: Links, k: Paint, g: Id): Paint
    requires In(s, g)
  {
    var l, r := s.left[g], s.right[g];
    Paint(k.red[l := false][r := false][g := true], k.bh[l := Blacks(k, l) + 1][r := Blacks(k, r) + 1])
  }

  lemma RecolouredSides(s: Links, k: Paint, g: Id, p: Id, u: Id)
    requires In(s, g) && p != u && {s.left[g], s.right[g]} == {p, u}
    ensures Recoloured(s, k, g).red == k.red[p := false][u := false][g := true]
  {
    assert p in {s.left[g], s.right[g]} && u in {s.left[g], s.right[g]};
  }

  lemma RecolouredTone(s: Links, k: Paint, z: Id, g: Id, n: Id)
    requires Rising(s, k, z) && z != s.root && Red(k, s.parent[z]) && In(s, g) && In(s, s.parent[z])
    requires g == s.parent[s.parent[z]] && s.left[g] != s.right[g]
    requires (s.left[g] == s.parent[z] || s.right[g] == s.parent[z])
    requires Red(k, s.left[g]) && Red(k, s.right[g]) && n in s.nodes
    ensures Tone(s, Recoloured(s, k, g), n, g)
  {
    var l, r := s.left[g], s.right[g];
    assert Tone(s, k, g, z) && Tone(s, k, n, z);
    assert Link(s, g) && Link(s, n);
    if n == g {
    } else if n == l || n == r {
      assert s.left[n] != l && s.left[n] != r && s.left[n] != g;
      assert s.right[n] != l && s.right[n] != r && s.right[n] != g;
    } else {
      assert s.left[n] != l && s.left[n] != r && s.right[n] != l && s.right[n] != r;
      assert Link(s, z);
      assert s.left[n] != z && s.right[n] != z;
    }
  }

  lemma RecolouredRising(s: Links, k: Paint, z: Id)
    requires Rising(s, k, z) && z != s.root && Red(k, s.parent[z]) && In(s, s.parent[z]) && In(s, s.parent[s.parent[z]])
    requires
      var g := s.parent[s.parent[z]];
      Red(k, s.left[g]) && Red(k, s.right[g])
    ensures
      var g := s.parent[s.parent[z]];
      Rising(s, Recoloured(s, k, g), g)
  {
    Grandparent(s, k, z);
    var g := s.parent[s.parent[z]];
    assert Link(s, g);
    forall n | n in s.nodes
      ensures Tone(s, Recoloured(s, k, g), n, g)
    {
      RecolouredTone(s, k, z, g, n);
    }
  }

  // ---------- black uncle, inner child: one rotation makes it an outer child ----------

  lemma InnerTone(s: Links, k: Paint, z: Id, p: Id, n: Id)
    requires Rising(s, k, z) && z != s.root && p == s.parent[z] && Red(k, p) && In(s, p) && s.right[p] == z
    requires n in s.nodes
    ensures CanTurnLeft(s, p) && Tone(LeftTurn(s, p), k, n, p)
  {
    assert Tone(s, k, p, z) && Tone(s, k, n, z) && Tone(s, k, z, z);
    LeftTurnWires(s, p, n);
    if n == p || n == z {
      assert Link(s, p) && Link(s, z);
    } else {
      RestKept(s, LeftTurn(s, p), k, k, p, z, n, s.nil);
    }
  }

  lemma InnerRising(s: Links, k: Paint, z: Id, p: Id)
    requires Rising(s, k, z) && z != s.root && p == s.parent[z] && Red(k, p) && In(s, p) && s.right[p] == z
    ensures CanTurnLeft(s, p) && Rising(LeftTurn(s, p), k, p)
    ensures
      var t := LeftTurn(s, p);
      && t.root == s.root && t.parent[p] == z && In(t, z) && t.left[z] == p && p != t.root
      && t.parent[z] == s.parent[p] && In(s, s.parent[p]) && In(t, t.parent[z])
      && t.left[t.parent[z]] == (if s.left[s.parent[p]] == p then z else s.left[s.parent[p]])
      && t.right[t.parent[z]] == (if s.left[s.parent[p]] == p then s.right[s.parent[p]] else z)
  {
    Grandparent(s, k, z);
    LeftTurnShape(s, p);
    forall n | n in s.nodes
      ensures Tone(LeftTurn(s, p), k, n, p)
    {
      InnerTone(s, k, z, p, n);
    }
  }

  // ---------- black uncle, outer child: one rotation ends the loop ----------

  ghost function Lifted(k: Paint, p: Id, g: Id): Paint {
    Paint(k.red[p := false][g := true], k.bh[p := Blacks(k, g)][g := Blacks(k, p)])
  }

  lemma OuterTone(s: Links, k: Paint, z: Id, p: Id, g: Id, n: Id)
    requires Rising(s, k, z) && z != s.root && p == s.parent[z] && Red(k, p) && In(s, p) && s.right[p] == z && p != g
    requires p != s.root && g == s.parent[p] && In(s, g) && s.right[g] == p && !Red(k, s.left[g]) && n in s.nodes
    ensures CanTurnLeft(s, g) && Tone(LeftTurn(s, g), Lifted(k, p, g), n, z)
  {
    assert Tone(s, k, p, z) && Tone(s, k, n, z) && Tone(s, k, g, z);
    LeftTurnWires(s, g, n);
    if n == p || n == g {
      assert Link(s, p) && Link(s, g);
    } else {
      assert Link(s, z);
      RestKept(s, LeftTurn(s, g), k, Lifted(k, p, g), g, p, n, z);
    }
  }

  /** Stated for a right-leaning line g, p, z; the other one is its mirror image. */
  lemma OuterRising(s: Links, k: Paint, z: Id, p: Id, g: Id)
    requires Rising(s, k, z) && z != s.root && p == s.parent[z] && Red(k, p) && In(s, p) && s.right[p] == z
    requires p != s.root && g == s.parent[p] && In(s, g) && s.right[g] == p && !Red(k, s.left[g])
    ensures CanTurnLeft(s, g) && Rising(LeftTurn(s, g), Lifted(k, p, g), z)
    ensures LeftTurn(s, g).parent[z] == p && !Red(Lifted(k, p, g), p) && LeftTurn(s, g).root != z
  {
    Grandparent(s, k, z);
    assert Link(s, g) && Link(s, p) && Link(s, z);
    LeftTurnShape(s, g);
    forall n | n in s.nodes
      ensures Tone(LeftTurn(s, g), Lifted(k, p, g), n, z)
    {
      OuterTone(s, k, z, p, g, n);
    }
  }

  // ---------- the end of the loop ----------

  ghost function RootBlack(s: Links, k: Paint): Paint {
    if Red(k, s.root) then Paint(k.red[s.root := false], k.bh[s.root := Blacks(k, s.root) + 1])
    else Paint(k.red[s.root := false], k.bh)
  }

  lemma Settled(s: Links, k: Paint, z: Id)
    requires Rising(s, k, z) && (z == s.root || !Red(k, s.parent[z]))
    ensures RedBlack(s, RootBlack(s, k))
  {
    assert Link(s, z) && Link(s, s.root);
    forall n | n in s.nodes
      ensures Tone(s, RootBlack(s, k), n, s.nil)
    {
      assert Tone(s, k, n, z) && Link(s, n);
      assert s.left[n] != s.root && s.right[n] != s.root;
    }
  }

  // ---------- the mirror images ----------

  lemma InnerRisingRight(s: Links, k: Paint, z: Id, p: Id)
    requires Rising(s, k, z) && z != s.root && p == s.parent[z] && Red(k, p) && In(s, p) && s.left[p] == z
    ensures CanTurnRight(s, p) && Rising(RightTurn(s, p), k, p)
    ensures
      var t := RightTurn(s, p);
      && t.root == s.root && t.parent[p] == z && In(t, z) && t.right[z] == p && p != t.root
      && t.parent[z] == s.parent[p] && In(s, s.parent[p]) && In(t, t.parent[z])
      && t.right[t.parent[z]] == (if s.right[s.parent[p]] == p then z else s.right[s.parent[p]])
      && t.left[t.parent[z]] == (if s.right[s.parent[p]] == p then s.left[s.parent[p]] else z)
  {
    MirrorRising(s, k, z);
    InnerRising(Mirror(s), k, z, p);
    MirrorRising(LeftTurn(Mirror(s), p), k, p);
  }

  lemma OuterRisingLeft(s: Links, k: Paint, z: Id, p: Id, g: Id)
    requires Rising(s, k, z) && z != s.root && p == s.parent[z] && Red(k, p) && In(s, p) && s.left[p] == z
    requires p != s.root && g == s.parent[p] && In(s, g) && s.left[g] == p && !Red(k, s.right[g])
    ensures CanTurnRight(s, g) && Rising(RightTurn(s, g), Lifted(k, p, g), z)
    ensures RightTurn(s, g).parent[z] == p && !Red(Lifted(k, p, g), p)
  {
    MirrorRising(s, k, z);
    OuterRising(Mirror(s), k, z, p, g);
    MirrorRising(LeftTurn(Mirror(s), g), Lifted(k, p, g), z);
  }

  // ---------- the start of the loop: a new red leaf ----------

  ghost function NewRed(k: Paint, z: Id): Paint {
    Paint(k.red[z := true], k.bh[z := 0])
  }

  lemma HungLeftRising(s: Links, k: Paint, p: Id, z: Id)
    requires RedBlack(s, k) && CanHangLeft(s, p, z)
    ensures Rising(HungLeft(s, p, z), NewRed(k, z), z)
  {
    HungLeftShape(s, p, z);
    assert Link(s, p);
    forall n | n in HungLeft(s, p, z).nodes
      ensures Tone(HungLeft(s, p, z), NewRed(k, z), n, z)
    {
      if n != z {
        assert Tone(s, k, n, s.nil) && Link(s, n);
      }
    }
  }

  lemma HungRightRising(s: Links, k: Paint, p: Id, z: Id)
    requires RedBlack(s, k) && CanHangRight(s, p, z)
    ensures Rising(HungRight(s, p, z), NewRed(k, z), z)
  {
    MirrorShape(s);
    forall n | n in s.nodes
      ensures Tone(Mirror(s), k, n, s.nil)
    {
      assert Tone(s, k, n, s.nil);
    }
    HungLeftRising(Mirror(s), k, p, z);
    MirrorRising(HungLeft(Mirror(s), p, z), NewRed(k, z), z);
  }

  /** The tree with the new leaf z under p, on the side the search ended at. */
  lemma HungRising(s: Links, k: Paint, p: Id, z: Id, goLeft: bool) returns (s': Links, i: nat)
    requires RedBlack(s, k) && In(s, p) && z !in s.nodes && z != s.nil
    requires (if goLeft then s.left[p] else s.right[p]) == s.nil
    ensures Rising(s', NewRed(k, z), z)
    ensures i == (if goLeft then s.at[p].pos else s.at[p].pos + 1) && i <= |s.order|
    ensures s'.order == s.order[..i] + [z] + s.order[i..] && s'.nodes == s.nodes + {z} && s'.root == s.root
    ensures s'.nil == s.nil
    ensures s'.left == (if goLeft then s.left[p := z] else s.left)[z := s.nil]
    ensures s'.right == (if goLeft then s.right else s.right[p := z])[z := s.nil]
    ensures s'.parent == s.parent[z := p]
  {
    assert Link(s, p);
    if goLeft {
      HungLeftRising(s, k, p, z);
      s', i := HungLeft(s, p, z), s.at[p].pos;
    } else {
      HungRightShape(s, p, z);
      HungRightFields(s, p, z);
      HungRightRising(s, k, p, z);
      s', i := HungRight(s, p, z), s.at[p].pos + 1;
    }
  }
}
