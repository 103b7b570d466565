/** Why the fixup after a deletion restores the red-black rules. */
module RbDelete {
  import opened RbLinks
  import opened RbEdits
  import opened RbInsert

  ghost function Child(s: Links, p: Id, leftSide: bool): Id
    requires In(s, p)
  {
    if leftSide then s.left[p] else s.right[p]
  }

  /** The way down through t, a child of p, is one black node short of the way through its sibling. */
  ghost predicate Short(s: Links, k: Paint, t: Id, p: Id, leftSide: bool) {
    && In(s, p) && p != t && Child(s, p, leftSide) == t
    && Blacks(k, Child(s, p, !leftSide)) == Blacks(k, t) + 1
    && Blacks(k, p) == Blacks(k, Child(s, p, !leftSide)) + if Red(k, p) then 0 else 1
  }

  ghost predicate Dim(s: Links, k: Paint, n: Id, t: Id, p: Id) {
    In(s, n) && (Even(s, k, n) || (t != s.root && n == p)) && (n == t || Calm(s, k, n, t))
  }

  /** The state of the deletion loop: the only faults are the missing black at t and red neighbours of t. */
  ghost predicate Sinking(s: Links, k: Paint, t: Id, p: Id, leftSide: bool) {
    && Shape(s) && NilBlack(s, k) && s.order != [] && (Red(k, s.root) ==> s.root == t)
    && (t == s.nil || In(s, t))
    && (t != s.root ==> Short(s, k, t, p, leftSide) && (t != s.nil ==> s.parent[t] == p))
    && forall n {:trigger Dim(s, k, n, t, p)} :: n in s.nodes ==> Dim(s, k, n, t, p)
  }

  lemma MirrorSinking(s: Links, k: Paint, t: Id, p: Id, leftSide: bool)
    requires Sinking(s, k, t, p, leftSide)
    ensures Sinking(Mirror(s), k, t, p, !leftSide)
  {
    MirrorShape(s);
    assert |Mirror(s).order| == |s.order|;
    forall n | n in s.nodes
      ensures Dim(Mirror(s), k, n, t, p)
    {
      assert Dim(s, k, n, t, p);
    }
  }

  /** The short side cannot be empty on the other side: the sibling is a node. */
  lemma Sibling(s: Links, k: Paint, t: Id, p: Id)
    requires Sinking(s, k, t, p, true) && t != s.root && !Red(k, t)
    ensures In(s, s.right[p]) && s.right[p] != t && s.right[p] != p
    ensures Red(k, s.right[p]) ==> !Red(k, p)
  {
    assert Link(s, p) && Dim(s, k, p, t, p);
    NoNegative(s, k, t, p, true, t);
  }

  /** Black counts are never negative. */
  lemma {:induction false} NoNegative(s: Links, k: Paint, t: Id, p: Id, leftSide: bool, n: Id)
    requires Sinking(s, k, t, p, leftSide) && (n == s.nil || In(s, n))
    ensures Blacks(k, n) >= 0
    decreases if n == s.nil then 0 else s.at[n].hi - s.at[n].lo
  {
    if n != s.nil {
      assert Link(s, n) && Dim(s, k, n, t, p);
      NoNegative(s, k, t, p, leftSide, s.left[n]);
      NoNegative(s, k, t, p, leftSide, s.right[n]);
    }
  }

  // ---------- red sibling ----------

  lemma RedSiblingDim(s: Links, k: Paint, t: Id, p: Id, w: Id, n: Id)
    requires Sinking(s, k, t, p, true) && t != s.root && !Red(k, t) && w == s.right[p] && In(s, w) && Red(k, w)
    requires !Red(k, p)
    requires n in s.nodes && w != t && w != p
    ensures CanTurnLeft(s, p) && Dim(LeftTurn(s, p), Lifted(k, w, p), n, t, p)
  {
    assert Dim(s, k, w, t, p) && Dim(s, k, n, t, p);
    LeftTurnWires(s, p, n);
    if n == p || n == w {
      assert Link(s, w) && Link(s, p);
    } else {
      RestKept(s, LeftTurn(s, p), k, Lifted(k, w, p), p, w, n, t);
    }
  }

  lemma RedSibling(s: Links, k: Paint, t: Id, p: Id)
    requires Sinking(s, k, t, p, true) && t != s.root && !Red(k, t) && Red(k, s.right[p])
    ensures CanTurnLeft(s, p) && Sinking(LeftTurn(s, p), Lifted(k, s.right[p], p), t, p, true)
    ensures LeftTurn(s, p).root != t && !Red(Lifted(k, s.right[p], p), LeftTurn(s, p).right[p])
    ensures !Red(Lifted(k, s.right[p], p), t)
    ensures LeftTurn(s, p).parent[s.nil] == s.parent[s.nil]
  {
    Sibling(s, k, t, p);
    LeftTurnShape(s, p);
    var w, s', k' := s.right[p], LeftTurn(s, p), Lifted(k, s.right[p], p);
    assert Link(s, w) && Link(s, p) && Dim(s, k, w, t, p);
    forall n | n in s.nodes
      ensures Dim(s', k', n, t, p)
    {
      RedSiblingDim(s, k, t, p, w, n);
    }
  }

  // ---------- black sibling with black children: the fault moves up ----------

  ghost function Drained(k: Paint, w: Id, p: Id): Paint {
    Paint(k.red[w := true], k.bh[w := Blacks(k, w) - 1][p := Blacks(k, p) - 1])
  }

  lemma DrainedDim(s: Links, k: Paint, t: Id, p: Id, w: Id, q: Id, n: Id)
    requires Short(s, k, t, p, true) && !Red(k, t) && w == s.right[p] && !Red(k, w) && w !in {p, t}
    requires Dim(s, k, w, t, p) && t != s.root
    requires !Red(k, s.left[w]) && !Red(k, s.right[w]) && Dim(s, k, n, t, p)
    requires n != p ==> w !in {s.left[n], s.right[n]}
    requires n == w || n == p ==> p !in {s.left[n], s.right[n]}
    requires p in {s.left[n], s.right[n]} ==> p != s.root && n == q
    ensures Dim(s, Drained(k, w, p), n, p, q)
  {
    if n == p || n == w {
    } else {
      assert Red(k, n) ==> !Red(k, s.left[n]) && !Red(k, s.right[n]) by {
        assert Calm(s, k, n, t) || n == t;
      }
    }
  }

  lemma DrainedDims(s: Links, k: Paint, t: Id, p: Id, w: Id, q: Id)
    requires Sinking(s, k, t, p, true) && t != s.root && !Red(k, t) && w == s.right[p] && In(s, w) && !Red(k, w)
    requires w !in {p, t}
    requires !Red(k, s.left[w]) && !Red(k, s.right[w]) && q == s.parent[p]
    ensures forall n {:trigger Dim(s, Drained(k, w, p), n, p, q)} :: n in s.nodes ==> Dim(s, Drained(k, w, p), n, p, q)
  {
    assert Link(s, p) && Link(s, w) && Dim(s, k, w, t, p);
    forall n | n in s.nodes
      ensures Dim(s, Drained(k, w, p), n, p, q)
    {
      assert Link(s, n) && Dim(s, k, n, t, p);
      DrainedDim(s, k, t, p, w, q, n);
    }
  }

  lemma BlackSibling(s: Links, k: Paint, t: Id, p: Id)
    requires Sinking(s, k, t, p, true) && t != s.root && !Red(k, t) && !Red(k, s.right[p])
    requires In(s, s.right[p]) && !Red(k, s.left[s.right[p]]) && !Red(k, s.right[s.right[p]])
    ensures p != s.root ==> In(s, s.parent[p])
    ensures Sinking(s, Drained(k, s.right[p], p), p, s.parent[p], p != s.root && s.left[s.parent[p]] == p)
  {
    Sibling(s, k, t, p);
    var w, q := s.right[p], s.parent[p];
    var k' := Drained(k, w, p);
    assert Link(s, p) && Link(s, w) && Dim(s, k, w, t, p);
    DrainedDims(s, k, t, p, w, q);
    if p != s.root {
      assert Link(s, q) && Dim(s, k, q, t, p);
      assert Short(s, k', p, q, s.left[q] == p);
    }
  }

  // ---------- black sibling with a red inner child ----------

  lemma InnerPairDim(s: Links, s': Links, k: Paint, t: Id, p: Id, w: Id, c: Id, n: Id)
    requires Dim(s, k, c, t, p) && Dim(s, k, w, t, p) && c != w && c == s.left[w] && Red(k, c) && !Red(k, w)
    requires !Red(k, s.right[w])
    requires w !in {t, p} && p != c && t != c && n in {c, w} && In(s', n) && !Red(k, t)
    requires c !in {s.left[c], s.right[c], s.right[w]} && w !in {s.left[c], s.right[c], s.right[w]}
    requires n == w ==> s'.right[w] == s.right[w] && s'.left[w] == s.right[c]
    requires n == c ==> s'.right[c] == w && s'.left[c] == s.left[c]
    ensures Dim(s', Lifted(k, c, w), n, t, p)
  {
  }

  lemma InnerNephewDim(s: Links, k: Paint, t: Id, p: Id, w: Id, c: Id, n: Id)
    requires Sinking(s, k, t, p, true) && t != s.root && !Red(k, t) && w == s.right[p] && In(s, w) && !Red(k, w)
    requires w != t && w != p
    requires c == s.left[w] && Red(k, c) && c != s.nil && !Red(k, s.right[w]) && n in s.nodes
    ensures CanTurnRight(s, w) && Dim(RightTurn(s, w), Lifted(k, c, w), n, t, p)
  {
    assert Link(s, w);
    assert Dim(s, k, c, t, p) && Dim(s, k, w, t, p) && Dim(s, k, n, t, p);
    RightTurnWires(s, w, n);
    if n == c || n == w {
      assert Link(s, c);
      InnerPairDim(s, RightTurn(s, w), k, t, p, w, c, n);
    } else {
      RestKept(s, RightTurn(s, w), k, Lifted(k, c, w), w, c, n, t);
    }
  }

  lemma InnerNephew(s: Links, k: Paint, t: Id, p: Id)
    requires Sinking(s, k, t, p, true) && t != s.root && !Red(k, t) && !Red(k, s.right[p])
    requires In(s, s.right[p]) && Red(k, s.left[s.right[p]]) && !Red(k, s.right[s.right[p]])
    ensures CanTurnRight(s, s.right[p])
    ensures
      var w := s.right[p];
      var s', k' := RightTurn(s, w), Lifted(k, s.left[w], w);
      && Sinking(s', k', t, p, true) && t != s'.root && !Red(k', t)
      && s'.right[p] == s.left[w] && !Red(k', s'.right[p]) && In(s', s'.right[p]) && Red(k', s'.right[s'.right[p]])
      && s'.parent[s.nil] == s.parent[s.nil]
  {
    Sibling(s, k, t, p);
    var w := s.right[p];
    assert Link(s, w) && Link(s, p);
    var c := s.left[w];
    assert w != s.root;
    RightTurnShape(s, w);
    InnerNephewFields(s, t, p, w, c);
    InnerNephewDims(s, k, t, p, w, c);
    InnerNephewSinks(s, RightTurn(s, w), k, t, p, w, c);
  }

  lemma InnerNephewFields(s: Links, t: Id, p: Id, w: Id, c: Id)
    requires Linked(s) && In(s, p) && s.left[p] == t && s.right[p] == w && In(s, w) && s.left[w] == c && c != s.nil
    requires t != w
    requires CanTurnRight(s, w)
    ensures Reshaped(s, RightTurn(s, w), t, p, w, c)
  {
    assert Link(s, w) && Link(s, p);
    assert w != s.root;
    RightTurnWires(s, w, p);
    RightTurnWires(s, w, c);
    RightTurnUp(s, w, s.nil);
    if t != s.nil {
      assert Link(s, c) && s.parent[t] == p && t != c && t != s.right[c];
      RightTurnUp(s, w, t);
    }
  }

  /** The links near the sibling after its rotation. */
  ghost predicate Reshaped(s: Links, s': Links, t: Id, p: Id, w: Id, c: Id) {
    && s'.order == s.order && s'.nodes == s.nodes && s'.nil == s.nil && s'.root == s.root
    && p in s'.left && s'.left[p] == t && p in s'.right && s'.right[p] == c && c in s'.right && s'.right[c] == w
    && (t != s.nil ==> t in s'.parent && t in s.parent && s'.parent[t] == s.parent[t])
    && s.nil in s.parent && s.nil in s'.parent && s'.parent[s.nil] == s.parent[s.nil]
  }

  lemma InnerNephewSinks(s: Links, s': Links, k: Paint, t: Id, p: Id, w: Id, c: Id)
    requires Sinking(s, k, t, p, true) && t != s.root && !Red(k, t) && w == s.right[p] && In(s, w) && !Red(k, w)
    requires w != t && w != p
    requires c == s.left[w] && Red(k, c) && c != s.nil && !Red(k, s.right[w])
    requires Shape(s') && Reshaped(s, s', t, p, w, c)
    requires forall n {:trigger Dim(s', Lifted(k, c, w), n, t, p)} :: n in s.nodes ==> Dim(s', Lifted(k, c, w), n, t, p)
    ensures Sinking(s', Lifted(k, c, w), t, p, true)
  {
    assert Link(s, w) && Link(s, p) && Dim(s, k, w, t, p) && Dim(s, k, c, t, p);
    assert Link(s', p) && (t != s.nil ==> Link(s', t));
  }

  lemma InnerNephewDims(s: Links, k: Paint, t: Id, p: Id, w: Id, c: Id)
    requires Sinking(s, k, t, p, true) && t != s.root && !Red(k, t) && w == s.right[p] && In(s, w) && !Red(k, w)
    requires w != t && w != p
    requires c == s.left[w] && Red(k, c) && c != s.nil && !Red(k, s.right[w])
    requires CanTurnRight(s, w)
    ensures forall n {:trigger Dim(RightTurn(s, w), Lifted(k, c, w), n, t, p)} :: n in s.nodes ==>
      Dim(RightTurn(s, w), Lifted(k, c, w), n, t, p)
  {
    forall n | n in s.nodes
      ensures Dim(RightTurn(s, w), Lifted(k, c, w), n, t, p)
    {
      InnerNephewDim(s, k, t, p, w, c, n);
    }
  }

  // ---------- black sibling with a red outer child: the fault is mended ----------

  ghost function Mended(k: Paint, p: Id, w: Id, r: Id): Paint {
    Paint(k.red[w := Red(k, p)][p := false][r := false],
          k.bh[w := Blacks(k, p)][p := Blacks(k, w)][r := Blacks(k, r) + 1])
  }

  lemma MendedTone(s: Links, s': Links, k: Paint, t: Id, p: Id, w: Id, r: Id, n: Id)
    requires Short(s, k, t, p, true) && In(s, w) && Dim(s, k, w, t, p) && Dim(s, k, n, t, p) && NilBlack(s, k)
    requires s.nil !in {p, w}
    requires w == s.right[p] && r == s.right[w] && !Red(k, t) && !Red(k, w) && Red(k, r) && r !in {t, p, w}
    requires w !in {t, p}
    requires Rewired(s, s', p, w, n) && s.left[w] !in {p, w, r}
    requires n == p ==> s'.left[p] == t && s'.right[p] == s.left[w]
    requires n == w ==> s'.left[w] == p && s'.right[w] == r
    requires n != p && n != w ==>
      w !in {s.left[n], s.right[n]} && r !in {s.left[n], s.right[n]} && t !in {s.left[n], s.right[n]} - {s.nil}
    requires n == r ==> p !in {s.left[n], s.right[n]}
    ensures Tone(s', Mended(k, p, w, r), n, s.nil)
  {
    if n != p && n != w && n != r {
      RestKept(s, s', k, Mended(k, p, w, r), p, w, n, s.nil);
    }
  }

  lemma OuterNephewTone(s: Links, k: Paint, t: Id, p: Id, w: Id, r: Id, n: Id)
    requires Sinking(s, k, t, p, true) && t != s.root && !Red(k, t) && w == s.right[p] && In(s, w) && !Red(k, w)
    requires w != t && w != p
    requires r == s.right[w] && Red(k, r) && In(s, r) && n in s.nodes
    ensures CanTurnLeft(s, p) && Tone(LeftTurn(s, p), Mended(k, p, w, r), n, s.nil)
  {
    assert Dim(s, k, w, t, p) && Dim(s, k, n, t, p);
    assert Link(s, w) && Link(s, n) && Link(s, p);
    LeftTurnWires(s, p, n);
    MendedTone(s, LeftTurn(s, p), k, t, p, w, r, n);
  }

  lemma OuterNephew(s: Links, k: Paint, t: Id, p: Id)
    requires Sinking(s, k, t, p, true) && t != s.root && !Red(k, t) && !Red(k, s.right[p])
    requires In(s, s.right[p]) && Red(k, s.right[s.right[p]])
    ensures CanTurnLeft(s, p)
    ensures RedBlack(LeftTurn(s, p), Mended(k, p, s.right[p], s.right[s.right[p]]))
  {
    Sibling(s, k, t, p);
    var w := s.right[p];
    assert Link(s, w) && Link(s, p);
    var r := s.right[w];
    assert Link(s, r);
    LeftTurnShape(s, p);
    forall n | n in s.nodes
      ensures Tone(LeftTurn(s, p), Mended(k, p, w, r), n, s.nil)
    {
      OuterNephewTone(s, k, t, p, w, r, n);
    }
  }

  // ---------- the end of the loop ----------

  ghost function Blackened(k: Paint, t: Id): Paint {
    Paint(k.red[t := false], if Red(k, t) then k.bh[t := Blacks(k, t) + 1] else k.bh)
  }

  lemma BlackenedTone(s: Links, k: Paint, t: Id, p: Id, leftSide: bool, n: Id)
    requires Dim(s, k, n, t, p) && NilBlack(s, k) && t != s.nil && (t == s.root || Red(k, t)) && In(s, t)
    requires t != s.root ==> Short(s, k, t, p, leftSide) && s.left[p] != s.right[p]
    requires t in {s.left[n], s.right[n]} ==> t != s.root && n == p
    requires n == p && t != s.root ==> t !in {s.left[t], s.right[t]}
    requires n == t ==> Even(s, k, n)
    ensures Tone(s, Blackened(k, t), n, s.nil)
  {
  }

  lemma Mend(s: Links, k: Paint, t: Id, p: Id, leftSide: bool)
    requires Sinking(s, k, t, p, leftSide) && (t == s.root || Red(k, t))
    ensures RedBlack(s, Blackened(k, t))
  {
    assert t != s.nil;
    assert Link(s, t) && Dim(s, k, t, t, p);
    if t != s.root {
      assert Link(s, p);
    }
    forall n | n in s.nodes
      ensures Tone(s, Blackened(k, t), n, s.nil)
    {
      assert Dim(s, k, n, t, p) && Link(s, n);
      assert t in {s.left[n], s.right[n]} ==> t != s.root && n == p;
      BlackenedTone(s, k, t, p, leftSide, n);
    }
  }

  // ---------- the mirror images ----------

  lemma SiblingRight(s: Links, k: Paint, t: Id, p: Id)
    requires Sinking(s, k, t, p, false) && t != s.root && !Red(k, t)
    ensures In(s, s.left[p]) && s.left[p] != t && s.left[p] != p
  {
    MirrorSinking(s, k, t, p, false);
    Sibling(Mirror(s), k, t, p);
  }

  lemma RedSiblingRight(s: Links, k: Paint, t: Id, p: Id)
    requires Sinking(s, k, t, p, false) && t != s.root && !Red(k, t) && Red(k, s.left[p])
    ensures CanTurnRight(s, p) && Sinking(RightTurn(s, p), Lifted(k, s.left[p], p), t, p, false)
    ensures RightTurn(s, p).root != t && !Red(Lifted(k, s.left[p], p), RightTurn(s, p).left[p])
    ensures !Red(Lifted(k, s.left[p], p), t)
    ensures RightTurn(s, p).parent[s.nil] == s.parent[s.nil]
  {
    MirrorSinking(s, k, t, p, false);
    RedSibling(Mirror(s), k, t, p);
    MirrorSinking(LeftTurn(Mirror(s), p), Lifted(k, s.left[p], p), t, p, true);
  }

  lemma BlackSiblingRight(s: Links, k: Paint, t: Id, p: Id)
    requires Sinking(s, k, t, p, false) && t != s.root && !Red(k, t) && !Red(k, s.left[p])
    requires In(s, s.left[p]) && !Red(k, s.left[s.left[p]]) && !Red(k, s.right[s.left[p]])
    ensures p != s.root ==> In(s, s.parent[p])
    ensures Sinking(s, Drained(k, s.left[p], p), p, s.parent[p], !(p != s.root && s.right[s.parent[p]] == p))
  {
    MirrorSinking(s, k, t, p, false);
    MirrorTwice(s);
    BlackSibling(Mirror(s), k, t, p);
    MirrorSinking(Mirror(s), Drained(k, s.left[p], p), p, s.parent[p], p != s.root && s.right[s.parent[p]] == p);
  }

  lemma InnerNephewRight(s: Links, k: Paint, t: Id, p: Id)
    requires Sinking(s, k, t, p, false) && t != s.root && !Red(k, t) && !Red(k, s.left[p])
    requires In(s, s.left[p]) && Red(k, s.right[s.left[p]]) && !Red(k, s.left[s.left[p]])
    ensures CanTurnLeft(s, s.left[p])
    ensures
      var w := s.left[p];
      var s', k' := LeftTurn(s, w), Lifted(k, s.right[w], w);
      && Sinking(s', k', t, p, false) && t != s'.root && !Red(k', t)
      && s'.left[p] == s.right[w] && !Red(k', s'.left[p]) && In(s', s'.left[p]) && Red(k', s'.left[s'.left[p]])
      && s'.parent[s.nil] == s.parent[s.nil]
  {
    MirrorSinking(s, k, t, p, false);
    MirrorTwice(s);
    var m, w := Mirror(s), s.left[p];
    InnerNephew(m, k, t, p);
    MirrorTwice(LeftTurn(s, w));
    MirrorSinking(RightTurn(m, w), Lifted(k, s.right[w], w), t, p, true);
  }

  lemma OuterNephewRight(s: Links, k: Paint, t: Id, p: Id)
    requires Sinking(s, k, t, p, false) && t != s.root && !Red(k, t) && !Red(k, s.left[p])
    requires In(s, s.left[p]) && Red(k, s.left[s.left[p]])
    ensures CanTurnRight(s, p)
    ensures RedBlack(RightTurn(s, p), Mended(k, p, s.left[p], s.left[s.left[p]]))
  {
    MirrorSinking(s, k, t, p, false);
    OuterNephew(Mirror(s), k, t, p);
    MirrorRedBlack(LeftTurn(Mirror(s), p), Mended(k, p, s.left[p], s.left[s.left[p]]));
  }

  lemma MirrorRedBlack(s: Links, k: Paint)
    requires RedBlack(s, k)
    ensures RedBlack(Mirror(s), k)
  {
    MirrorShape(s);
    forall n | n in s.nodes
      ensures Tone(Mirror(s), k, n, s.nil)
    {
      assert Tone(s, k, n, s.nil);
    }
  }

  /** A tree without faults is a loop state that has arrived at the root. */
  lemma ArrivedAtRoot(s: Links, k: Paint, p: Id, leftSide: bool)
    requires RedBlack(s, k) && s.order != []
    ensures Sinking(s, k, s.root, p, leftSide)
  {
    forall n | n in s.nodes
      ensures Dim(s, k, n, s.root, p)
    {
      assert Tone(s, k, n, s.nil);
    }
  }
}
