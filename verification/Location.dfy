/** Static location lookup: `night_filename_cmp` and `night_http_core_find_static_location`. */
module Location {
  import opened Basics

  /** A byte of a name or of the URI, as the signed char the code compares. */
  type Byte = x: int | -128 <= x < 128

  type Name = seq<Byte>

  const SLASH: Byte := 47

  // ---------- the comparison ----------

  /** The order of single bytes: as signed numbers, with the slash just above the zero byte. */
  function Rank(c: Byte): int {
    if c == SLASH then 1 else if c <= 0 then 2 * c else 2 * c + 2
  }

  lemma RankInjective(a: Byte, b: Byte)
    requires Rank(a) == Rank(b)
    ensures a == b
  {
  }

  /** The order of two bytes without `Rank`: the slash is behind the zero byte and before every positive one, and
      otherwise the smaller number comes first. */
  lemma RankOrder(a: Byte, b: Byte)
    requires a != b
    ensures Rank(a) < Rank(b) <==> if b == SLASH then a <= 0 else if a == SLASH then b > 0 else a < b
  {
  }

  /** The names have the same letters, in any case. */
  predicate CaseOnly(s: Name, t: Name) {
    |s| == |t| && forall i :: 0 <= i < |s| ==> SameLetter(s[i], t[i])
  }

  lemma CaseOnlyFolds(s: Name, t: Name)
    ensures CaseOnly(s, t) <==> |s| == |t| && forall i :: 0 <= i < |s| ==> Lower(s[i]) == Lower(t[i])
  {
    forall i | 0 <= i < |s| && i < |t|
      ensures SameLetter(s[i], t[i]) <==> Lower(s[i]) == Lower(t[i])
    {
      FoldsTogether(s[i], t[i]);
    }
  }

  /** d is the first index at which the names differ. */
  predicate DiffersAt(s: Name, t: Name, d: int) {
    0 <= d < |s| && d < |t| && Lower(s[d]) != Lower(t[d]) && forall i :: 0 <= i < d ==> Lower(s[i]) == Lower(t[i])
  }

  /** The comparison of n bytes is decided at d: before it the names agree and show no zero byte. */
  predicate DecidedAt(s: Name, t: Name, n: nat, d: int) {
    d < n && DiffersAt(s, t, d) && forall i :: 0 <= i < d ==> s[i] != 0
  }

  /** `night_filename_cmp`: the first n bytes, without case, in the order of `Rank`; a common zero byte ends both
      names. */
  method FilenameCmp(s1: Name, s2: Name, n: nat) returns (rc: int)
    requires n <= |s1| && n <= |s2|
    ensures rc < 0 <==> exists d :: DecidedAt(s1, s2, n, d) && Rank(Lower(s1[d])) < Rank(Lower(s2[d]))
    ensures rc > 0 <==> exists d :: DecidedAt(s1, s2, n, d) && Rank(Lower(s1[d])) > Rank(Lower(s2[d]))
    ensures CaseOnly(s1[..n], s2[..n]) ==> rc == 0
    ensures rc == 0 && (forall i :: 0 <= i < n ==> s1[i] != 0) ==> CaseOnly(s1[..n], s2[..n])
  {
    CaseOnlyFolds(s1[..n], s2[..n]);
    var k := 0;
    while k < n
      invariant k <= n && forall i :: 0 <= i < k ==> Lower(s1[i]) == Lower(s2[i]) && s1[i] != 0
    {
      var c1: int, c2: int := Lower(s1[k]), Lower(s2[k]);
      if c1 == c2 {
        if c1 != 0 {
          k := k + 1;
          continue;
        }
        return 0;
      }
      assert DecidedAt(s1, s2, n, k);
      assert forall d :: DecidedAt(s1, s2, n, d) ==> d == k;
      if c1 == 0 || c2 == 0 {
        return c1 - c2;
      }
      c1 := if c1 == SLASH then 0 else c1;
      c2 := if c2 == SLASH then 0 else c2;
      return c1 - c2;
    }
    return 0;
  }

  // ---------- the order of names ----------

  /** s, without case, is a prefix of t. */
  predicate Prefix(s: Name, t: Name) {
    |s| <= |t| && forall i :: 0 <= i < |s| ==> Lower(s[i]) == Lower(t[i])
  }

  predicate Below(s: Name, t: Name, d: int) {
    DiffersAt(s, t, d) && Rank(Lower(s[d])) < Rank(Lower(t[d]))
  }

  /** The order of a level: decided by the first difference, a proper prefix coming first. */
  ghost predicate Less(s: Name, t: Name) {
    (Prefix(s, t) && |s| < |t|) || exists d :: Below(s, t, d)
  }

  lemma LessIrreflexive(s: Name, t: Name)
    requires Prefix(s, t) && |s| == |t|
    ensures !Less(s, t)
  {
  }

  lemma {:induction false} LessTotal(s: Name, t: Name)
    ensures Less(s, t) || Less(t, s) || (Prefix(s, t) && |s| == |t|)
  {
    var d := 0;
    while d < |s| && d < |t| && Lower(s[d]) == Lower(t[d])
      invariant d <= |s| && d <= |t| && forall i :: 0 <= i < d ==> Lower(s[i]) == Lower(t[i])
    {
      d := d + 1;
    }
    if d < |s| && d < |t| {
      assert DiffersAt(s, t, d) && DiffersAt(t, s, d);
      if Rank(Lower(s[d])) == Rank(Lower(t[d])) {
        RankInjective(Lower(s[d]), Lower(t[d]));
      }
      assert Below(s, t, d) || Below(t, s, d);
    }
  }

  lemma LessTransitive(r: Name, s: Name, t: Name)
    requires Less(r, s) && Less(s, t)
    ensures Less(r, t)
  {
    if d :| Below(r, s, d) {
      if e :| Below(s, t, e) {
        var m := if d < e then d else e;
        assert Below(r, t, m);
      } else {
        if d < |t| {
          assert Below(r, t, d);
        }
      }
    } else if e :| Below(s, t, e) {
      if e < |r| {
        assert Below(r, t, e);
      }
    }
  }

  /** What lies in a directory comes before every name that goes on with another printable byte. */
  lemma DirectoryFirst(p: Name, x: Name, c: Byte, y: Name)
    requires 0 < c != SLASH
    ensures Less(p, p + [SLASH] + x) && Less(p + [SLASH] + x, p + [c] + y)
  {
    var s, t := p + [SLASH] + x, p + [c] + y;
    assert Prefix(p, s);
    assert DiffersAt(s, t, |p|);
    assert Below(s, t, |p|);
  }

  // ---------- the tree of trees ----------

  /** A configuration that can be selected, with the tree of the locations nested in it. */
  datatype Conf = Conf(id: int, locations: LocationTree)

  datatype LocationTree = Nil | Node(name: Name, exact: Option<Conf>, inclusive: Option<Conf>, left: LocationTree,
    right: LocationTree, sub: LocationTree)

  /** The nodes of one level, a binary search tree. */
  ghost function Level(t: LocationTree): set<LocationTree> {
    if t.Nil? then {} else {t} + Level(t.left) + Level(t.right)
  }

  /** An inclusive location is not a proper prefix of another name on its level: that name would be nested in it. */
  ghost predicate Apart(a: LocationTree, b: LocationTree)
    requires a.Node? && b.Node?
  {
    a.inclusive.Some? && Prefix(a.name, b.name) ==> |a.name| == |b.name|
  }

  ghost predicate NodeOk(x: LocationTree)
    requires x.Node?
  {
    && (forall i :: 0 <= i < |x.name| ==> x.name[i] != 0)
    && (x.exact.Some? || x.inclusive.Some?)
    && (x.inclusive.None? ==> x.sub.Nil?)
    && (forall m :: m in Level(x.sub) ==> m.Node? && m.name != [])
  }

  ghost predicate WellFormed(t: LocationTree) {
    t.Nil? ||
    (&& NodeOk(t) && WellFormed(t.left) && WellFormed(t.right) && WellFormed(t.sub)
     && (forall m :: m in Level(t.left) ==> m.Node? && Less(m.name, t.name) && Apart(m, t) && Apart(t, m))
     && (forall m :: m in Level(t.right) ==> m.Node? && Less(t.name, m.name) && Apart(m, t) && Apart(t, m)))
  }

  lemma {:induction false} LevelNodes(t: LocationTree, m: LocationTree)
    requires WellFormed(t) && m in Level(t)
    ensures m.Node? && NodeOk(m) && WellFormed(m)
  {
    if m in Level(t.left) {
      LevelNodes(t.left, m);
    } else if m in Level(t.right) {
      LevelNodes(t.right, m);
    }
  }

  /** The node can have an entry that matches the URI. */
  predicate Relevant(m: LocationTree, uri: Name) {
    m.Node? && Prefix(m.name, uri) && (m.inclusive.Some? || |m.name| == |uri|)
  }

  // ---------- one comparison rules out one side ----------

  lemma PrefixNotAbove(s: Name, uri: Name, x: Name)
    requires Prefix(s, uri) && Less(uri, x)
    ensures !Less(x, s)
  {
    if Less(x, s) {
      LessTransitive(uri, x, s);
    }
  }

  /** The URI is below x: nothing on the right matters. */
  lemma GoLeft(t: LocationTree, uri: Name, m: LocationTree)
    requires WellFormed(t) && t.Node? && m in Level(t) && Relevant(m, uri) && Less(uri, t.name)
    ensures m in Level(t.left)
  {
    PrefixNotAbove(m.name, uri, t.name);
  }

  /** The URI is above x at a difference: nothing on the left matters. */
  lemma GoRightAbove(t: LocationTree, uri: Name, m: LocationTree, d: int)
    requires WellFormed(t) && t.Node? && m in Level(t) && Relevant(m, uri) && Below(t.name, uri, d)
    ensures m in Level(t.right)
  {
    if m in Level(t.left) && m !in Level(t.right) {
      assert Less(m.name, t.name);
      assert |m.name| <= d by {
        if d < |m.name| {
          assert Below(t.name, m.name, d);
          LessTransitive(m.name, t.name, m.name);
        }
      }
      assert Prefix(m.name, t.name);
    }
  }

  /** x is a proper prefix of the URI without an inclusive entry: nothing on the left matters. */
  lemma GoRightPast(t: LocationTree, uri: Name, m: LocationTree)
    requires WellFormed(t) && t.Node? && m in Level(t) && Relevant(m, uri)
    requires Prefix(t.name, uri) && |t.name| < |uri| && t.inclusive.None?
    ensures m in Level(t.right)
  {
    if m in Level(t.left) && m !in Level(t.right) {
      BothPrefixes(m.name, t.name, uri);
    }
  }

  lemma BothPrefixes(a: Name, b: Name, uri: Name)
    requires Prefix(a, uri) && Prefix(b, uri)
    ensures |a| <= |b| ==> Prefix(a, b)
    ensures |b| <= |a| ==> Prefix(b, a)
  {
  }

  /** x matches and is relevant: no other node of the level is. */
  lemma StopHere(t: LocationTree, uri: Name, m: LocationTree)
    requires WellFormed(t) && Relevant(t, uri) && m in Level(t) && Relevant(m, uri)
    ensures m == t
  {
    if m != t {
      BothPrefixes(m.name, t.name, uri);
      assert Less(m.name, t.name) || Less(t.name, m.name);
      assert Apart(m, t) && Apart(t, m);
      if |m.name| == |t.name| {
        LessIrreflexive(m.name, t.name);
        LessIrreflexive(t.name, m.name);
      }
    }
  }

  // ---------- what the lookup should find ----------

  /** The node contributes this entry: its own, or one nested below it, under its full name. */
  ghost predicate Owns(m: LocationTree, n: Name, exact: bool, c: Conf)
    decreases m, 0
  {
    m.Node? &&
    (|| (n == m.name && (if exact then m.exact else m.inclusive) == Some(c))
     || (m.name <= n && Has(m.sub, n[|m.name|..], exact, c)))
  }

  /** The tree holds this location. */
  ghost predicate Has(t: LocationTree, n: Name, exact: bool, c: Conf)
    decreases t, 1
  {
    t.Node? && (Owns(t, n, exact, c) || Has(t.left, n, exact, c) || Has(t.right, n, exact, c))
  }

  datatype Outcome = Found(conf: Conf) | Again(conf: Conf) | Declined

  /** A location `= name` equal to the URI. */
  ghost predicate ExactHit(t: LocationTree, uri: Name, n: Name, c: Conf) {
    Has(t, n, true, c) && Prefix(n, uri) && |n| == |uri|
  }

  /** A location whose name is a prefix of the URI. */
  ghost predicate PrefixHit(t: LocationTree, uri: Name, n: Name, c: Conf) {
    Has(t, n, false, c) && Prefix(n, uri)
  }

  /** The documented rule: the exact location if there is one, else the longest prefix, else none. */
  ghost predicate Selects(t: LocationTree, uri: Name, o: Outcome) {
    match o
    case Found(c) => exists n :: ExactHit(t, uri, n, c)
    case Again(c) =>
      && (forall n, c' :: !ExactHit(t, uri, n, c'))
      && exists n :: PrefixHit(t, uri, n, c) && forall n', c' :: PrefixHit(t, uri, n', c') ==> |n'| <= |n|
    case Declined => forall n, c :: !ExactHit(t, uri, n, c) && !PrefixHit(t, uri, n, c)
  }

  // ---------- hits and their owners ----------

  lemma {:induction false} OwnerOf(t: LocationTree, n: Name, exact: bool, c: Conf) returns (m: LocationTree)
    requires Has(t, n, exact, c)
    ensures m in Level(t) && Owns(m, n, exact, c)
  {
    if Owns(t, n, exact, c) {
      m := t;
    } else if Has(t.left, n, exact, c) {
      m := OwnerOf(t.left, n, exact, c);
    } else {
      m := OwnerOf(t.right, n, exact, c);
    }
  }

  lemma {:induction false} OwnedIsHeld(t: LocationTree, m: LocationTree, n: Name, exact: bool, c: Conf)
    requires m in Level(t) && Owns(m, n, exact, c)
    ensures Has(t, n, exact, c)
  {
    if m != t {
      if m in Level(t.left) {
        OwnedIsHeld(t.left, m, n, exact, c);
      } else {
        OwnedIsHeld(t.right, m, n, exact, c);
      }
    }
  }

  ghost predicate Hit(uri: Name, n: Name, exact: bool) {
    Prefix(n, uri) && (exact ==> |n| == |uri|)
  }

  lemma HitIsRelevant(m: LocationTree, uri: Name, n: Name, exact: bool, c: Conf)
    requires m.Node? && NodeOk(m) && Owns(m, n, exact, c) && Hit(uri, n, exact)
    ensures Relevant(m, uri)
  {
    if m.name <= n {
      assert Prefix(m.name, n);
    }
  }

  /** If all relevant nodes of t are in its part t', then t and t' have the same hits. */
  lemma SameHits(t: LocationTree, t': LocationTree, uri: Name, n: Name, exact: bool, c: Conf)
    requires WellFormed(t) && Level(t') <= Level(t) && Hit(uri, n, exact)
    requires forall m :: m in Level(t) && Relevant(m, uri) ==> m in Level(t')
    ensures Has(t, n, exact, c) <==> Has(t', n, exact, c)
  {
    if Has(t, n, exact, c) {
      var m := OwnerOf(t, n, exact, c);
      LevelNodes(t, m);
      HitIsRelevant(m, uri, n, exact, c);
      OwnedIsHeld(t', m, n, exact, c);
    }
    if Has(t', n, exact, c) {
      var m := OwnerOf(t', n, exact, c);
      OwnedIsHeld(t, m, n, exact, c);
    }
  }

  lemma PartSelects(t: LocationTree, t': LocationTree, uri: Name, o: Outcome)
    requires WellFormed(t) && Level(t') <= Level(t) && Selects(t', uri, o)
    requires forall m :: m in Level(t) && Relevant(m, uri) ==> m in Level(t')
    ensures Selects(t, uri, o)
  {
    forall n, c
      ensures ExactHit(t, uri, n, c) <==> ExactHit(t', uri, n, c)
      ensures PrefixHit(t, uri, n, c) <==> PrefixHit(t', uri, n, c)
    {
      if Hit(uri, n, true) {
        SameHits(t, t', uri, n, true, c);
      }
      if Hit(uri, n, false) {
        SameHits(t, t', uri, n, false, c);
      }
    }
  }

  // ---------- the search ----------

  /** The search of `night_http_core_find_static_location`, by recursion. */
  ghost function Find(t: LocationTree, uri: Name): Outcome
    requires WellFormed(t)
  {
    if t.Nil? then Declined
    else if exists d :: Below(uri, t.name, d) then Find(t.left, uri)
    else if exists d :: Below(t.name, uri, d) then Find(t.right, uri)
    else if |uri| > |t.name| then
      if t.inclusive.Some? then Deeper(t.inclusive.value, Find(t.sub, uri[|t.name|..]))
      else Find(t.right, uri)
    else if |uri| == |t.name| then
      if t.exact.Some? then Found(t.exact.value) else Again(t.inclusive.value)
    else Find(t.left, uri)
  }

  /** What a nested search finds replaces the enclosing prefix location. */
  function Deeper(c: Conf, o: Outcome): Outcome {
    if o.Declined? then Again(c) else o
  }

  /** Two names that differ nowhere on their common length: one is a prefix of the other. */
  lemma NoDifference(s: Name, t: Name)
    requires !(exists d :: Below(s, t, d)) && !(exists d :: Below(t, s, d))
    ensures |s| <= |t| ==> Prefix(s, t)
    ensures |t| <= |s| ==> Prefix(t, s)
  {
    LessTotal(s, t);
  }

  /** In the sub-tree of an inclusive prefix, the hits are those of the whole tree without that prefix. */
  lemma NestedHits(t: LocationTree, uri: Name, n: Name, exact: bool, c: Conf)
    requires WellFormed(t) && Relevant(t, uri) && |t.name| < |uri| && Hit(uri, n, exact)
    ensures Has(t, n, exact, c) <==>
              || (!exact && n == t.name && t.inclusive == Some(c))
              || (t.name <= n && Has(t.sub, n[|t.name|..], exact, c))
  {
    if Has(t, n, exact, c) {
      var m := OwnerOf(t, n, exact, c);
      LevelNodes(t, m);
      HitIsRelevant(m, uri, n, exact, c);
      StopHere(t, uri, m);
    }
  }

  lemma NestedHit(name: Name, uri: Name, n: Name, exact: bool)
    requires Prefix(name, uri)
    ensures Hit(uri, name + n, exact) <==> Hit(uri[|name|..], n, exact)
  {
    var rest := uri[|name|..];
    if Hit(uri, name + n, exact) {
      forall i | 0 <= i < |n|
        ensures Lower(n[i]) == Lower(rest[i])
      {
        assert n[i] == (name + n)[|name| + i];
      }
    }
    if Hit(rest, n, exact) {
      forall i | 0 <= i < |name + n|
        ensures Lower((name + n)[i]) == Lower(uri[i])
      {
        if i >= |name| {
          assert uri[i] == rest[i - |name|];
        }
      }
    }
  }

  lemma SuffixUp(t: LocationTree, uri: Name, n: Name, exact: bool, c: Conf)
    requires WellFormed(t) && Relevant(t, uri) && |t.name| < |uri| && Has(t.sub, n, exact, c)
    requires Hit(uri[|t.name|..], n, exact)
    ensures Has(t, t.name + n, exact, c) && Hit(uri, t.name + n, exact)
  {
    NestedHit(t.name, uri, n, exact);
    assert (t.name + n)[|t.name|..] == n;
    NestedHits(t, uri, t.name + n, exact, c);
  }

  lemma SuffixDown(t: LocationTree, uri: Name, n: Name, exact: bool, c: Conf)
    requires WellFormed(t) && Relevant(t, uri) && |t.name| < |uri| && Has(t, n, exact, c) && Hit(uri, n, exact)
    ensures t.name <= n
    ensures (!exact && n == t.name)
      || (Has(t.sub, n[|t.name|..], exact, c) && Hit(uri[|t.name|..], n[|t.name|..], exact))
  {
    NestedHits(t, uri, n, exact, c);
    assert n == t.name + n[|t.name|..];
    NestedHit(t.name, uri, n[|t.name|..], exact);
  }

  lemma NoExactBelow(t: LocationTree, uri: Name)
    requires WellFormed(t) && Relevant(t, uri) && |t.name| < |uri|
    requires forall n, c :: !ExactHit(t.sub, uri[|t.name|..], n, c)
    ensures forall n, c :: !ExactHit(t, uri, n, c)
  {
    forall n, c
      ensures !ExactHit(t, uri, n, c)
    {
      if ExactHit(t, uri, n, c) {
        SuffixDown(t, uri, n, true, c);
        assert ExactHit(t.sub, uri[|t.name|..], n[|t.name|..], c);
      }
    }
  }

  lemma NestedSelects(t: LocationTree, uri: Name, o: Outcome)
    requires WellFormed(t) && Relevant(t, uri) && |t.name| < |uri| && t.inclusive.Some?
    requires Selects(t.sub, uri[|t.name|..], o)
    ensures Selects(t, uri, Deeper(t.inclusive.value, o))
  {
    var rest := uri[|t.name|..];
    match o {
      case Found(c) =>
        var n :| ExactHit(t.sub, rest, n, c);
        SuffixUp(t, uri, n, true, c);
        assert ExactHit(t, uri, t.name + n, c);
      case Again(c) =>
        NoExactBelow(t, uri);
        var n :| PrefixHit(t.sub, rest, n, c) && forall n', c' :: PrefixHit(t.sub, rest, n', c') ==> |n'| <= |n|;
        SuffixUp(t, uri, n, false, c);
        assert PrefixHit(t, uri, t.name + n, c);
        forall n', c' | PrefixHit(t, uri, n', c')
          ensures |n'| <= |t.name + n|
        {
          SuffixDown(t, uri, n', false, c');
          assert n' != t.name ==> PrefixHit(t.sub, rest, n'[|t.name|..], c');
        }
      case Declined =>
        NoExactBelow(t, uri);
        assert Owns(t, t.name, false, t.inclusive.value);
        assert PrefixHit(t, uri, t.name, t.inclusive.value);
        forall n', c' | PrefixHit(t, uri, n', c')
          ensures |n'| <= |t.name|
        {
          SuffixDown(t, uri, n', false, c');
          assert n' != t.name ==> PrefixHit(t.sub, rest, n'[|t.name|..], c');
        }
    }
  }

  /** The URI is x itself: an exact entry wins, and otherwise no prefix can be longer. */
  lemma EqualSelects(t: LocationTree, uri: Name)
    requires WellFormed(t) && t.Node? && Prefix(t.name, uri) && |t.name| == |uri|
    ensures Selects(t, uri, if t.exact.Some? then Found(t.exact.value) else Again(t.inclusive.value))
  {
    if t.exact.Some? {
      assert ExactHit(t, uri, t.name, t.exact.value);
    } else {
      assert PrefixHit(t, uri, t.name, t.inclusive.value);
      forall n, c
        ensures !ExactHit(t, uri, n, c)
      {
        if ExactHit(t, uri, n, c) {
          var m := OwnerOf(t, n, true, c);
          LevelNodes(t, m);
          HitIsRelevant(m, uri, n, true, c);
          StopHere(t, uri, m);
          assert t.name <= n ==> n[|t.name|..] == [];
          EmptySuffix(t.sub, true, c);
        }
      }
    }
  }

  /** A nested location has a non-empty suffix. */
  lemma EmptySuffix(sub: LocationTree, exact: bool, c: Conf)
    requires forall m :: m in Level(sub) ==> m.Node? && m.name != []
    ensures !Has(sub, [], exact, c)
  {
    if Has(sub, [], exact, c) {
      var m := OwnerOf(sub, [], exact, c);
    }
  }

  /** On every well-formed tree and every URI, the search follows the documented rule. */
  lemma {:induction false} FindSelects(t: LocationTree, uri: Name)
    requires WellFormed(t)
    ensures Selects(t, uri, Find(t, uri))
    decreases t
  {
    if t.Nil? {
    } else if d :| Below(uri, t.name, d) {
      FindSelects(t.left, uri);
      forall m | m in Level(t) && Relevant(m, uri)
        ensures m in Level(t.left)
      {
        GoLeft(t, uri, m);
      }
      PartSelects(t, t.left, uri, Find(t.left, uri));
    } else if d :| Below(t.name, uri, d) {
      FindSelects(t.right, uri);
      forall m | m in Level(t) && Relevant(m, uri)
        ensures m in Level(t.right)
      {
        GoRightAbove(t, uri, m, d);
      }
      PartSelects(t, t.right, uri, Find(t.right, uri));
    } else {
      NoDifference(uri, t.name);
      if |uri| > |t.name| && t.inclusive.Some? {
        FindSelects(t.sub, uri[|t.name|..]);
        NestedSelects(t, uri, Find(t.sub, uri[|t.name|..]));
      } else if |uri| > |t.name| {
        FindSelects(t.right, uri);
        forall m | m in Level(t) && Relevant(m, uri)
          ensures m in Level(t.right)
        {
          GoRightPast(t, uri, m);
        }
        PartSelects(t, t.right, uri, Find(t.right, uri));
      } else if |uri| == |t.name| {
        EqualSelects(t, uri);
      } else {
        FindSelects(t.left, uri);
        forall m | m in Level(t) && Relevant(m, uri)
          ensures m in Level(t.left)
        {
          GoLeft(t, uri, m);
        }
        PartSelects(t, t.left, uri, Find(t.left, uri));
      }
    }
  }

  // ---------- one outcome ----------

  lemma {:induction false} LevelRank(t: LocationTree, m: LocationTree)
    requires m in Level(t)
    ensures m == t || m < t
  {
    if m in Level(t.left) {
      LevelRank(t.left, m);
    } else if m in Level(t.right) {
      LevelRank(t.right, m);
    }
  }

  /** A name between a name and one that it is a prefix of has that prefix too. */
  lemma Between(a: Name, x: Name, b: Name)
    requires Prefix(a, b) && Less(a, x) && Less(x, b)
    ensures Prefix(a, x)
  {
    if d :| Below(a, x, d) {
      assert Below(b, x, d);
      LessTransitive(x, b, x);
      LessIrreflexive(x, x);
    }
  }

  /** Two prefixes of the URI with a name between them: the first is a proper prefix of that name. */
  lemma PrefixesApart(a: Name, x: Name, b: Name, uri: Name)
    requires Prefix(a, uri) && Prefix(b, uri) && Less(a, x) && Less(x, b)
    ensures |a| < |b| && |a| < |x| && Prefix(a, x)
  {
    LessTransitive(a, x, b);
    BothPrefixes(a, b, uri);
    assert |a| < |b| by {
      if |b| < |a| {
        LessTransitive(a, b, a);
      }
    }
    Between(a, x, b);
    if |a| == |x| {
      LessIrreflexive(a, x);
    }
  }

  /** A relevant node on the left of a node leaves none on its right. */
  lemma NotAcross(t: LocationTree, uri: Name, a: LocationTree, b: LocationTree)
    requires WellFormed(t) && t.Node? && a in Level(t.left) && Relevant(a, uri) && Relevant(b, uri)
    ensures b !in Level(t.right)
  {
    if b in Level(t.right) {
      PrefixesApart(a.name, t.name, b.name, uri);
    }
  }

  lemma {:induction false} OneRelevant(t: LocationTree, uri: Name, a: LocationTree, b: LocationTree)
    requires WellFormed(t) && a in Level(t) && b in Level(t) && Relevant(a, uri) && Relevant(b, uri)
    ensures a == b
  {
    if a == t {
      StopHere(t, uri, b);
    } else if b == t {
      StopHere(t, uri, a);
    } else if a in Level(t.left) {
      if b in Level(t.left) {
        OneRelevant(t.left, uri, a, b);
      } else {
        NotAcross(t, uri, a, b);
      }
    } else if b in Level(t.right) {
      OneRelevant(t.right, uri, a, b);
    } else {
      NotAcross(t, uri, b, a);
    }
  }

  /** Of one length there is at most one location that matches. */
  lemma {:induction false} OneHit(t: LocationTree, uri: Name, n: Name, n': Name, exact: bool, c: Conf, c': Conf)
    requires WellFormed(t) && Has(t, n, exact, c) && Has(t, n', exact, c') && |n| == |n'|
    requires Hit(uri, n, exact) && Hit(uri, n', exact)
    ensures n == n' && c == c'
    decreases t
  {
    var m := OwnerOf(t, n, exact, c);
    var m' := OwnerOf(t, n', exact, c');
    LevelNodes(t, m);
    LevelNodes(t, m');
    LevelRank(t, m);
    HitIsRelevant(m, uri, n, exact, c);
    HitIsRelevant(m', uri, n', exact, c');
    OneRelevant(t, uri, m, m');
    OneOwned(m, uri, n, n', exact, c, c');
  }

  lemma {:induction false} OneOwned(m: LocationTree, uri: Name, n: Name, n': Name, exact: bool, c: Conf, c': Conf)
    requires m.Node? && NodeOk(m) && WellFormed(m) && Prefix(m.name, uri)
    requires Owns(m, n, exact, c) && Owns(m, n', exact, c') && |n| == |n'|
    requires Hit(uri, n, exact) && Hit(uri, n', exact)
    ensures n == n' && c == c'
    decreases m, 0
  {
    var k := |m.name|;
    EmptySuffix(m.sub, exact, c);
    EmptySuffix(m.sub, exact, c');
    assert m.name <= n && m.name <= n';
    if |n| == k {
      assert n[k..] == [] && n'[k..] == [];
    } else {
      assert n == m.name + n[k..] && n' == m.name + n'[k..];
      NestedHit(m.name, uri, n[k..], exact);
      NestedHit(m.name, uri, n'[k..], exact);
      OneHit(m.sub, uri[k..], n[k..], n'[k..], exact, c, c');
    }
  }

  /** The rule leaves no choice. */
  lemma SelectsOne(t: LocationTree, uri: Name, o: Outcome, o': Outcome)
    requires WellFormed(t) && Selects(t, uri, o) && Selects(t, uri, o')
    ensures o == o'
  {
    if o.Found? && o'.Found? {
      var n :| ExactHit(t, uri, n, o.conf);
      var n' :| ExactHit(t, uri, n', o'.conf);
      OneHit(t, uri, n, n', true, o.conf, o'.conf);
    } else if o.Again? && o'.Again? {
      var n :| PrefixHit(t, uri, n, o.conf) && forall m, c :: PrefixHit(t, uri, m, c) ==> |m| <= |n|;
      var n' :| PrefixHit(t, uri, n', o'.conf) && forall m, c :: PrefixHit(t, uri, m, c) ==> |m| <= |n'|;
      OneHit(t, uri, n, n', false, o.conf, o'.conf);
    }
  }

  /** The rule does not see the case of the URI. */
  lemma CaseBlind(t: LocationTree, uri: Name, other: Name, o: Outcome)
    requires CaseOnly(uri, other)
    ensures Selects(t, uri, o) <==> Selects(t, other, o)
  {
    CaseOnlyFolds(uri, other);
    forall n
      ensures Prefix(n, uri) <==> Prefix(n, other)
    {
    }
    forall n, c
      ensures ExactHit(t, uri, n, c) <==> ExactHit(t, other, n, c)
      ensures PrefixHit(t, uri, n, c) <==> PrefixHit(t, other, n, c)
    {
    }
  }

  /** For all URIs that differ in case only, the rule selects one and the same outcome. */
  lemma OneOutcome(t: LocationTree, uri: Name, rv: Outcome)
    requires WellFormed(t) && Selects(t, uri, rv)
    ensures forall other, o :: CaseOnly(uri, other) ==> (Selects(t, other, o) <==> o == rv)
  {
    forall other, o | CaseOnly(uri, other)
      ensures Selects(t, other, o) <==> o == rv
    {
      CaseBlind(t, uri, other, o);
      if Selects(t, uri, o) {
        SelectsOne(t, uri, o, rv);
      }
    }
  }

  // ---------- the code ----------

  /** The comparison of the lookup loop, on the length of the shorter name: the first difference decides. */
  method CompareTo(uri: Name, name: Name) returns (rc: int)
    requires forall i :: 0 <= i < |name| ==> name[i] != 0
    ensures rc < 0 <==> exists d :: Below(uri, name, d)
    ensures rc > 0 <==> exists d :: Below(name, uri, d)
  {
    var n := if |uri| <= |name| then |uri| else |name|;
    rc := FilenameCmp(uri, name, n);
    forall d
      ensures DecidedAt(uri, name, n, d) <==> DiffersAt(uri, name, d)
      ensures DiffersAt(uri, name, d) <==> DiffersAt(name, uri, d)
    {
    }
    if d :| Below(uri, name, d) {
      assert DecidedAt(uri, name, n, d);
    }
    if d :| Below(name, uri, d) {
      assert DecidedAt(uri, name, n, d);
    }
    if d :| DecidedAt(uri, name, n, d) && Rank(Lower(uri[d])) < Rank(Lower(name[d])) {
      assert Below(uri, name, d);
    }
    if d :| DecidedAt(uri, name, n, d) && Rank(Lower(uri[d])) > Rank(Lower(name[d])) {
      assert Below(name, uri, d);
    }
  }

  /** `night_http_core_find_static_location`: rv and the selected configuration, as one outcome, which is the only one
      that the rule allows, for the URI and for every other way to write it in capitals and small letters. */
  method FindStaticLocation(root: LocationTree, uri: Name) returns (rv: Outcome)
    requires WellFormed(root)
    ensures Selects(root, uri, rv)
    ensures forall other, o :: CaseOnly(uri, other) ==> (Selects(root, other, o) <==> o == rv)
  {
    rv := Search(root, uri);
    FindSelects(root, uri);
    OneOutcome(root, uri, rv);
  }

  /** Its loop. */
  method Search(root: LocationTree, uri: Name) returns (rv: Outcome)
    requires WellFormed(root)
    ensures rv == Find(root, uri)
  {
    var node, rest := root, uri;
    rv := Declined;
    while node.Node?
      invariant WellFormed(node) && !rv.Found?
      invariant Find(root, uri) == if rv.Again? then Deeper(rv.conf, Find(node, rest)) else Find(node, rest)
      decreases node
    {
      var rc := CompareTo(rest, node.name);
      if rc != 0 {
        node := if rc < 0 then node.left else node.right;
        continue;
      }
      if |rest| > |node.name| {
        if node.inclusive.Some? {
          rv := Again(node.inclusive.value);
          rest := rest[|node.name|..];
          node := node.sub;
          continue;
        }
        node := node.right;
        continue;
      }
      if |rest| == |node.name| {
        if node.exact.Some? {
          return Found(node.exact.value);
        } else {
          return Again(node.inclusive.value);
        }
      }
      node := node.left;
    }
  }
}
