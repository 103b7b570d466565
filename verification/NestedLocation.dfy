/** `night_http_core_find_location`: the lookup repeated in the locations nested in the one selected. */
module NestedLocation {
  import opened Basics
  import opened Location

  function ConfSize(c: Conf): nat {
    1 + TreeSize(c.locations)
  }

  function TreeSize(t: LocationTree): nat {
    if t.Nil? then 0 else
      1 + OptionSize(t.exact) + OptionSize(t.inclusive) + TreeSize(t.left) + TreeSize(t.right) + TreeSize(t.sub)
  }

  function OptionSize(o: Option<Conf>): nat {
    if o.None? then 0 else ConfSize(o.value)
  }

  /** Every tree of locations, at every depth, is well formed. */
  ghost predicate DeepConf(c: Conf) {
    WellFormed(c.locations) && DeepTree(c.locations)
  }

  ghost predicate DeepTree(t: LocationTree) {
    t.Nil? ||
    (&& (t.exact.Some? ==> DeepConf(t.exact.value)) && (t.inclusive.Some? ==> DeepConf(t.inclusive.value))
     && DeepTree(t.left) && DeepTree(t.right) && DeepTree(t.sub))
  }

  /** What a tree holds is smaller than the tree. */
  lemma {:induction false} HeldIsSmaller(t: LocationTree, n: Name, exact: bool, c: Conf)
    requires Has(t, n, exact, c) && DeepTree(t)
    ensures ConfSize(c) <= TreeSize(t) && DeepConf(c)
    decreases t
  {
    if Owns(t, n, exact, c) {
      if t.name <= n && Has(t.sub, n[|t.name|..], exact, c) {
        HeldIsSmaller(t.sub, n[|t.name|..], exact, c);
      }
    } else if Has(t.left, n, exact, c) {
      HeldIsSmaller(t.left, n, exact, c);
    } else {
      HeldIsSmaller(t.right, n, exact, c);
    }
  }

  lemma SelectedIsSmaller(c: Conf, uri: Name, o: Outcome)
    requires DeepConf(c) && Selects(c.locations, uri, o) && !o.Declined?
    ensures ConfSize(o.conf) < ConfSize(c) && DeepConf(o.conf)
  {
    if o.Found? {
      var n :| ExactHit(c.locations, uri, n, o.conf);
      HeldIsSmaller(c.locations, n, true, o.conf);
    } else {
      var n :| PrefixHit(c.locations, uri, n, o.conf);
      HeldIsSmaller(c.locations, n, false, o.conf);
    }
  }

  /** The request ends in `last` when the rule is followed from c inwards: at each depth the longest prefix, until
      an exact location (ok) or no location matches. */
  ghost predicate Leads(c: Conf, uri: Name, last: Conf, ok: bool)
    decreases ConfSize(c)
  {
    || (ok && Selects(c.locations, uri, Found(last)))
    || (!ok && last == c && Selects(c.locations, uri, Declined))
    || exists d :: ConfSize(d) < ConfSize(c) && Selects(c.locations, uri, Again(d)) && Leads(d, uri, last, ok)
  }

  /** The search through all depths; ok is the return code, and declined means that no regular location was exact. */
  method FindLocation(c: Conf, uri: Name) returns (last: Conf, ok: bool)
    requires DeepConf(c)
    ensures Leads(c, uri, last, ok) && DeepConf(last)
    decreases ConfSize(c)
  {
    var rv := FindStaticLocation(c.locations, uri);
    if rv.Declined? {
      return c, false;
    }
    SelectedIsSmaller(c, uri, rv);
    if rv.Found? {
      return rv.conf, true;
    }
    last, ok := FindLocation(rv.conf, uri);
  }
}
