/** The per-type module indices of `night_modules.c`. */
module Modules {

  const UNSET := -1             // NIGHT_MODULE_UNSET_INDEX

  /** Module m of the type has index v. */
  predicate Has(kind: seq<int>, index: seq<int>, m: int, type_: int, v: int)
    requires |kind| == |index|
  {
    0 <= m < |index| && kind[m] == type_ && index[m] == v
  }

  /** The indices that modules of the type in the list have. */
  ghost function Used(kind: seq<int>, index: seq<int>, list: seq<int>, type_: int): (r: set<int>)
    requires |kind| == |index|
    ensures forall v {:trigger v in r} :: v in r <==>
      exists k {:trigger list[k]} :: 0 <= k < |list| && Has(kind, index, list[k], type_, v)
  {
    set k, v | 0 <= k < |list| && 0 <= list[k] < |index| && v == index[list[k]] && Has(kind, index, list[k], type_,
      v) :: v
  }

  /** The taken indices from i on. */
  ghost function From(used: set<int>, i: int): set<int> {
    set u | u in used && u >= i
  }

  lemma FromShrinks(used: set<int>, i: int)
    requires i in used
    ensures |From(used, i + 1)| < |From(used, i)|
  {
    assert From(used, i) == From(used, i + 1) + {i};
  }

  /** Set indices of the type are distinct. */
  ghost predicate Apart(kind: seq<int>, index: seq<int>, modules: seq<int>, type_: int)
    requires |kind| == |index|
  {
    forall j, k {:trigger modules[j], modules[k]} :: 0 <= j < |modules| && 0 <= k < |modules| && j != k ==>
      NoClash(kind, index, modules[j], modules[k], type_)
  }

  predicate NoClash(kind: seq<int>, index: seq<int>, m: int, o: int, type_: int)
    requires |kind| == |index|
  {
    0 <= m < |index| && 0 <= o < |index| && kind[m] == type_ && kind[o] == type_ && index[m] != UNSET ==>
      index[m] != index[o]
  }

  /** The indices given out to the first i modules differ from those of the other modules of the previous cycle. */
  ghost predicate Avoiding(kind: seq<int>, was: seq<int>, index: seq<int>, modules: seq<int>, older: seq<int>,
      type_: int, i: int)
    requires |kind| == |index| == |was| && i <= |modules|
  {
    forall k, j {:trigger modules[k], older[j]} ::
      0 <= k < i && 0 <= j < |older| && modules[k] != older[j] && 0 <= modules[k] < |was|
      && was[modules[k]] == UNSET ==>
      NoClash(kind, index, modules[k], older[j], type_)
  }

  /** A free index given to module i keeps the set indices apart. */
  lemma AssignApart(kind: seq<int>, index: seq<int>, modules: seq<int>, type_: int, i: nat, v: int)
    requires |kind| == |index| && i < |modules| && 0 <= modules[i] < |index| && Apart(kind, index, modules, type_)
    requires forall j, k :: 0 <= j < k < |modules| ==> modules[j] != modules[k]
    requires v !in Used(kind, index, modules, type_)
    ensures Apart(kind, index[modules[i] := v], modules, type_)
  {
    var index' := index[modules[i] := v];
    forall j, k | 0 <= j < |modules| && 0 <= k < |modules| && j != k
      ensures NoClash(kind, index', modules[j], modules[k], type_)
    {
      assert NoClash(kind, index, modules[j], modules[k], type_);
      assert !Has(kind, index, modules[j], type_, v) && !Has(kind, index, modules[k], type_, v);
    }
  }

  /** An index given to a module that had none takes no other index away. */
  lemma UsedGrows(kind: seq<int>, index: seq<int>, list: seq<int>, type_: int, m: nat, v: int, j: int)
    requires |kind| == |index| && m < |index| && index[m] == UNSET && j != UNSET
    ensures j in Used(kind, index, list, type_) ==> j in Used(kind, index[m := v], list, type_)
  {
    if j in Used(kind, index, list, type_) {
      var k :| 0 <= k < |list| && Has(kind, index, list[k], type_, j);
      assert Has(kind, index[m := v], list[k], type_, j);
    }
  }

  lemma AllUsedGrows(kind: seq<int>, index: seq<int>, list: seq<int>, list2: seq<int>, type_: int, m: nat, v: int)
    requires |kind| == |index| && m < |index| && index[m] == UNSET
    ensures forall j :: j >= 0 && j in Used(kind, index, list, type_) + Used(kind, index, list2, type_) ==>
      j in Used(kind, index[m := v], list, type_) + Used(kind, index[m := v], list2, type_)
  {
    forall j | j >= 0 && j in Used(kind, index, list, type_) + Used(kind, index, list2, type_)
      ensures j in Used(kind, index[m := v], list, type_) + Used(kind, index[m := v], list2, type_)
    {
      UsedGrows(kind, index, list, type_, m, v, j);
      UsedGrows(kind, index, list2, type_, m, v, j);
    }
  }

  lemma AssignAvoids(kind: seq<int>, was: seq<int>, index: seq<int>, modules: seq<int>, older: seq<int>, type_: int,
      i: nat, v: int)
    requires |kind| == |index| == |was| && i < |modules| && 0 <= modules[i] < |index|
    requires Avoiding(kind, was, index, modules, older, type_, i)
    requires forall j, k :: 0 <= j < k < |modules| ==> modules[j] != modules[k]
    requires v !in Used(kind, index, older, type_) && v !in Used(kind, index, modules, type_)
    ensures Avoiding(kind, was, index[modules[i] := v], modules, older, type_, i + 1)
  {
    var index' := index[modules[i] := v];
    forall k, j | 0 <= k < i + 1 && 0 <= j < |older| && modules[k] != older[j] && 0 <= modules[k] < |was|
      && was[modules[k]] == UNSET
      ensures NoClash(kind, index', modules[k], older[j], type_)
    {
      assert !Has(kind, index, older[j], type_, v) && !Has(kind, index, modules[k], type_, v);
      if k < i {
        assert NoClash(kind, index, modules[k], older[j], type_);
      }
    }
  }

  class Cycle {
    const kind: seq<int>          // the type of every module there is
    const modules: seq<int>       // those of this cycle
    const older: seq<int>         // those of the previous cycle, which may be the same ones
    var index: seq<int>           // ctx_index

    constructor (kind: seq<int>, modules: seq<int>, older: seq<int>, index: seq<int>)
      ensures this.kind == kind && this.modules == modules && this.older == older && this.index == index
    {
      this.kind, this.modules, this.older, this.index := kind, modules, older, index;
    }

    ghost predicate Valid()
      reads this
    {
      && |kind| == |index|
      && (forall k {:trigger modules[k]} :: 0 <= k < |modules| ==> 0 <= modules[k] < |index|)
      && (forall k {:trigger older[k]} :: 0 <= k < |older| ==> 0 <= older[k] < |index|)
      && (forall j, k :: 0 <= j < k < |modules| ==> modules[j] != modules[k])
      && (forall m {:trigger index[m]} :: 0 <= m < |index| ==> index[m] >= UNSET)
    }

    ghost function Taken(type_: int): set<int>
      requires |kind| == |index|
      reads this
    {
      Used(kind, index, modules, type_) + Used(kind, index, older, type_)
    }

    /** One scan of a list for an index. */
    method Scan(list: seq<int>, type_: int, i: int) returns (found: bool)
      requires |kind| == |index| && forall k {:trigger list[k]} :: 0 <= k < |list| ==> 0 <= list[k] < |index|
      ensures found <==> i in Used(kind, index, list, type_)
    {
      for k := 0 to |list|
        invariant forall j {:trigger list[j]} :: 0 <= j < k ==> !Has(kind, index, list[j], type_, i)
      {
        if kind[list[k]] == type_ && index[list[k]] == i {
          assert Has(kind, index, list[k], type_, i);
          return true;
        }
      }
      return false;
    }

    /** `night_module_ctx_index`: the least index from `first` on that no module of the type has, in this cycle or
        the previous one. */
    method CtxIndex(type_: int, first: nat) returns (r: nat)
      requires Valid()
      ensures r >= first && r !in Taken(type_) && forall j :: first <= j < r ==> j in Taken(type_)
    {
      r := first;
      while true
        invariant r >= first && forall j :: first <= j < r ==> j in Taken(type_)
        decreases |From(Taken(type_), r)|
      {
        var found := Scan(modules, type_, r);
        if !found {
          found := Scan(older, type_, r);
        }
        if !found {
          return;
        }
        FromShrinks(Taken(type_), r);
        r := r + 1;
      }
    }
  
    /** Every module of the type among the first i has an index, and none of these is above max. */
    ghost predicate Numbered(type_: int, i: int, max: int)
      requires |kind| == |index| && i <= |modules|
      reads this
    {
      forall k {:trigger modules[k]} :: 0 <= k < i && 0 <= modules[k] < |index| && kind[modules[k]] == type_ ==>
        0 <= index[modules[k]] <= max
    }

    /** Only unset indices of the first i modules, of the type, have changed. */
    ghost predicate Untouched(was: seq<int>, type_: int, i: nat)
      requires |kind| == |index| == |was| && i <= |modules|
      reads this
    {
      forall m {:trigger index[m]} ::
        0 <= m < |index| && (kind[m] != type_ || was[m] != UNSET || m !in modules[..i]) ==> index[m] == was[m]
    }

    /** The module of the type had no index. */
    predicate Fresh(was: seq<int>, type_: int, m: int)
      requires |kind| == |index| == |was|
      reads this
    {
      0 <= m < |index| && kind[m] == type_ && was[m] == UNSET
    }

    /** No index below v is free, in either cycle. */
    ghost predicate NoneFree(type_: int, v: int)
      requires |kind| == |index|
      reads this
    {
      forall j :: 0 <= j < v ==> j in Taken(type_)
    }

    /** Below the index that one of the first i modules was given, no index is free. */
    ghost predicate Compact(was: seq<int>, type_: int, i: nat)
      requires |kind| == |index| == |was| && i <= |modules|
      reads this
    {
      forall k {:trigger modules[k]} :: 0 <= k < i && Fresh(was, type_, modules[k]) ==>
        NoneFree(type_, index[modules[k]])
    }

    /** Indices that clash before the count still clash after it. */
    lemma WereApart(was: seq<int>, type_: int)
      requires Valid() && |was| == |index| && Untouched(was, type_, |modules|) && Apart(kind, index, modules, type_)
      ensures Apart(kind, was, modules, type_)
    {
      forall j, k | 0 <= j < |modules| && 0 <= k < |modules| && j != k
        ensures NoClash(kind, was, modules[j], modules[k], type_)
      {
        var m, o := modules[j], modules[k];
        assert NoClash(kind, index, m, o, type_);
        assert was[m] != UNSET ==> index[m] == was[m];
        assert was[o] != UNSET ==> index[o] == was[o];
      }
    }

    /** An unset module of the type gets the first free index from `next` on. */
    method Assign(type_: int, i: nat, next: nat, ghost was: seq<int>, ghost max: int) returns (v: nat)
      requires Valid() && i < |modules| && |was| == |index| && kind[modules[i]] == type_ && index[modules[i]] == UNSET
      requires Avoiding(kind, was, index, modules, older, type_, i)
      requires Numbered(type_, i, max) && Untouched(was, type_, i)
      modifies this`index
      ensures Valid() && index == old(index)[modules[i] := v]
      ensures old(Apart(kind, index, modules, type_)) ==> Apart(kind, index, modules, type_)
      ensures Avoiding(kind, was, index, modules, older, type_, i + 1)
      ensures Numbered(type_, i + 1, if v > max then v else max) && Untouched(was, type_, i + 1)
      ensures v >= next && forall j :: next <= j < v ==> old(j in Taken(type_))
    {
      v := CtxIndex(type_, next);
      if Apart(kind, index, modules, type_) {
        AssignApart(kind, index, modules, type_, i, v);
      }
      AssignAvoids(kind, was, index, modules, older, type_, i, v);
      assert modules[..i + 1] == modules[..i] + [modules[i]];
      assert was[modules[i]] == UNSET by {
        assert modules[i] !in modules[..i];
      }
      index := index[modules[i] := v];
    }

    /** The taken indices grow by the one given. */
    lemma TakenGrows(before: seq<int>, type_: int, m: nat, v: int)
      requires |kind| == |before| && m < |before| && before[m] == UNSET && index == before[m := v]
      ensures forall j :: j >= 0 && j in Used(kind, before, modules, type_) + Used(kind, before, older, type_) ==>
        j in Taken(type_)
    {
      AllUsedGrows(kind, before, modules, older, type_, m, v);
    }

    /** The same as `Assign`, in terms of the indices taken afterwards. */
    method Give(type_: int, i: nat, next: nat, ghost was: seq<int>, ghost max: int) returns (v: nat)
      requires Valid() && i < |modules| && |was| == |index| && kind[modules[i]] == type_ && index[modules[i]] == UNSET
      requires Avoiding(kind, was, index, modules, older, type_, i)
      requires Numbered(type_, i, max) && Untouched(was, type_, i)
      modifies this`index
      ensures Valid() && index == old(index)[modules[i] := v]
      ensures old(Apart(kind, index, modules, type_)) ==> Apart(kind, index, modules, type_)
      ensures Avoiding(kind, was, index, modules, older, type_, i + 1)
      ensures Numbered(type_, i + 1, if v > max then v else max) && Untouched(was, type_, i + 1)
      ensures forall j :: j >= 0 && old(j in Taken(type_)) ==> j in Taken(type_)
      ensures v in Taken(type_) && v >= next && forall j :: next <= j < v ==> j in Taken(type_)
    {
      ghost var before := index;
      v := Assign(type_, i, next, was, max);
      TakenGrows(before, type_, modules[i], v);
      assert Has(kind, index, modules[i], type_, v);
    }

    /** What was compact stays so, and the next free index is not below the last one given. */
    lemma CompactStep(was: seq<int>, before: seq<int>, type_: int, i: nat, v: nat)
      requires Valid() && |was| == |index| == |before| && i < |modules| && index == before[modules[i] := v]
      requires forall k {:trigger modules[k]} :: 0 <= k < i && Fresh(was, type_, modules[k]) ==>
        NoneFree(type_, before[modules[k]])
      requires NoneFree(type_, v)
      ensures Compact(was, type_, i + 1)
    {
      forall k | 0 <= k < i + 1 && Fresh(was, type_, modules[k])
        ensures NoneFree(type_, index[modules[k]])
      {
        assert k < i ==> modules[k] != modules[i];
      }
    }

    /** The module at i gets its index, in the loop of `night_count_modules`. */
    method Number(type_: int, i: nat, next: nat, ghost was: seq<int>, ghost max: int) returns (v: nat)
      requires Valid() && i < |modules| && |was| == |index| && kind[modules[i]] == type_ && index[modules[i]] == UNSET
      requires Avoiding(kind, was, index, modules, older, type_, i)
      requires Numbered(type_, i, max) && Untouched(was, type_, i)
      requires Compact(was, type_, i) && NoneFree(type_, next) && (max == 0 || max in Taken(type_)) && max >= 0
      modifies this`index
      ensures Valid() && |index| == |old(index)|
      ensures old(Apart(kind, index, modules, type_)) ==> Apart(kind, index, modules, type_)
      ensures Avoiding(kind, was, index, modules, older, type_, i + 1)
      ensures Numbered(type_, i + 1, if v > max then v else max) && Untouched(was, type_, i + 1)
      ensures Compact(was, type_, i + 1) && NoneFree(type_, v + 1) && v in Taken(type_)
      ensures max == 0 || max in Taken(type_)
    {
      ghost var before := index;
      v := Give(type_, i, next, was, max);
      forall j | 0 <= j < v + 1
        ensures j in Taken(type_)
      {
        assert j < next ==> old(j in Taken(type_));
      }
      forall k | 0 <= k < i && Fresh(was, type_, modules[k])
        ensures NoneFree(type_, before[modules[k]])
      {
        assert old(NoneFree(type_, index[modules[k]]));
      }
      CompactStep(was, before, type_, i, v);
    }

    /** What holds after the first i modules: `next` is the candidate, and max the largest index seen. */
    ghost predicate Counting(was: seq<int>, type_: int, i: nat, next: nat, max: nat)
      reads this
    {
      && Valid() && |was| == |index| && i <= |modules|
      && Avoiding(kind, was, index, modules, older, type_, i)
      && Numbered(type_, i, max) && Untouched(was, type_, i)
      && Compact(was, type_, i) && NoneFree(type_, next) && (max == 0 || max in Taken(type_))
    }

    /** One module of the list. */
    method Visit(type_: int, i: nat, next: nat, max: nat, ghost was: seq<int>) returns (next': nat, max': nat)
      requires i < |modules| && Counting(was, type_, i, next, max)
      modifies this`index
      ensures Counting(was, type_, i + 1, next', max')
      ensures old(Apart(kind, index, modules, type_)) ==> Apart(kind, index, modules, type_)
    {
      next', max' := next, max;
      var m := modules[i];
      assert m !in modules[..i] && modules[..i + 1] == modules[..i] + [m];
      if kind[m] != type_ {
        return;
      }
      if index[m] != UNSET {
        assert Has(kind, index, m, type_, index[m]);
        if index[m] > max {
          max' := index[m];
        }
        if index[m] == next {
          next' := next + 1;
        }
        return;
      }
      var v := Number(type_, i, next, was, max);
      if v > max {
        max' := v;
      }
      next' := v + 1;
    }

    /** The loop over the modules of this cycle. */
    method NumberAll(type_: int) returns (max: nat, ghost next: nat)
      requires Valid()
      modifies this`index
      ensures Counting(old(index), type_, |modules|, next, max)
      ensures old(Apart(kind, index, modules, type_)) ==> Apart(kind, index, modules, type_)
    {
      var candidate: nat := 0;
      max := 0;
      ghost var was := index;
      for i := 0 to |modules|
        invariant Counting(was, type_, i, candidate, max)
        invariant old(Apart(kind, index, modules, type_)) ==> Apart(kind, index, modules, type_)
      {
        candidate, max := Visit(type_, i, candidate, max, was);
      }
      next := candidate;
    }

    /** The loop over the modules of the previous cycle. */
    method Highest(type_: int, first: nat) returns (max: nat)
      requires Valid() && (first == 0 || first in Taken(type_))
      ensures max >= first && (max == 0 || max in Taken(type_))
      ensures forall j {:trigger older[j]} :: 0 <= j < |older| && kind[older[j]] == type_ ==> index[older[j]] <= max
    {
      max := first;
      for i := 0 to |older|
        invariant max >= first && (max == 0 || max in Taken(type_))
        invariant forall j {:trigger older[j]} :: 0 <= j < i && kind[older[j]] == type_ ==> index[older[j]] <= max
      {
        assert kind[older[i]] == type_ ==> Has(kind, index, older[i], type_, index[older[i]]);
        if kind[older[i]] == type_ && index[older[i]] > max {
          max := index[older[i]];
        }
      }
    }

    /** `night_count_modules`. */
    method CountModules(type_: int) returns (n: int)
      requires Valid()
      modifies this`index
      ensures Valid() && Numbered(type_, |modules|, n - 1)
      ensures Apart(kind, index, modules, type_) <==> old(Apart(kind, index, modules, type_))
      ensures Untouched(old(index), type_, |modules|)
      ensures Avoiding(kind, old(index), index, modules, older, type_, |modules|)
      ensures forall j {:trigger older[j]} :: 0 <= j < |older| && kind[older[j]] == type_ ==> index[older[j]] < n
      ensures n >= 1 && (n > 1 ==> n - 1 in Taken(type_))
      ensures Compact(old(index), type_, |modules|)
    {
      var max;
      ghost var next;
      max, next := NumberAll(type_);
      if Apart(kind, index, modules, type_) {
        WereApart(old(index), type_);
      }
      max := Highest(type_, max);
      return max + 1;
    }
  }
}
