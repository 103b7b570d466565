/** Event timers: the red-black tree used as a priority queue of deadlines. */
module Timers {
  import opened Basics
  import opened RbLinks
  import opened RbInsert
  import opened RbTree
  import RbFacts

  const TIMER_LAZY_DELAY := 600
  const TIMER_INFINITE := -1

  /** `night_abs` on an int64. */
  function Abs64(x: int): int {
    if x >= 0 then x else Wrap64(-x)
  }

  lemma LazyIsClose(diff: int)
    requires Abs64(Wrap64(diff)) < TIMER_LAZY_DELAY && Int64(diff) && diff != -0x8000_0000_0000_0000
    ensures -TIMER_LAZY_DELAY < diff < TIMER_LAZY_DELAY
  {
    assert Wrap64(diff) == diff && Wrap64(-diff) == -diff;
  }

  /** Insertion into a sorted tree keeps it sorted, if no key difference overflows. */
  method InsertSorted(tree: Tree, e: Id) returns (ghost k: nat)
    requires tree.Valid() && e !in tree.nodes && e != tree.sentinel && e in tree.key
    modifies tree
    ensures tree.Valid() && tree.nodes == old(tree.nodes) + {e} && tree.key == old(tree.key)
    ensures old(Sorted(tree.order, tree.key) && InWindow(tree.order, tree.key, e)) ==> Sorted(tree.order, tree.key)
    ensures k <= |old(tree.order)| && tree.order == old(tree.order)[..k] + [e] + old(tree.order)[k..]
    ensures |old(tree.order)| == 1 ==>
              && old(tree.order)[0] in tree.key
              && k == if Wrap64(tree.key[e] - tree.key[old(tree.order)[0]]) < 0 then 0 else 1
  {
    ghost var order := tree.order;
    k := tree.Insert(e);
    if Sorted(order, tree.key) && InWindow(order, tree.key, e) {
      RbFacts.InsertKeepsSorted(order, tree.key, e, k);
    }
  }

  datatype TimerOp = Add(ev: Id, delay: int, now: int) | Del(ev: Id) | Find(now: int)

  /** An event is named by its embedded tree node. */
  class EventTimers {
    const tree: Tree
    var timerSet: map<Id, bool>

    ghost var requested: map<Id, int>  // the deadline last asked for
    ghost var tame: bool               // every deadline, when it was stored, was in one window with those then armed

    ghost predicate Armed(e: Id)
      reads this
    {
      e in timerSet && timerSet[e]
    }

    /** The stored deadline of an armed event is the one last asked for, up to the lazy delay. */
    ghost predicate Near(e: Id)
      reads this, tree
    {
      e in requested && e in tree.key && Abs64(Wrap64(requested[e] - tree.key[e])) < TIMER_LAZY_DELAY
    }

    ghost predicate Valid()
      reads this, tree
    {
      && tree.Valid()
      && tree.sentinel !in timerSet
      && (forall e :: e in tree.nodes <==> Armed(e))
      && (forall e {:trigger Near(e)} :: Armed(e) ==> Near(e))
      && (tame ==> Sorted(tree.order, tree.key))
    }

    /** The deadline differs from every other armed one by an int64. */
    ghost predicate Within(e: Id, deadline: int)
      reads this, tree
    {
      forall f {:trigger Armed(f)} :: Armed(f) && f != e ==> f in tree.key && Int64(deadline - tree.key[f])
    }

    constructor (sentinel: Id)
      ensures Valid() && fresh(tree) && timerSet == map[] && tame && tree.sentinel == sentinel && tree.order == []
    {
      tree := new Tree(sentinel);
      timerSet, requested, tame := map[], map[], true;
    }

    /** Every armed event but e keeps its deadline. */
    ghost predicate OthersKept(e: Id, key: map<Id, int>)
      reads this, tree
    {
      forall f {:trigger Armed(f)} :: Armed(f) && f != e ==> f in key && f in tree.key && tree.key[f] == key[f]
    }

    /** `night_event_del_timer`; its callers ask for the flag first. */
    method DelTimer(e: Id)
      requires Valid() && Armed(e)
      modifies this, tree
      ensures Valid() && timerSet == old(timerSet)[e := false] && tame == old(tame) && requested == old(requested)
      ensures OthersKept(e, old(tree.key))
      ensures |tree.order| == |old(tree.order)| - 1
    {
      ghost var order, key := tree.order, tree.key;
      ghost var k := tree.Delete(e);
      timerSet := timerSet[e := false];
      forall i | 0 <= i < |order| && i != k
        ensures order[i] != order[k]
      {
        assert old(Shape(tree.View()));
      }
      if tame {
        RbFacts.DeleteKeepsSorted(order, key, k);
      }
      forall f | Armed(f)
        ensures Near(f)
      {
        assert old(Near(f));
      }
    }

    /** The nodes in the tree are those of the armed events. */
    lemma InOrderIsArmed(i: int)
      requires Valid() && 0 <= i < |tree.order|
      ensures Armed(tree.order[i]) && Near(tree.order[i])
    {
      assert Shape(tree.View());
      assert In(tree.View(), tree.order[i]);
    }

    /** Storing a deadline in a node outside the tree leaves the tree alone. */
    method SetKey(e: Id, deadline: int)
      requires Valid() && !Armed(e)
      modifies tree`key
      ensures Valid() && tree.key == old(tree.key)[e := deadline]
      ensures old(Within(e, deadline)) ==> InWindow(tree.order, tree.key, e)
    {
      forall i | 0 <= i < |tree.order|
        ensures Armed(tree.order[i]) && tree.order[i] != e
      {
        InOrderIsArmed(i);
      }
      tree.key := tree.key[e := deadline];
      forall f | Armed(f)
        ensures Near(f)
      {
        assert old(Near(f));
      }
    }

    /** The stored deadline is less than 600 ms away from the one last asked for, exactly when the two differ by an
        int64 that has an absolute value. */
    lemma DeadlineIsClose(e: Id)
      requires Valid() && Armed(e)
      ensures e in requested && e in tree.key
      ensures
        var diff := requested[e] - tree.key[e];
        -600 < diff < 600 <==> Int64(diff) && diff != -0x8000_0000_0000_0000
    {
      assert Near(e);
      var diff := requested[e] - tree.key[e];
      if Int64(diff) && diff != -0x8000_0000_0000_0000 {
        LazyIsClose(diff);
      }
    }

    /** The node of e, its deadline already stored, enters the tree. */
    method Plant(e: Id, ghost window: bool) returns (ghost k: nat)
      requires Valid() && !Armed(e) && e != tree.sentinel && e in tree.key
      requires window ==> InWindow(tree.order, tree.key, e)
      modifies this, tree
      ensures Valid() && timerSet == old(timerSet)[e := true] && requested == old(requested[e := tree.key[e]])
      ensures tame == (old(tame) && window) && tree.key == old(tree.key)
      ensures k <= |old(tree.order)| && tree.order == old(tree.order)[..k] + [e] + old(tree.order)[k..]
      ensures |old(tree.order)| == 1 ==>
                && old(tree.order)[0] in tree.key
                && k == if Wrap64(tree.key[e] - tree.key[old(tree.order)[0]]) < 0 then 0 else 1
    {
      k := InsertSorted(tree, e);
      forall f | Armed(f)
        ensures Near(f)
      {
        assert old(Armed(f)) && old(Near(f));
      }
      Enlist(e, window);
    }

    /** The event whose node is in the tree is flagged. */
    method Enlist(e: Id, ghost window: bool)
      requires tree.Valid() && tree.sentinel !in timerSet && e != tree.sentinel && e in tree.key
      requires forall f :: f in tree.nodes <==> Armed(f) || f == e
      requires forall f {:trigger Near(f)} :: Armed(f) ==> Near(f)
      requires tame && window ==> Sorted(tree.order, tree.key)
      modifies this
      ensures Valid() && timerSet == old(timerSet)[e := true] && requested == old(requested)[e := tree.key[e]]
      ensures tame == (old(tame) && window)
    {
      timerSet := timerSet[e := true];
      requested := requested[e := tree.key[e]];
      tame := tame && window;
      forall f | Armed(f)
        ensures Near(f)
      {
        if f != e {
          assert old(Armed(f)) && old(Near(f));
        }
      }
    }

    /** Arming an event that is not armed. */
    method Arm(e: Id, deadline: int)
      requires Valid() && !Armed(e) && e != tree.sentinel
      modifies this, tree
      ensures Valid() && timerSet == old(timerSet)[e := true] && requested == old(requested)[e := deadline]
      ensures tame == (old(tame) && old(Within(e, deadline))) && tree.key == old(tree.key)[e := deadline]
      ensures old(tree.order) == [] ==> tree.order == [e]
      ensures |old(tree.order)| == 1 ==>
                var first := old(tree.order)[0];
                first in tree.key && tree.order == if Wrap64(deadline - tree.key[first]) < 0 then [e, first]
                  else [first, e]
    {
      ghost var window := Within(e, deadline);
      SetKey(e, deadline);
      ghost var k := Plant(e, window);
    }

    /** The request is close enough to the stored deadline for that one to stay. */
    ghost predicate Lazy(e: Id, deadline: int)
      reads this, tree
    {
      Armed(e) && e in tree.key && Abs64(Wrap64(deadline - tree.key[e])) < TIMER_LAZY_DELAY
    }

    /** A stored deadline that is less than 600 ms away from the new one stays, and any other gives way, as long as
        the two differ by an int64 that has an absolute value. */
    static predicate Settles(was: int, deadline: int, stored: int) {
      Int64(deadline - was) && deadline - was != -0x8000_0000_0000_0000 ==>
        stored == if -600 < deadline - was < 600 then was else deadline
    }

    /** `night_event_add_timer`. */
    method AddTimer(e: Id, delay: int, now: int)
      requires Valid() && e != tree.sentinel
      modifies this, tree
      ensures Valid() && Armed(e) && requested == old(requested)[e := Wrap64(now + delay)]
      ensures timerSet == old(timerSet)[e := true]
      ensures OthersKept(e, old(tree.key))
      ensures
        var deadline := Wrap64(now + delay);
        && e in tree.key && (tree.key[e] == if old(Lazy(e, deadline)) then old(tree.key)[e] else deadline)
        && tame == (old(tame) && (old(Lazy(e, deadline)) || old(Within(e, deadline))))
      ensures
        var deadline := Wrap64(now + delay);
        && (!old(Armed(e)) ==> tree.key[e] == deadline)
        && (old(Armed(e)) ==> e in old(tree.key) && Settles(old(tree.key)[e], deadline, tree.key[e]))
      ensures !old(Armed(e)) && old(tree.order) == [] ==> tree.order == [e]
      ensures !old(Armed(e)) && |old(tree.order)| == 1 ==>
                var first := old(tree.order)[0];
                first in tree.key && tree.order == if Wrap64(Wrap64(now + delay) - tree.key[first]) < 0 then [e, first]
                  else [first, e]
    {
      var key := Wrap64(now + delay);
      assert Armed(e) ==> Near(e);
      if e in timerSet && timerSet[e] {
        var diff := Wrap64(key - tree.key[e]);
        if Abs64(diff) < TIMER_LAZY_DELAY {
          Postpone(e, key);
          return;
        }
        Rearm(e, key);
      } else {
        Arm(e, key);
      }
    }

    /** An armed event gets a new deadline. */
    method Rearm(e: Id, deadline: int)
      requires Valid() && Armed(e) && e != tree.sentinel
      modifies this, tree
      ensures Valid() && timerSet == old(timerSet)[e := true] && requested == old(requested)[e := deadline]
      ensures tame == (old(tame) && old(Within(e, deadline))) && e in tree.key && tree.key[e] == deadline
      ensures OthersKept(e, old(tree.key))
    {
      ghost var was := tree.key;
      ghost var window := Within(e, deadline);
      DelTimer(e);
      assert Within(e, deadline) == window by {
        forall f
          ensures Armed(f) && f != e <==> old(Armed(f)) && f != e
        {
        }
        assert forall f {:trigger Armed(f)} :: Armed(f) ==> f in was && f in tree.key && tree.key[f] == was[f];
        assert forall f {:trigger old(Armed(f))} :: old(Armed(f)) ==> old(Near(f)) && f in was;
      }
      label Disarmed:
      Arm(e, deadline);
      forall f | Armed(f) && f != e
        ensures f in was && f in tree.key && tree.key[f] == was[f]
      {
        assert old@Disarmed(Armed(f));
      }
    }

    /** A request that the stored deadline already meets. */
    ghost method Postpone(e: Id, key: int)
      requires Valid() && Lazy(e, key)
      modifies this`requested
      ensures Valid() && requested == old(requested)[e := key] && OthersKept(e, tree.key)
    {
      requested := requested[e := key];
      forall f | Armed(f)
        ensures Near(f)
      {
        assert old(Near(f));
      }
    }

    /** No armed deadline is earlier than that of e. */
    ghost predicate Earliest(e: Id)
      reads this, tree
    {
      && Armed(e) && e in tree.key
      && forall f {:trigger Armed(f)} :: Armed(f) ==> f in tree.key && tree.key[e] <= tree.key[f]
    }

    /** Some armed deadline is not in the future. */
    ghost predicate Due(now: int)
      reads this, tree
    {
      exists e {:trigger Armed(e)} :: Armed(e) && e in tree.key && tree.key[e] <= now
    }

    /** `night_event_find_timer`: the time to the earliest deadline, 0 if it has passed, or the infinite value -1 if
        nothing is armed. */
    method FindTimer(now: int) returns (timer: int)
      requires Valid()
      ensures timer == -1 <==> forall e :: !Armed(e)
      ensures timer >= -1
      ensures timer >= 0 ==>
                && tree.order != [] && tree.order[0] in tree.key
                && var left := Wrap64(tree.key[tree.order[0]] - now);
                   (left <= 0 ==> timer == 0) && (left > 0 ==> timer == left)
      ensures timer >= 0 && tame ==> exists e {:trigger Earliest(e)} :: Earliest(e)
      ensures tame ==> forall e {:trigger Earliest(e)} :: Earliest(e) && Int64(tree.key[e] - now) ==>
                && (tree.key[e] <= now ==> timer == 0)
                && (tree.key[e] > now ==> timer == tree.key[e] - now)
                && (timer == 0 <==> Due(now))
    {
      ghost var s := tree.View();
      if tree.root == tree.sentinel {
        NoRootNoNodes(s);
        return TIMER_INFINITE;
      }
      assert s.order != [] && In(s, s.root);
      assert Link(s, s.root);
      var node := tree.Min(tree.root);
      assert Link(s, node);
      assert Armed(node) && Near(node);
      timer := Wrap64(tree.key[node] - now);
      timer := if timer > 0 then timer else 0;
      if tame {
        forall f | Armed(f)
          ensures f in tree.key && tree.key[node] <= tree.key[f]
        {
          RbFacts.FirstIsLeast(s, tree.key, f);
        }
        assert Earliest(node);
      }
    }

    /** Every deadline armed differs from each of those that the operations ask for by an int64. */
    ghost predicate InReach(ops: seq<TimerOp>)
      reads this, tree
    {
      forall f, i {:trigger Armed(f), ops[i]} :: Armed(f) && 0 <= i < |ops| && ops[i].Add? ==>
        f in tree.key && Int64(Asked(ops[i]) - tree.key[f])
    }

    /** An added deadline is within reach of the later ones, and the others stay so. */
    lemma ReachKept(ops: seq<TimerOp>, i: nat, e: Id)
      requires Valid() && OneWindow(ops) && i < |ops| && ops[i].Add? && e in tree.key
      requires forall f, j {:trigger Armed(f), ops[j]} :: Armed(f) && f != e && 0 <= j < |ops| && ops[j].Add? ==>
        f in tree.key && Int64(Asked(ops[j]) - tree.key[f])
      requires tree.key[e] == Asked(ops[i]) || forall j {:trigger ops[j]} :: 0 <= j < |ops| && ops[j].Add? ==>
        Int64(Asked(ops[j]) - tree.key[e])
      ensures InReach(ops)
    {
    }

    /** Any run of timer operations, in any order, keeps all of the above; the tree stays sorted if the deadlines armed
        at the start and all those asked for differ pairwise by an int64. */
    method Run(ops: seq<TimerOp>)
      requires Valid() && forall i :: 0 <= i < |ops| && ops[i].Add? ==> ops[i].ev != tree.sentinel
      modifies this, tree
      ensures Valid() && timerSet == FlagsAfter(old(timerSet), ops) && requested == RequestsAfter(old(requested), ops)
      ensures old(tame && InReach(ops)) && OneWindow(ops) ==> tame && InReach(ops)
    {
      ghost var window := tame && InReach(ops) && OneWindow(ops);
      for i := 0 to |ops|
        invariant Valid() && (window ==> tame && InReach(ops))
        invariant timerSet == FlagsAfter(old(timerSet), ops[..i])
        invariant requested == RequestsAfter(old(requested), ops[..i])
      {
        assert ops[..i + 1][..i] == ops[..i];
        match ops[i] {
          case Add(e, delay, now) => RunAdd(ops, i, window);
          case Del(e) =>
            if e in timerSet && timerSet[e] {
              RunDel(ops, e, window);
            }
          case Find(now) =>
            var _ := FindTimer(now);
        }
      }
      assert ops[..|ops|] == ops;
    }

    /** One deletion of a run. */
    method RunDel(ghost ops: seq<TimerOp>, e: Id, ghost window: bool)
      requires Valid() && Armed(e) && (window ==> tame && InReach(ops))
      modifies this, tree
      ensures Valid() && (window ==> tame && InReach(ops))
      ensures timerSet == old(timerSet)[e := false] && requested == old(requested)
    {
      ghost var was := tree.key;
      DelTimer(e);
      forall f | Armed(f)
        ensures old(Armed(f)) && f in was && f in tree.key && tree.key[f] == was[f]
      {
      }
    }

    /** One addition of a run. */
    method RunAdd(ops: seq<TimerOp>, i: nat, ghost window: bool)
      requires Valid() && i < |ops| && ops[i].Add? && ops[i].ev != tree.sentinel
      requires window ==> tame && InReach(ops) && OneWindow(ops)
      modifies this, tree
      ensures Valid() && (window ==> tame && InReach(ops))
      ensures timerSet == old(timerSet)[ops[i].ev := true] && requested == old(requested)[ops[i].ev := Asked(ops[i])]
    {
      var e := ops[i].ev;
      ghost var deadline := Asked(ops[i]);
      assert window ==> Within(e, deadline);
      ghost var was := tree.key;
      AddTimer(e, ops[i].delay, ops[i].now);
      if window {
        forall f | Armed(f) && f != e
          ensures old(Armed(f)) && f in was && f in tree.key && tree.key[f] == was[f]
        {
        }
        ReachKept(ops, i, e);
      }
    }
  }

  /** The deadline that an addition asks for. */
  function Asked(op: TimerOp): int
    requires op.Add?
  {
    Wrap64(op.now + op.delay)
  }

  /** The flags after a run: an addition arms its event, and a deletion disarms an armed one. */
  function FlagsAfter(flags: map<Id, bool>, ops: seq<TimerOp>): map<Id, bool> {
    if ops == [] then flags else
      var before, op := FlagsAfter(flags, ops[..|ops| - 1]), ops[|ops| - 1];
      match op
      case Add(e, _, _) => before[e := true]
      case Del(e) => if e in before && before[e] then before[e := false] else before
      case Find(_) => before
  }

  /** The deadlines last asked for after a run. */
  function RequestsAfter(requested: map<Id, int>, ops: seq<TimerOp>): map<Id, int> {
    if ops == [] then requested else
      var before, op := RequestsAfter(requested, ops[..|ops| - 1]), ops[|ops| - 1];
      if op.Add? then before[op.ev := Asked(op)] else before
  }

  /** All deadlines asked for differ pairwise by an int64. */
  ghost predicate OneWindow(ops: seq<TimerOp>) {
    forall i, j {:trigger ops[i], ops[j]} :: 0 <= i < |ops| && 0 <= j < |ops| && ops[i].Add? && ops[j].Add? ==>
      Int64(Asked(ops[i]) - Asked(ops[j]))
  }

  /** One event, armed as late as can be. */
  method OneLate() returns (timers: EventTimers)
    ensures fresh(timers) && fresh(timers.tree) && timers.Valid() && timers.tree.sentinel == 3
    ensures timers.timerSet == map[1 := true] && timers.tree.order == [1]
    ensures 1 in timers.tree.key && timers.tree.key[1] == 0x7fff_ffff_ffff_ffff
  {
    timers := new EventTimers(3);
    timers.AddTimer(1, 0x7fff_ffff_ffff_ffff, 0);
  }

  /** Two deadlines that differ by more than an int64: the later one is taken for the first. */
  method TwoFarApart() returns (timers: EventTimers)
    ensures fresh(timers) && fresh(timers.tree) && timers.Valid() && timers.Armed(1) && timers.Armed(2)
    ensures timers.tree.order == [1, 2] && 1 in timers.tree.key && 2 in timers.tree.key
    ensures timers.tree.key[1] == 0x7fff_ffff_ffff_ffff && timers.tree.key[2] == -0x8000_0000_0000_0000
  {
    timers := OneLate();
    assert timers.Armed(1) && !timers.Armed(2);
    assert Wrap64(-0x8000_0000_0000_0000 - 0x7fff_ffff_ffff_ffff) == 1;
    timers.AddTimer(2, -0x8000_0000_0000_0000, 0);
    assert timers.Armed(1);
  }

  /** Outside a window: the deadline of event 2 has long passed, and yet the time to that of event 1 is returned. */
  method MissedDeadline() returns (timers: EventTimers, timer: int)
    ensures timers.Valid() && timers.Armed(1) && timers.Armed(2) && 1 in timers.tree.key && 2 in timers.tree.key
    ensures timers.tree.key[2] == -0x8000_0000_0000_0000 && timer == timers.tree.key[1] == 0x7fff_ffff_ffff_ffff
  {
    timers := TwoFarApart();
    timer := timers.FindTimer(0);
  }
}
