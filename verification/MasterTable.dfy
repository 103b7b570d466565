/** The steps of the master, taken without interruption, are the operations of the process table. */
module MasterTable {
  import opened Processes
  import opened Master

  predicate Passing(at: Place) {
    at.Reaping? || at.Detaching? || at.Freeing?
  }

  /** How much of a pass is left. */
  function Left(s: State): nat {
    match s.at
    case Reaping(i, _) => if i < |s.slots| then 3 * (|s.slots| - i) + 1 else 1
    case Detaching(i, _) => if i < |s.slots| then 3 * (|s.slots| - i) else 1
    case Freeing(i, _) => if i < |s.slots| then 3 * (|s.slots| - i) - 1 else 1
    case _ => 0
  }

  ghost predicate Sound(s: State) {
    s.last <= |s.slots| && (s.at.Detaching? || s.at.Freeing? ==> s.at.i < |s.slots|)
  }

  /** The master alone, up to the end of its pass. */
  ghost function WholePass(s: State): State
    requires Sound(s)
    decreases Left(s)
  {
    if !Passing(s.at) then s else WholePass(AfterGo(s))
  }

  ghost predicate AnyAlive(slots: seq<Slot>, i: nat, last: nat)
    requires last <= |slots|
  {
    exists j :: i <= j < last && Alive(slots[j])
  }

  /** The last slot of the table is that of a child that has exited. */
  predicate Shrinks(slots: seq<Slot>, i: nat, last: nat)
    requires last <= |slots|
  {
    i < last && slots[last - 1].pid != NO_PID && slots[last - 1].exited
  }

  /** Slots from i to last are reaped, the table shrinks if the last of them is, and a live one is noticed. */
  ghost predicate IsReaped(s: State, t: State, i: nat, live: bool) {
    && s.last <= |s.slots| == |t.slots|
    && (forall j :: 0 <= j < |s.slots| ==>
          t.slots[j] == if i <= j < s.last then Reaped(s.slots[j]) else s.slots[j])
    && t.last == (if Shrinks(s.slots, i, s.last) then s.last - 1 else s.last)
    && t == s.(slots := t.slots, last := t.last, at := t.at)
    && t.at == Checking(live || AnyAlive(s.slots, i, s.last))
  }

  lemma PassStep(s: State)
    requires Sound(s) && Passing(s.at)
    ensures Sound(AfterGo(s)) && WholePass(s) == WholePass(AfterGo(s))
  {
  }

  /** A slot whose child has exited takes three steps. */
  lemma ThreeSteps(s: State, i: nat, live: bool) returns (a: State, b: State, u: State)
    requires s.at == Reaping(i, live) && i < s.last <= |s.slots| && s.slots[i].pid != NO_PID && s.slots[i].exited
    ensures AfterGo(s) == a && Sound(a) && Passing(a.at)
    ensures AfterGo(a) == b && Sound(b) && Passing(b.at)
    ensures AfterGo(b) == u && Sound(u)
    ensures u == s.(slots := s.slots[i := Reaped(s.slots[i])], last := if i + 1 == s.last then i else s.last,
      at := Reaping(i + 1, live))
  {
    a := s.(at := Detaching(i, live));
    var last := if i + 1 == s.last then i else s.last;
    b := s.(slots := s.slots[i := s.slots[i].(detached := true)], last := last, at := Freeing(i, live));
    u := AfterGo(b);
    assert u.slots == s.slots[i := Reaped(s.slots[i])];
  }

  /** One slot of the pass. */
  lemma OneSlot(s: State, i: nat, live: bool) returns (u: State)
    requires s.at == Reaping(i, live) && i < s.last <= |s.slots|
    ensures u == s.(slots := s.slots[i := Reaped(s.slots[i])], last := u.last, at := u.at) && Sound(u)
    ensures u.last == (if i + 1 == s.last && Shrinks(s.slots, i, s.last) then i else s.last)
    ensures u.at == Reaping(i + 1, live || Alive(s.slots[i]))
    ensures WholePass(s) == WholePass(u)
  {
    if s.slots[i].pid != NO_PID && s.slots[i].exited {
      var a, b;
      a, b, u := ThreeSteps(s, i, live);
      PassStep(s);
      PassStep(a);
      PassStep(b);
    } else {
      PassStep(s);
      u := AfterGo(s);
      assert s.slots[i := s.slots[i]] == s.slots;
    }
  }

  lemma AliveStep(slots: seq<Slot>, i: nat, last: nat, slots': seq<Slot>, last': nat)
    requires i < last <= |slots| && slots' == slots[i := Reaped(slots[i])]
    requires last' == if i + 1 == last && Shrinks(slots, i, last) then i else last
    ensures AnyAlive(slots, i, last) <==> Alive(slots[i]) || AnyAlive(slots', i + 1, last')
    ensures Shrinks(slots, i, last) ==
      if i + 1 == last then last' < last else Shrinks(slots', i + 1, last')
  {
    if AnyAlive(slots, i, last) {
      var j :| i <= j < last && Alive(slots[j]);
      assert j > i ==> slots'[j] == slots[j];
    }
    if AnyAlive(slots', i + 1, last') {
      var j :| i + 1 <= j < last' && Alive(slots'[j]);
      assert slots'[j] == slots[j];
    }
  }

  /** A pass that nothing interrupts does what `night_reap_children` does. */
  lemma {:induction false} PassIsReap(s: State, i: nat, live: bool)
    requires s.at == Reaping(i, live) && s.last <= |s.slots|
    ensures IsReaped(s, WholePass(s), i, live)
    decreases |s.slots| - i
  {
    if i >= s.last {
      var a := AfterGo(s);
      assert a == s.(at := Checking(live)) && WholePass(s) == WholePass(a) == a;
    } else {
      var u := OneSlot(s, i, live);
      PassIsReap(u, i + 1, live || Alive(s.slots[i]));
      AliveStep(s.slots, i, s.last, u.slots, u.last);
      ReapedFrom(s, u, WholePass(u), i, live);
    }
  }

  lemma ReapedFrom(s: State, u: State, t: State, i: nat, live: bool)
    requires i < s.last <= |s.slots| && IsReaped(u, t, i + 1, live || Alive(s.slots[i]))
    requires u == s.(slots := s.slots[i := Reaped(s.slots[i])], last := u.last, at := u.at)
    requires u.last == (if i + 1 == s.last && Shrinks(s.slots, i, s.last) then i else s.last)
    requires AnyAlive(s.slots, i, s.last) <==> Alive(s.slots[i]) || AnyAlive(u.slots, i + 1, u.last)
    requires Shrinks(s.slots, i, s.last) ==
      if i + 1 == s.last then u.last < s.last else Shrinks(u.slots, i + 1, u.last)
    ensures IsReaped(s, t, i, live)
  {
  }

  /** A fork whose record nothing interrupts takes the slot that `night_spawn_process` takes. */
  lemma ForkIsSpawn(s: State, pid: int)
    requires Inv(s) && Enabled(s, Fork(pid))
    ensures
      var t := AfterRecord(AfterFork(s, pid));
      var k := SlotOf(s.slots, s.last, NO_PID, 0);
      && t.slots == s.slots[k := Slot(pid, false, false, false)]
      && t.last == (if k == s.last then k + 1 else s.last) && t.running == s.running + {pid}
  {
  }

  /** The handler marks what `night_process_get_status` marks: for each child that has terminated the first slot with
      its pid, and wakes a suspended master. */
  lemma HandlerIsGetStatus(s: State, pids: seq<int>, i: nat)
    requires Inv(s) && Enabled(s, ChildSignal(pids)) && i < |s.slots|
    ensures
      var t := AfterChildSignal(s, pids);
      && t.slots[i] == (if s.slots[i].pid in s.zombies && FirstOfPid(s.slots, s.last, i)
           then s.slots[i].(exited := true) else s.slots[i])
      && t.reap && t.zombies == {} && (s.at == Suspended ==> t.at == Woken)
  {
    MarkedAllIs(s.slots, s.last, pids, i);
  }
}
