/** The process table of `night_process.c`. */
module Processes {

  const MAX_PROCESSES := 64
  const NO_PID := -1

  datatype Slot = Slot(pid: int, exited: bool, exiting: bool, detached: bool)

  /** The first slot below last with this pid, or last. */
  function SlotOf(slots: seq<Slot>, last: nat, pid: int, i: nat): (r: nat)
    requires i <= last <= |slots|
    ensures i <= r <= last && (r < last ==> slots[r].pid == pid)
    ensures forall j :: i <= j < r ==> slots[j].pid != pid
    decreases last - i
  {
    if i == last || slots[i].pid == pid then i else SlotOf(slots, last, pid, i + 1)
  }

  /** The table when the exit of pid has been noticed. */
  function Marked(slots: seq<Slot>, last: nat, pid: int): (r: seq<Slot>)
    requires last <= |slots|
    ensures |r| == |slots|
  {
    var i := SlotOf(slots, last, pid, 0);
    if i < last then slots[i := slots[i].(exited := true)] else slots
  }

  /** The exit of pid marks the first slot below last that has it, and nothing else. */
  lemma MarkedIs(slots: seq<Slot>, last: nat, pid: int, i: nat)
    requires last <= |slots| && i < |slots|
    ensures Marked(slots, last, pid)[i] ==
      if slots[i].pid == pid && FirstOfPid(slots, last, i) then slots[i].(exited := true) else slots[i]
  {
  }

  /** Slot i is below last, and no slot before it has its pid. */
  predicate FirstOfPid(slots: seq<Slot>, last: nat, i: nat)
    requires i < |slots| && last <= |slots|
  {
    i < last && forall j :: 0 <= j < i ==> slots[j].pid != slots[i].pid
  }

  function MarkedAll(slots: seq<Slot>, last: nat, pids: seq<int>): (r: seq<Slot>)
    requires last <= |slots|
    ensures |r| == |slots|
  {
    if pids == [] then slots else Marked(MarkedAll(slots, last, pids[..|pids| - 1]), last, pids[|pids| - 1])
  }

  /** The exits of several children, in whatever order they are answered. */
  lemma {:induction false} MarkedAllIs(slots: seq<Slot>, last: nat, pids: seq<int>, i: nat)
    requires last <= |slots| && i < |slots|
    ensures MarkedAll(slots, last, pids)[i] ==
      if slots[i].pid in pids && FirstOfPid(slots, last, i) then slots[i].(exited := true) else slots[i]
    ensures forall j :: 0 <= j < |slots| ==> MarkedAll(slots, last, pids)[j].pid == slots[j].pid
  {
    if pids != [] {
      var init, pid := pids[..|pids| - 1], pids[|pids| - 1];
      MarkedAllIs(slots, last, init, i);
      MarkedIs(MarkedAll(slots, last, init), last, pid, i);
      assert pids == init + [pid];
    }
  }

  /** A slot that still keeps the master alive. */
  predicate Alive(slot: Slot) {
    slot.pid != NO_PID && !slot.exited && (slot.exiting || !slot.detached)
  }

  /** A slot after the reaping pass has visited it. */
  function Reaped(slot: Slot): Slot {
    if slot.pid != NO_PID && slot.exited then slot.(pid := NO_PID, detached := true) else slot
  }

  class Table {
    var slots: seq<Slot>
    var last: nat

    predicate Valid()
      reads this
    {
      |slots| == MAX_PROCESSES && last <= MAX_PROCESSES
    }

    constructor ()
      ensures Valid() && last == 0
    {
      slots := seq(MAX_PROCESSES, _ => Slot(0, false, false, false));
      last := 0;
    }

    /** The choice of a slot in `night_spawn_process`. */
    method ChooseSlot() returns (s: nat)
      requires Valid()
      ensures s == SlotOf(slots, last, NO_PID, 0)
    {
      s := 0;
      while s < last
        invariant s <= last && SlotOf(slots, last, NO_PID, s) == SlotOf(slots, last, NO_PID, 0)
      {
        if slots[s].pid == NO_PID {
          break;
        }
        s := s + 1;
      }
    }

    /** `night_spawn_process` in the parent: the child that fork returned gets the first free slot; a full table
        makes none. */
    method Spawn(pid: int) returns (recorded: bool)
      requires Valid() && pid > 0
      modifies this
      ensures Valid()
      ensures recorded <==> SlotOf(old(slots), old(last), NO_PID, 0) < MAX_PROCESSES
      ensures !recorded ==> slots == old(slots) && last == old(last)
      ensures recorded ==>
        var s := SlotOf(old(slots), old(last), NO_PID, 0);
        slots == old(slots)[s := Slot(pid, false, false, false)] && last == if s == old(last) then s + 1 else old(last)
    {
      var s := ChooseSlot();
      if s == MAX_PROCESSES {
        return false;
      }
      slots := slots[s := Slot(pid, false, false, false)];
      if s == last {
        last := last + 1;
      }
      return true;
    }

    /** The search in `night_process_get_status` for the process that was waited for. */
    method Mark(pid: int)
      requires Valid()
      modifies this`slots
      ensures Valid() && slots == Marked(old(slots), last, pid)
      ensures forall i :: 0 <= i < |slots| ==>
        slots[i] == if old(slots)[i].pid == pid && FirstOfPid(old(slots), last, i)
          then old(slots)[i].(exited := true) else old(slots)[i]
    {
      for i := 0 to last
        invariant slots == old(slots) && SlotOf(slots, last, pid, i) == SlotOf(slots, last, pid, 0)
      {
        if slots[i].pid == pid {
          slots := slots[i := slots[i].(exited := true)];
          return;
        }
      }
    }

    /** `night_process_get_status`: the answers of waitpid until it has no more. */
    method GetStatus(pids: seq<int>)
      requires Valid()
      modifies this`slots
      ensures Valid() && slots == MarkedAll(old(slots), last, pids)
      ensures forall i :: 0 <= i < |slots| ==>
        slots[i] == if old(slots)[i].pid in pids && FirstOfPid(old(slots), last, i)
          then old(slots)[i].(exited := true) else old(slots)[i]
    {
      for k := 0 to |pids|
        invariant Valid() && slots == MarkedAll(old(slots), last, pids[..k])
      {
        assert pids[..k + 1][..k] == pids[..k];
        Mark(pids[k]);
      }
      assert pids[..|pids|] == pids;
      forall i | 0 <= i < |slots|
        ensures slots[i] == if old(slots)[i].pid in pids && FirstOfPid(old(slots), last, i)
          then old(slots)[i].(exited := true) else old(slots)[i]
      {
        MarkedAllIs(old(slots), last, pids, i);
      }
    }

    /** `night_reap_children` without interruption: it clears exactly the slots of exited children, and reports
        whether another is left. */
    method Reap() returns (live: bool)
      requires Valid()
      modifies this
      ensures Valid()
      ensures live <==>
        exists i :: 0 <= i < old(last) &&
          var slot := old(slots)[i];
          slot.pid != NO_PID && !slot.exited && (slot.exiting || !slot.detached)
      ensures forall i :: 0 <= i < |slots| ==>
        slots[i] == if i < old(last) && old(slots)[i].pid != NO_PID && old(slots)[i].exited
          then old(slots)[i].(pid := NO_PID, detached := true) else old(slots)[i]
      ensures last == if old(last) > 0 && old(slots)[old(last) - 1].pid != NO_PID && old(slots)[old(last) - 1].exited
        then old(last) - 1 else old(last)
    {
      live := false;
      var i := 0;
      while i < last
        invariant Valid() && 0 <= i <= old(last) && |slots| == |old(slots)|
        invariant forall j :: 0 <= j < |slots| ==> slots[j] == if j < i then Reaped(old(slots)[j]) else old(slots)[j]
        invariant live == (exists j :: 0 <= j < i && Alive(old(slots)[j]))
        invariant last == if i == old(last) > 0 && old(slots)[i - 1].pid != NO_PID && old(slots)[i - 1].exited
          then i - 1 else old(last)
        decreases old(last) - i
      {
        if slots[i].pid != NO_PID {
          if slots[i].exited {
            slots := slots[i := slots[i].(detached := true)];
            if i == last - 1 {
              last := last - 1;
            }
            slots := slots[i := slots[i].(pid := NO_PID)];
          } else if slots[i].exiting || !slots[i].detached {
            live := true;
          }
        }
        i := i + 1;
      }
    }
  }
}
