/** The master process of `night_process_cycle.c` as a state machine: its own steps interleaved with the exits of
    children and with signal handlers. SIGCHLD can be handled between any two of the master's steps; SIGTERM and SIGQUIT
    are blocked except while it is suspended. */
module Master {
  import opened Processes

  /** Where the master is. */
  datatype Place =
    | Spawning(left: nat)                         // children still to fork
    | Forked(pid: int, slot: nat, left: nat)      // forked, not yet recorded
    | Suspended                                   // in sigsuspend
    | Woken
    | FlagSeen                                    // night_reap was found set, and is not yet cleared
    | Reaping(i: nat, live: bool)                 // the reaping pass is at slot i
    | Detaching(i: nat, live: bool)               // slot i was found exited
    | Freeing(i: nat, live: bool)                 // the table was shrunk, the pid is not yet cleared
    | Checking(live: bool)
    | Signalling(i: nat, quit: bool)
    | Gone

  datatype State = State(
    slots: seq<Slot>, last: nat, at: Place,
    reap: bool, terminate: bool, quit: bool,
    running: set<int>, zombies: set<int>,         // children, and those that have terminated and were not waited for
    pending: bool                                 // SIGCHLD is to be handled
  )

  datatype Step =
    | Fork(pid: int)              // fork answers pid
    | NoFork                      // the table is full, or a system call fails
    | Record
    | ChildExit(pid: int)
    | ChildSignal(pids: seq<int>) // the handler of SIGCHLD; waitpid answers pids, until no zombie is left
    | StopSignal(quit: bool)      // the handler of SIGQUIT, or of SIGTERM
    | Go                          // the master's next step
    | Tell(sent: bool)            // the master's next step while it signals its workers

  ghost predicate Init(s: State, workers: nat) {
    && |s.slots| == MAX_PROCESSES && s.last == 0 && s.at == Spawning(workers)
    && !s.reap && !s.terminate && !s.quit && s.running == {} && s.zombies == {} && !s.pending
  }

  function Chosen(s: State): (r: nat)
    requires s.last <= |s.slots|
  {
    SlotOf(s.slots, s.last, NO_PID, 0)
  }

  function Members(pids: seq<int>): (r: set<int>)
    ensures forall p {:trigger p in r} {:trigger p in pids} :: p in r <==> p in pids
  {
    set p | p in pids
  }

  /** Which steps can happen. */
  ghost predicate Enabled(s: State, a: Step) {
    && s.last <= |s.slots|
    && match a
       case Fork(pid) => s.at.Spawning? && s.at.left > 0 && Chosen(s) < MAX_PROCESSES && pid > 0 && pid !in s.running
         && pid !in s.zombies
       case NoFork => s.at.Spawning? && s.at.left > 0
       case Record => s.at.Forked? && s.at.slot < |s.slots|
       case ChildExit(pid) => pid in s.running
       case ChildSignal(pids) => s.pending && s.at != Gone && Members(pids) == s.zombies
       case StopSignal(_) => s.at == Suspended
       case Go => !s.at.Forked? && s.at != Suspended && s.at != Gone && !s.at.Signalling?
         && (s.at.Spawning? ==> s.at.left == 0) && (s.at.Detaching? || s.at.Freeing? ==> s.at.i < |s.slots|)
       case Tell(_) => s.at.Signalling?
  }

  function AfterFork(s: State, pid: int): State
    requires s.last <= |s.slots| && s.at.Spawning? && s.at.left > 0
  {
    s.(at := Forked(pid, Chosen(s), s.at.left - 1), running := s.running + {pid})
  }

  function AfterRecord(s: State): State
    requires s.at.Forked? && s.at.slot < |s.slots|
  {
    s.(slots := s.slots[s.at.slot := Slot(s.at.pid, false, false, false)], last := if s.at.slot == s.last
      then s.last + 1 else s.last, at := Spawning(s.at.left))
  }

  function AfterChildSignal(s: State, pids: seq<int>): State
    requires s.last <= |s.slots|
  {
    s.(reap := true, slots := MarkedAll(s.slots, s.last, pids), zombies := {}, pending := false,
       at := if s.at == Suspended then Woken else s.at)
  }

  /** Where the pass goes from slot i. */
  function Pass(slots: seq<Slot>, last: nat, i: nat, live: bool): Place
    requires last <= |slots|
  {
    if i >= last then Checking(live)
    else if slots[i].pid == NO_PID then Reaping(i + 1, live)
    else if slots[i].exited then Detaching(i, live)
    else Reaping(i + 1, live || slots[i].exiting || !slots[i].detached)
  }

  /** What the master does when it knows whether a child may be alive. */
  function Check(live: bool, terminate: bool, quit: bool): Place {
    if !live && (terminate || quit) then Gone
    else if terminate then Signalling(0, false)
    else if quit then Signalling(0, true)
    else Suspended
  }

  /** Steps that change nothing but the master's place. */
  function Onward(s: State): Place
    requires s.last <= |s.slots|
  {
    match s.at
    case Spawning(_) => Suspended
    case Woken => if s.reap then FlagSeen else Checking(true)
    case Reaping(i, live) => Pass(s.slots, s.last, i, live)
    case Checking(live) => Check(live, s.terminate, s.quit)
    case _ => s.at
  }

  /** The master's own steps outside spawning and signalling. */
  function AfterGo(s: State): State
    requires Enabled(s, Go)
  {
    match s.at
    case FlagSeen => s.(reap := false, at := Reaping(0, false))
    case Detaching(i, live) => s.(slots := s.slots[i := s.slots[i].(detached := true)], last := if i + 1 == s.last
      then i else s.last, at := Freeing(i, live))
    case Freeing(i, live) => s.(slots := s.slots[i := s.slots[i].(pid := NO_PID)], at := Reaping(i + 1, live))
    case _ => s.(at := Onward(s))
  }

  function AfterTell(s: State, sent: bool): State
    requires s.at.Signalling? && s.last <= |s.slots|
  {
    var i := s.at.i;
    if i >= s.last then s.(at := Suspended)
    else if s.slots[i].pid == NO_PID || (s.slots[i].exiting && s.at.quit) || !sent
      then s.(at := Signalling(i + 1, s.at.quit))
    else s.(slots := s.slots[i := s.slots[i].(exiting := true)], at := Signalling(i + 1, s.at.quit))
  }

  function After(s: State, a: Step): State
    requires Enabled(s, a)
  {
    match a
    case Fork(pid) => AfterFork(s, pid)
    case NoFork => s.(at := Spawning(s.at.left - 1))
    case Record => AfterRecord(s)
    case ChildExit(pid) => s.(running := s.running - {pid}, zombies := s.zombies + {pid}, pending := true)
    case ChildSignal(pids) => AfterChildSignal(s, pids)
    case StopSignal(quit) => s.(terminate := s.terminate || !quit, quit := s.quit || quit, at := Woken)
    case Go => AfterGo(s)
    case Tell(sent) => AfterTell(s, sent)
  }

  // ---------- what every step keeps ----------

  /** Slot i is that of the running child. */
  predicate Serves(slots: seq<Slot>, last: nat, i: nat, pid: int)
    requires last <= |slots|
  {
    i < last && slots[i].pid == pid && !slots[i].exited
  }

  ghost predicate Kept(slots: seq<Slot>, last: nat, pid: int)
    requires last <= |slots|
  {
    exists i {:trigger Serves(slots, last, i, pid)} :: Serves(slots, last, i, pid)
  }

  /** Every running child has a slot whose exit mark is clear, unless it has just been forked. */
  ghost predicate AllKept(s: State)
    requires s.last <= |s.slots|
  {
    forall p {:trigger Kept(s.slots, s.last, p)} :: p in s.running ==>
      Kept(s.slots, s.last, p) || (s.at.Forked? && s.at.pid == p)
  }

  /** Slots below k are free. */
  ghost predicate Cleared(slots: seq<Slot>, k: int) {
    forall j {:trigger slots[j]} :: 0 <= j < k && j < |slots| ==> slots[j].pid == NO_PID
  }

  function Least(a: int, b: int): int {
    if a < b then a else b
  }

  /** What is known where the master is: a pass that has seen nothing alive has left only free slots behind. */
  ghost predicate Located(s: State) {
    match s.at
    case Forked(pid, slot, _) => pid > 0 && slot <= s.last && slot < |s.slots|
      && (slot < s.last ==> s.slots[slot].pid == NO_PID)
    case Reaping(i, live) => i <= |s.slots| && (!live ==> Cleared(s.slots, Least(i, s.last)))
    case Detaching(i, live) => i < s.last <= |s.slots| && s.slots[i].pid != NO_PID && s.slots[i].exited
      && (!live ==> Cleared(s.slots, i))
    case Freeing(i, live) => i <= s.last && i < |s.slots| && s.slots[i].exited && (!live ==> Cleared(s.slots, i))
    case Checking(live) => !live ==> Cleared(s.slots, s.last)
    case Gone => Cleared(s.slots, s.last)
    case _ => true
  }

  /** A child not marked as exited is not detached, so the pass counts it as alive. */
  ghost predicate Attached(s: State)
    requires s.last <= |s.slots|
  {
    forall i {:trigger s.slots[i]} :: 0 <= i < s.last && s.slots[i].pid != NO_PID && !s.slots[i].exited ==>
      !s.slots[i].detached
  }

  ghost predicate Inv(s: State) {
    && |s.slots| == MAX_PROCESSES && s.last <= MAX_PROCESSES
    && (forall p :: p in s.running || p in s.zombies ==> p > 0)
    && s.running !! s.zombies
    && (s.zombies != {} ==> s.pending) && (s.at == FlagSeen ==> s.reap)
    && AllKept(s) && Located(s) && Attached(s)
  }

  /** The handler changes nothing but exit marks, and only those of pids that waitpid answered. */
  ghost predicate OnlyMarks(slots: seq<Slot>, slots': seq<Slot>, pids: seq<int>) {
    && |slots'| == |slots|
    && forall j {:trigger slots'[j]} {:trigger slots[j]} :: 0 <= j < |slots| ==>
      slots'[j] == slots[j] || (slots'[j] == slots[j].(exited := true) && slots[j].pid in pids)
  }

  lemma {:induction false} MarksOnly(slots: seq<Slot>, last: nat, pids: seq<int>)
    requires last <= |slots|
    ensures OnlyMarks(slots, MarkedAll(slots, last, pids), pids)
  {
    if pids != [] {
      var init, p := pids[..|pids| - 1], pids[|pids| - 1];
      MarksOnly(slots, last, init);
      assert forall q :: q in init ==> q in pids;
    }
  }

  lemma ChildSignalKeeps(s: State, pids: seq<int>)
    requires Inv(s) && Enabled(s, ChildSignal(pids))
    ensures Inv(AfterChildSignal(s, pids))
  {
    var s' := AfterChildSignal(s, pids);
    MarksOnly(s.slots, s.last, pids);
    forall p | p in s.running
      ensures Kept(s'.slots, s.last, p) || (s'.at.Forked? && s'.at.pid == p)
    {
      if Kept(s.slots, s.last, p) {
        var i :| Serves(s.slots, s.last, i, p);
        assert Serves(s'.slots, s.last, i, p);
      }
    }
    assert forall k {:trigger Cleared(s.slots, k)} :: Cleared(s.slots, k) ==> Cleared(s'.slots, k);
  }

  lemma ForkKeeps(s: State, pid: int)
    requires Inv(s) && Enabled(s, Fork(pid))
    ensures Inv(AfterFork(s, pid))
  {
    var s' := AfterFork(s, pid);
    forall p | p in s'.running
      ensures Kept(s'.slots, s'.last, p) || (s'.at.Forked? && s'.at.pid == p)
    {
      if p != pid {
        assert Kept(s.slots, s.last, p);
      }
    }
  }

  lemma RecordKeeps(s: State)
    requires Inv(s) && Enabled(s, Record)
    ensures Inv(AfterRecord(s))
  {
    var s' := AfterRecord(s);
    forall p | p in s'.running
      ensures Kept(s'.slots, s'.last, p)
    {
      if p == s.at.pid {
        assert Serves(s'.slots, s'.last, s.at.slot, p);
      } else {
        assert Kept(s.slots, s.last, p);
        var i :| Serves(s.slots, s.last, i, p);
        assert Serves(s'.slots, s'.last, i, p);
      }
    }
  }

  lemma ChildExitKeeps(s: State, pid: int)
    requires Inv(s) && Enabled(s, ChildExit(pid))
    ensures Inv(After(s, ChildExit(pid)))
  {
    var s' := After(s, ChildExit(pid));
    forall p | p in s'.running
      ensures Kept(s'.slots, s'.last, p) || (s'.at.Forked? && s'.at.pid == p)
    {
      assert Kept(s.slots, s.last, p) || (s.at.Forked? && s.at.pid == p);
    }
  }

  /** A change of one slot that serves no running child, and of the bound, keeps every running child's slot. */
  lemma StillKept(s: State, i: nat, slot: Slot, last: nat)
    requires Inv(s) && !s.at.Forked? && i < |s.slots| && last <= s.last
    requires forall j :: last <= j < s.last ==> s.slots[j].exited
    requires i < s.last ==> s.slots[i].exited || (slot.pid == s.slots[i].pid && !slot.exited)
    ensures forall p {:trigger Kept(s.slots[i := slot], last, p)} :: p in s.running ==>
      Kept(s.slots[i := slot], last, p)
  {
    var slots := s.slots[i := slot];
    forall p | p in s.running
      ensures Kept(slots, last, p)
    {
      assert Kept(s.slots, s.last, p);
      var j :| Serves(s.slots, s.last, j, p);
      assert Serves(slots, last, j, p);
    }
  }

  /** What the pass does with the slot it stands at, as long as that one is not to be cleared. */
  lemma PassOn(s: State)
    requires |s.slots| == MAX_PROCESSES && s.last <= MAX_PROCESSES && Located(s) && Attached(s) && Enabled(s, Go)
    requires s.at.Reaping?
    ensures AfterGo(s).slots == s.slots && AfterGo(s).last == s.last && Located(AfterGo(s))
  {
    var i, live := s.at.i, s.at.live;
    if i < s.last {
      var slot := s.slots[i];
      assert slot.pid != NO_PID && !slot.exited ==> !slot.detached;
      if !live && slot.pid == NO_PID {
        assert Cleared(s.slots, i + 1);
      }
    }
  }

  lemma ReapingKeeps(s: State)
    requires Inv(s) && Enabled(s, Go) && s.at.Reaping?
    ensures Inv(AfterGo(s))
  {
    PassOn(s);
    SameTable(s, AfterGo(s));
  }

  /** A step that leaves the table and the children alone. */
  lemma SameTable(s: State, s': State)
    requires Inv(s) && s' == s.(at := s'.at, reap := s'.reap, terminate := s'.terminate, quit := s'.quit)
    requires Located(s') && !s.at.Forked? && (s'.at == FlagSeen ==> s'.reap)
    ensures Inv(s')
  {
    assert forall p {:trigger Kept(s.slots, s.last, p)} :: p in s.running ==> Kept(s.slots, s.last, p);
  }

  lemma DetachingKeeps(s: State)
    requires Inv(s) && Enabled(s, Go) && s.at.Detaching?
    ensures Inv(AfterGo(s))
  {
    var s' := AfterGo(s);
    StillKept(s, s.at.i, s'.slots[s.at.i], s'.last);
  }

  lemma FreeingKeeps(s: State)
    requires Inv(s) && Enabled(s, Go) && s.at.Freeing?
    ensures Inv(AfterGo(s))
  {
    var s' := AfterGo(s);
    StillKept(s, s.at.i, s'.slots[s.at.i], s'.last);
  }

  lemma PlaceKeeps(s: State)
    requires Inv(s) && Enabled(s, Go) && !s.at.Detaching? && !s.at.Freeing? && !s.at.Reaping?
    ensures Inv(AfterGo(s))
  {
    SameTable(s, AfterGo(s));
  }

  lemma GoKeeps(s: State)
    requires Inv(s) && Enabled(s, Go)
    ensures Inv(AfterGo(s))
  {
    if s.at.Detaching? {
      DetachingKeeps(s);
    } else if s.at.Freeing? {
      FreeingKeeps(s);
    } else if s.at.Reaping? {
      ReapingKeeps(s);
    } else {
      PlaceKeeps(s);
    }
  }

  lemma TellKeeps(s: State, sent: bool)
    requires Inv(s) && Enabled(s, Tell(sent))
    ensures Inv(AfterTell(s, sent))
  {
    var s' := AfterTell(s, sent);
    if s'.slots == s.slots {
      assert forall p {:trigger Kept(s.slots, s.last, p)} :: p in s.running ==> Kept(s.slots, s.last, p);
    } else {
      StillKept(s, s.at.i, s'.slots[s.at.i], s'.last);
    }
  }

  lemma StepKeeps(s: State, a: Step)
    requires Inv(s) && Enabled(s, a)
    ensures Inv(After(s, a))
  {
    match a {
      case Fork(pid) => ForkKeeps(s, pid);
      case NoFork =>
        assert forall p {:trigger Kept(s.slots, s.last, p)} :: p in s.running ==> Kept(s.slots, s.last, p);
      case Record => RecordKeeps(s);
      case ChildExit(pid) => ChildExitKeeps(s, pid);
      case ChildSignal(pids) => ChildSignalKeeps(s, pids);
      case StopSignal(_) =>
        assert forall p {:trigger Kept(s.slots, s.last, p)} :: p in s.running ==> Kept(s.slots, s.last, p);
      case Go => GoKeeps(s);
      case Tell(sent) => TellKeeps(s, sent);
    }
  }

  // ---------- whole runs ----------

  /** A run: a sequence of states, each the outcome of a step that can happen. */
  ghost predicate Run(states: seq<State>, steps: seq<Step>) {
    && |states| == |steps| + 1
    && forall k {:trigger Leads(states, steps, k)} :: 0 <= k < |steps| ==> Leads(states, steps, k)
  }

  ghost predicate Leads(states: seq<State>, steps: seq<Step>, k: nat)
    requires k < |steps| && |states| == |steps| + 1
  {
    Enabled(states[k], steps[k]) && states[k + 1] == After(states[k], steps[k])
  }

  lemma InitHolds(s: State, workers: nat)
    requires Init(s, workers)
    ensures Inv(s)
  {
  }

  lemma {:induction false} RunKeeps(states: seq<State>, steps: seq<Step>, workers: nat, k: nat)
    requires Run(states, steps) && Init(states[0], workers) && k < |states|
    ensures Inv(states[k])
  {
    if k == 0 {
      InitHolds(states[0], workers);
    } else {
      RunKeeps(states, steps, workers, k - 1);
      assert Leads(states, steps, k - 1);
      StepKeeps(states[k - 1], steps[k - 1]);
    }
  }

  /** The master is gone only when every child it ever forked has terminated, however the signals were interleaved. */
  lemma GoneMeansAllTerminated(states: seq<State>, steps: seq<Step>, workers: nat, k: nat)
    requires Run(states, steps) && Init(states[0], workers) && k < |states| && states[k].at == Gone
    ensures states[k].running == {}
  {
    RunKeeps(states, steps, workers, k);
    var s := states[k];
    forall p
      ensures p !in s.running
    {
      if p > 0 {
        ClearedKeepsNone(s.slots, s.last, p);
      }
    }
  }

  lemma ClearedKeepsNone(slots: seq<Slot>, last: nat, p: int)
    requires last <= |slots| && Cleared(slots, last) && p != NO_PID
    ensures !Kept(slots, last, p)
  {
  }

  /** A run continued by another. */
  lemma Joined(states: seq<State>, steps: seq<Step>, more: seq<State>, next: seq<Step>)
    requires Run(states, steps) && Run(more, next) && states[|states| - 1] == more[0]
    ensures Run(states + more[1..], steps + next)
  {
    var states', steps' := states + more[1..], steps + next;
    forall k | 0 <= k < |steps'|
      ensures Leads(states', steps', k)
    {
      if k < |steps| {
        assert Leads(states, steps, k);
      } else {
        assert Leads(more, next, k - |steps|);
      }
    }
  }
}
