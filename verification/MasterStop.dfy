/** When the master can still be stopped: the exact condition, for every state after the children were forked. */
module MasterStop {
  import opened Processes
  import opened Master
  import MasterSlots

  /** The children have been forked and recorded. */
  predicate Settled(s: State) {
    !s.at.Spawning? && !s.at.Forked?
  }

  /** Slot k is recorded and has no exit mark: every pass counts it as alive. */
  predicate Unmarked(s: State, k: int) {
    0 <= k < s.last <= |s.slots| && s.slots[k].pid != NO_PID && !s.slots[k].exited
  }

  /** The pid is that of a child whose exit can still be noticed. */
  predicate Awaited(s: State, pid: int) {
    pid in s.running || pid in s.zombies
  }

  /** Every slot that counts as alive waits for an exit still to be noticed, and no two wait for the same one. */
  ghost predicate NoLost(s: State) {
    && (forall k {:trigger Unmarked(s, k)} :: Unmarked(s, k) ==> Awaited(s, s.slots[k].pid))
    && (forall k, l {:trigger Unmarked(s, k), Unmarked(s, l)} :: Unmarked(s, k) && Unmarked(s, l) && k != l ==>
      s.slots[k].pid != s.slots[l].pid)
  }

  /** Marked slots before this one outlast the pass under way. */
  function Front(s: State): nat {
    match s.at
    case Reaping(i, _) => i
    case Detaching(i, _) => i
    case Freeing(i, _) => i
    case _ => |s.slots|
  }

  /** Slot j, marked already, stands before slot k with the same pid, so the handler would find j and not k. */
  predicate Shades(s: State, j: int, k: int) {
    Unmarked(s, k) && 0 <= j < k && j < Front(s) && s.slots[j].pid == s.slots[k].pid && s.slots[j].exited
  }

  ghost predicate Shaded(s: State, k: int) {
    exists j {:trigger Shades(s, j, k)} :: Shades(s, j, k)
  }

  /** A running child whose slot the handler would find. */
  predicate Next(s: State, k: int, pid: int) {
    Unmarked(s, k) && s.slots[k].pid == pid && pid in s.running
  }

  /** Shading slots can be cleared by a pass that comes before the exit they would swallow is noticed. */
  ghost predicate Clearable(s: State) {
    || (forall k {:trigger Shaded(s, k)} :: !Shaded(s, k))
    || s.reap
    || (&& (forall k {:trigger Shaded(s, k)} :: Shaded(s, k) ==> s.slots[k].pid !in s.zombies)
        && (s.pending || exists k, pid {:trigger Next(s, k, pid)} :: Next(s, k, pid) && !Shaded(s, k)))
  }

  /** A stop signal has been handled. */
  predicate Told(s: State) {
    s.terminate || s.quit
  }

  /** A pass is under way or just done, and has found nothing alive. */
  predicate FoundNone(at: Place) {
    match at
    case Reaping(_, live) => !live
    case Detaching(_, live) => !live
    case Freeing(_, live) => !live
    case Checking(live) => !live
    case _ => false
  }

  /** A pass is still to end after the stop signal: a child's exit is still to be noticed, the flag is set and will
      not be used up before the signal, or a pass is under way that has found nothing alive. */
  predicate PassToCome(s: State) {
    || s.running != {} || s.pending || s.at == Gone
    || (if Told(s) then s.reap || FoundNone(s.at) else s.reap && s.at != Woken && s.at != FlagSeen)
  }

  ghost predicate Stoppable(s: State) {
    NoLost(s) && Clearable(s) && PassToCome(s)
  }

  /** Some run from s ends with the master gone. */
  ghost predicate CanStop(s: State) {
    exists states: seq<State>, steps: seq<Step> {:trigger Run(states, steps)} ::
      Run(states, steps) && states[0] == s && states[|states| - 1].at == Gone
  }

  // ---------- steps that leave the open slots alone ----------

  ghost predicate SameOpen(s: State, s': State) {
    && s'.running == s.running && s'.zombies == s.zombies
    && (forall k {:trigger Unmarked(s, k)} {:trigger Unmarked(s', k)} :: Unmarked(s, k) == Unmarked(s', k))
    && (forall k {:trigger Unmarked(s, k)} {:trigger Unmarked(s', k)} :: Unmarked(s, k) && Unmarked(s', k) ==>
      s.slots[k].pid == s'.slots[k].pid)
    && (forall k {:trigger Shaded(s, k)} {:trigger Shaded(s', k)} :: Shaded(s, k) == Shaded(s', k))
  }

  lemma SameLost(s: State, s': State)
    requires SameOpen(s, s')
    ensures NoLost(s) == NoLost(s')
  {
  }

  lemma SameClearable(s: State, s': State)
    requires SameOpen(s, s') && s'.pending == s.pending && s'.reap == s.reap
    ensures Clearable(s) == Clearable(s')
  {
    forall k, pid
      ensures Next(s, k, pid) == Next(s', k, pid)
    {
      assert Unmarked(s, k) == Unmarked(s', k);
    }
    forall k | Shaded(s, k)
      ensures s.slots[k].pid == s'.slots[k].pid
    {
      var j :| Shades(s, j, k);
      assert Unmarked(s, k);
    }
  }

  /** Equal tables, and the same marked slots outlast the pass. */
  lemma SameShades(s: State, s': State)
    requires s'.slots == s.slots && s'.last == s.last && s'.running == s.running && s'.zombies == s.zombies
    requires forall j {:trigger s.slots[j]} ::
      0 <= j < s.last <= |s.slots| && s.slots[j].pid != NO_PID && s.slots[j].exited ==>
      (j < Front(s) <==> j < Front(s'))
    ensures SameOpen(s, s')
  {
    forall k
      ensures Shaded(s, k) == Shaded(s', k)
    {
      forall j
        ensures Shades(s, j, k) == Shades(s', j, k)
      {
      }
    }
  }

  /** The pass changes its own slot, which is marked, and nothing behind it. */
  lemma SameBehind(s: State, s': State, i: nat)
    requires i < |s.slots| == |s'.slots| && s.slots[i].exited && s'.slots == s.slots[i := s'.slots[i]]
    requires s'.slots[i].exited
    requires s.last <= |s.slots| && (s'.last == s.last || (s'.last == i && s.last == i + 1))
    requires Front(s) == i && (Front(s') == i || (Front(s') == i + 1 && s'.slots[i].pid == NO_PID))
    requires s'.running == s.running && s'.zombies == s.zombies
    ensures SameOpen(s, s')
  {
    forall k
      ensures Unmarked(s, k) == Unmarked(s', k)
      ensures Shaded(s, k) == Shaded(s', k)
    {
      forall j
        ensures Shades(s, j, k) == Shades(s', j, k)
      {
      }
    }
  }

  /** The master's own steps, but for the one that clears the flag. */
  lemma GoSameOpen(s: State)
    requires Inv(s) && Enabled(s, Go) && Settled(s) && s.at != FlagSeen
    ensures SameOpen(s, AfterGo(s)) && AfterGo(s).reap == s.reap && AfterGo(s).pending == s.pending
  {
    var s' := AfterGo(s);
    if s.at.Detaching? || s.at.Freeing? {
      SameBehind(s, s', s.at.i);
    } else {
      SameShades(s, s');
    }
  }

  /** Only flags that the handler and the pass do not read have changed. */
  lemma SamePids(s: State, s': State)
    requires |s'.slots| == |s.slots| && s'.last == s.last && Front(s') == Front(s) && s'.running == s.running
    requires s'.zombies == s.zombies
    requires forall j {:trigger s.slots[j]} {:trigger s'.slots[j]} :: 0 <= j < |s.slots| ==>
      s'.slots[j].pid == s.slots[j].pid && s'.slots[j].exited == s.slots[j].exited
    ensures SameOpen(s, s')
  {
    forall k
      ensures Shaded(s, k) == Shaded(s', k)
    {
      forall j
        ensures Shades(s, j, k) == Shades(s', j, k)
      {
      }
    }
  }

  lemma TellSameOpen(s: State, sent: bool)
    requires Inv(s) && Enabled(s, Tell(sent))
    ensures SameOpen(s, AfterTell(s, sent)) && AfterTell(s, sent).reap == s.reap
    ensures AfterTell(s, sent).pending == s.pending
  {
    SamePids(s, AfterTell(s, sent));
  }

  // ---------- a stoppable state has only stoppable states before it ----------

  lemma BeforeGo(s: State)
    requires Inv(s) && Enabled(s, Go) && Settled(s) && Stoppable(AfterGo(s))
    ensures Stoppable(s)
  {
    var s' := AfterGo(s);
    if s.at == FlagSeen {
      assert forall k {:trigger Unmarked(s, k)} {:trigger Unmarked(s', k)} :: Unmarked(s, k) == Unmarked(s', k);
    } else {
      GoSameOpen(s);
      SameLost(s, s');
      SameClearable(s, s');
    }
  }

  lemma BeforeTell(s: State, sent: bool)
    requires Inv(s) && Enabled(s, Tell(sent)) && Stoppable(AfterTell(s, sent))
    ensures Stoppable(s)
  {
    var s' := AfterTell(s, sent);
    TellSameOpen(s, sent);
    SameLost(s, s');
    SameClearable(s, s');
  }

  lemma BeforeStop(s: State, quit: bool)
    requires Inv(s) && Enabled(s, StopSignal(quit)) && Stoppable(After(s, StopSignal(quit)))
    ensures Stoppable(s)
  {
    var s' := After(s, StopSignal(quit));
    SameShades(s, s');
    SameLost(s, s');
    SameClearable(s, s');
  }

  lemma BeforeExit(s: State, p: int)
    requires Inv(s) && Enabled(s, ChildExit(p)) && Settled(s) && Stoppable(After(s, ChildExit(p)))
    ensures Stoppable(s)
  {
    var s' := After(s, ChildExit(p));
    assert forall k {:trigger Unmarked(s, k)} {:trigger Unmarked(s', k)} :: Unmarked(s, k) == Unmarked(s', k);
    assert forall q {:trigger Awaited(s, q)} {:trigger Awaited(s', q)} :: Awaited(s, q) == Awaited(s', q);
    forall k
      ensures Shaded(s, k) == Shaded(s', k)
    {
      assert forall j {:trigger Shades(s, j, k)} {:trigger Shades(s', j, k)} :: Shades(s, j, k) == Shades(s', j, k);
    }
    assert Kept(s.slots, s.last, p);
    var i: nat :| Serves(s.slots, s.last, i, p);
    assert Unmarked(s, i) && Next(s, i, p);
  }

  /** The handler marks a slot only if no slot before it has the same pid. */
  ghost predicate FirstOnly(slots: seq<Slot>, slots': seq<Slot>) {
    && |slots'| == |slots|
    && forall j, k {:trigger slots'[j], slots'[k]} :: 0 <= j < k < |slots| && slots'[k].exited && !slots[k].exited ==>
      slots[j].pid != slots[k].pid
  }

  lemma {:induction false} MarksFirst(slots: seq<Slot>, last: nat, pids: seq<int>)
    requires last <= |slots|
    ensures FirstOnly(slots, MarkedAll(slots, last, pids))
  {
    if pids != [] {
      var init := pids[..|pids| - 1];
      MarksFirst(slots, last, init);
      MarksOnly(slots, last, init);
    }
  }

  /** Every pid that waitpid answers marks the first slot that has it. */
  lemma {:induction false} MarksEach(slots: seq<Slot>, last: nat, pids: seq<int>, k: nat)
    requires k < last <= |slots| && slots[k].pid in pids && forall j :: 0 <= j < k ==> slots[j].pid != slots[k].pid
    ensures MarkedAll(slots, last, pids)[k].exited
  {
    var init, p := pids[..|pids| - 1], pids[|pids| - 1];
    MarksOnly(slots, last, init);
    var marked := MarkedAll(slots, last, init);
    if slots[k].pid == p {
      assert forall j :: 0 <= j < |slots| ==> marked[j].pid == slots[j].pid;
      assert SlotOf(marked, last, p, 0) == k;
    } else {
      assert slots[k].pid in init;
      MarksEach(slots, last, init, k);
    }
  }

  lemma BeforeSignal(s: State, pids: seq<int>)
    requires Inv(s) && Enabled(s, ChildSignal(pids)) && Settled(s) && Stoppable(AfterChildSignal(s, pids))
    ensures Stoppable(s)
  {
    var s' := AfterChildSignal(s, pids);
    MarksOnly(s.slots, s.last, pids);
    MarksFirst(s.slots, s.last, pids);
    assert forall p :: p in pids <==> p in s.zombies;
    forall k | Unmarked(s, k)
      ensures Awaited(s, s.slots[k].pid)
    {
      assert s'.slots[k].pid == s.slots[k].pid;
      assert !Unmarked(s', k) ==> s.slots[k].pid in pids;
    }
    forall k, l | Unmarked(s, k) && Unmarked(s, l) && k < l
      ensures s.slots[k].pid != s.slots[l].pid
    {
      assert s'.slots[k].pid == s.slots[k].pid && s'.slots[l].pid == s.slots[l].pid;
      assert !Unmarked(s', l) ==> s.slots[k].pid != s.slots[l].pid;
      assert !Unmarked(s', k) ==> s.slots[k].pid in s.zombies;
      assert Unmarked(s', l) ==> s.slots[l].pid in s.running by {
        assert Unmarked(s', l) ==> Awaited(s', s'.slots[l].pid);
      }
    }
    forall k | Shaded(s, k)
      ensures s.slots[k].pid !in s.zombies
    {
      var j :| Shades(s, j, k);
      assert s'.slots[j].pid == s.slots[j].pid;
      assert Unmarked(s', k);
    }
  }

  /** A step leads to a stoppable state only from one. */
  lemma BeforeStep(s: State, a: Step)
    requires Inv(s) && Enabled(s, a) && Settled(s) && Stoppable(After(s, a))
    ensures Stoppable(s)
  {
    match a {
      case ChildExit(p) => BeforeExit(s, p);
      case ChildSignal(pids) => BeforeSignal(s, pids);
      case StopSignal(quit) => BeforeStop(s, quit);
      case Go => BeforeGo(s);
      case Tell(sent) => BeforeTell(s, sent);
    }
  }

  lemma GoneIsStoppable(s: State)
    requires Inv(s) && s.at == Gone
    ensures Stoppable(s)
  {
    assert forall k :: !Unmarked(s, k);
  }

  // ---------- from a stoppable state there is always a step towards the end ----------

  lemma AfterGoStops(s: State)
    requires Inv(s) && Enabled(s, Go) && Settled(s) && Stoppable(s)
    ensures Stoppable(AfterGo(s))
  {
    var s' := AfterGo(s);
    if s.at == FlagSeen {
      assert forall k {:trigger Unmarked(s, k)} {:trigger Unmarked(s', k)} :: Unmarked(s, k) == Unmarked(s', k);
      assert forall k {:trigger Shaded(s', k)} :: !Shaded(s', k);
    } else {
      GoSameOpen(s);
      SameLost(s, s');
      SameClearable(s, s');
      if s.at.Reaping? && s.running == {} && !s.pending && s.at.i < s.last {
        assert !Unmarked(s, s.at.i);
      }
    }
  }

  lemma AfterTellStops(s: State)
    requires Inv(s) && Enabled(s, Tell(false)) && Stoppable(s)
    ensures Stoppable(AfterTell(s, false))
  {
    var s' := AfterTell(s, false);
    TellSameOpen(s, false);
    SameLost(s, s');
    SameClearable(s, s');
  }

  lemma AfterStopStops(s: State)
    requires Inv(s) && s.at == Suspended && Stoppable(s)
    ensures Enabled(s, StopSignal(true)) && Stoppable(After(s, StopSignal(true)))
  {
    var s' := After(s, StopSignal(true));
    SameShades(s, s');
    SameLost(s, s');
    SameClearable(s, s');
  }

  /** A handler that swallows no exit: every zombie's slot is the first with its pid. */
  lemma AfterSignalStops(s: State, pids: seq<int>)
    requires Inv(s) && Enabled(s, ChildSignal(pids)) && s.at == Suspended && Stoppable(s) && !s.reap
    requires Told(s)
    ensures Stoppable(AfterChildSignal(s, pids))
  {
    var s' := AfterChildSignal(s, pids);
    MarksOnly(s.slots, s.last, pids);
    assert forall p :: p in pids <==> p in s.zombies;
    forall k | Unmarked(s', k)
      ensures Unmarked(s, k) && Awaited(s', s'.slots[k].pid)
    {
      assert Unmarked(s, k) && s'.slots[k].pid == s.slots[k].pid;
      if s.slots[k].pid in s.zombies {
        Unshaded(s, k);
        MarksEach(s.slots, s.last, pids, k);
      }
    }
    forall k, l | Unmarked(s', k) && Unmarked(s', l) && k != l
      ensures s'.slots[k].pid != s'.slots[l].pid
    {
      assert s'.slots[k].pid == s.slots[k].pid && s'.slots[l].pid == s.slots[l].pid;
    }
  }

  /** A slot that is not shaded outside a pass is the first with its pid. */
  lemma Unshaded(s: State, k: int)
    requires Inv(s) && Unmarked(s, k) && !Shaded(s, k) && NoLost(s) && Front(s) == |s.slots|
    ensures forall j :: 0 <= j < k ==> s.slots[j].pid != s.slots[k].pid
  {
    forall j | 0 <= j < k
      ensures s.slots[j].pid != s.slots[k].pid
    {
      assert !Shades(s, j, k);
      assert s.slots[j].pid != NO_PID && !s.slots[j].exited ==> Unmarked(s, j);
    }
  }

  /** The exit of a child whose slot the handler will find. */
  lemma AfterExitStops(s: State, p: int)
    requires Inv(s) && Enabled(s, ChildExit(p)) && s.at == Suspended && Stoppable(s) && s.zombies == {}
    requires forall k :: Shaded(s, k) ==> s.slots[k].pid != p
    ensures Stoppable(After(s, ChildExit(p)))
  {
    var s' := After(s, ChildExit(p));
    assert forall k {:trigger Unmarked(s, k)} {:trigger Unmarked(s', k)} :: Unmarked(s, k) == Unmarked(s', k);
    assert forall q {:trigger Awaited(s, q)} {:trigger Awaited(s', q)} :: Awaited(s, q) == Awaited(s', q);
    forall k
      ensures Shaded(s, k) == Shaded(s', k)
    {
      assert forall j {:trigger Shades(s, j, k)} {:trigger Shades(s', j, k)} :: Shades(s, j, k) == Shades(s', j, k);
    }
  }

  lemma Pick(pids: set<int>) returns (p: int)
    requires pids != {}
    ensures p in pids
  {
    assert (forall q :: q !in pids) ==> pids == {};
    p :| p in pids;
  }

  lemma {:induction false} InOrder(pids: set<int>) returns (order: seq<int>)
    ensures Members(order) == pids
    decreases pids
  {
    if pids == {} {
      order := [];
    } else {
      var p := Pick(pids);
      var rest := InOrder(pids - {p});
      order := rest + [p];
      assert forall q :: q in order <==> q in pids;
    }
  }

  /** A running child whose exit the handler will not swallow. */
  lemma NextExit(s: State) returns (p: int)
    requires Inv(s) && Stoppable(s) && s.running != {} && !s.reap && !s.pending
    ensures p in s.running && forall k :: Shaded(s, k) ==> s.slots[k].pid != p
  {
    if k :| Shaded(s, k) {
      var l, pid :| Next(s, l, pid) && !Shaded(s, l);
      p := pid;
      forall m | Shaded(s, m)
        ensures s.slots[m].pid != p
      {
        var j :| Shades(s, j, m);
        assert Unmarked(s, m) && Unmarked(s, l);
      }
    } else {
      p := Pick(s.running);
    }
  }

  /** How far the master is from its next stop, for given flags. */
  function Rank(at: Place, reap: bool): nat {
    match at
    case Reaping(i, _) => if i <= 64 then 1000 + 3 * (65 - i) else 1000
    case Detaching(i, _) => if i <= 64 then 1000 + 3 * (65 - i) - 1 else 1000
    case Freeing(i, _) => if i <= 64 then 1000 + 3 * (65 - i) - 2 else 1000
    case Checking(_) => 900
    case Signalling(i, _) => if i < 64 then 100 + (64 - i) else 100
    case Suspended => 50
    case Woken => if reap then 40 else 2000
    case FlagSeen => 30
    case _ => 0
  }

  function Bit(b: bool): nat {
    if b then 1 else 0
  }

  /** Closer to the end: fewer children to exit, fewer signals to handle, or fewer steps of the master's own. */
  predicate Closer(s': State, s: State) {
    || |s'.running| < |s.running|
    || (|s'.running| == |s.running| &&
        (|| Bit(s'.pending) < Bit(s.pending)
         || (s'.pending == s.pending &&
             (|| Bit(!Told(s')) < Bit(!Told(s))
              || (Told(s') == Told(s) &&
                  (|| Bit(s'.reap) < Bit(s.reap)
                   || (s'.reap == s.reap && Rank(s'.at, s'.reap) < Rank(s.at, s.reap))))))))
  }

  lemma PassIsCloser(s: State)
    requires Inv(s) && Enabled(s, Go) && (s.at.Reaping? || s.at.Detaching? || s.at.Freeing?)
    ensures Settled(AfterGo(s)) && Closer(AfterGo(s), s)
  {
  }

  lemma GoIsCloser(s: State)
    requires Inv(s) && Enabled(s, Go) && Settled(s)
    ensures Settled(AfterGo(s)) && Closer(AfterGo(s), s)
  {
    if s.at.Reaping? || s.at.Detaching? || s.at.Freeing? {
      PassIsCloser(s);
    }
  }

  lemma TellIsCloser(s: State)
    requires Inv(s) && Enabled(s, Tell(false))
    ensures Settled(AfterTell(s, false)) && Closer(AfterTell(s, false), s)
  {
  }

  /** What to wait for in sigsuspend. */
  lemma WakeUp(s: State) returns (a: Step)
    requires Inv(s) && s.at == Suspended && Stoppable(s)
    ensures Enabled(s, a) && Settled(After(s, a)) && Stoppable(After(s, a)) && Closer(After(s, a), s)
  {
    if !Told(s) || s.reap {
      a := StopSignal(true);
      AfterStopStops(s);
    } else if s.pending {
      var pids := InOrder(s.zombies);
      a := ChildSignal(pids);
      AfterSignalStops(s, pids);
    } else {
      var p := NextExit(s);
      a := ChildExit(p);
      AfterExitStops(s, p);
    }
  }

  lemma Progress(s: State) returns (a: Step)
    requires Inv(s) && Settled(s) && Stoppable(s) && s.at != Gone
    ensures Enabled(s, a) && Settled(After(s, a)) && Stoppable(After(s, a)) && Closer(After(s, a), s)
  {
    if s.at == Suspended {
      a := WakeUp(s);
    } else if s.at.Signalling? {
      a := Tell(false);
      AfterTellStops(s);
      TellIsCloser(s);
    } else {
      a := Go;
      AfterGoStops(s);
      GoIsCloser(s);
    }
  }

  /** A run from the state after a step is the rest of a run. */
  lemma Prepend(s: State, a: Step)
    requires Enabled(s, a) && CanStop(After(s, a))
    ensures CanStop(s)
  {
    var states: seq<State>, steps: seq<Step> :| Run(states, steps) && states[0] == After(s, a)
      && states[|states| - 1].at == Gone;
    var states', steps' := [s] + states, [a] + steps;
    forall k | 0 <= k < |steps'|
      ensures Leads(states', steps', k)
    {
      if k > 0 {
        assert Leads(states, steps, k - 1);
      }
    }
    assert Run(states', steps') && states'[|states'| - 1] == states[|states| - 1];
  }

  lemma {:induction false} StoppableStops(s: State)
    requires Inv(s) && Settled(s) && Stoppable(s)
    ensures CanStop(s)
    decreases |s.running|, Bit(s.pending), Bit(!Told(s)), Bit(s.reap), Rank(s.at, s.reap)
  {
    if s.at == Gone {
      assert Run([s], []);
    } else {
      var a := Progress(s);
      StepKeeps(s, a);
      StoppableStops(After(s, a));
      Prepend(s, a);
    }
  }

  lemma StaysSettled(s: State, a: Step)
    requires Enabled(s, a) && Settled(s)
    ensures Settled(After(s, a))
  {
  }

  lemma {:induction false} StopsOnlyIf(states: seq<State>, steps: seq<Step>, k: nat)
    requires Run(states, steps) && Inv(states[0]) && Settled(states[0]) && k < |states|
    ensures Inv(states[k]) && Settled(states[k]) && (Stoppable(states[k]) ==> Stoppable(states[0]))
  {
    if k > 0 {
      StopsOnlyIf(states, steps, k - 1);
      assert Leads(states, steps, k - 1);
      var s, a := states[k - 1], steps[k - 1];
      StepKeeps(s, a);
      StaysSettled(s, a);
      if Stoppable(After(s, a)) {
        BeforeStep(s, a);
      }
    }
  }

  /** Once its children are forked, the master can be stopped exactly when no slot waits for an exit that cannot be
      noticed, and a reaping pass is still to come. */
  lemma StopsExactlyWhen(s: State)
    requires Inv(s) && Settled(s)
    ensures CanStop(s) <==> Stoppable(s)
  {
    if Stoppable(s) {
      StoppableStops(s);
    }
    if CanStop(s) {
      var states: seq<State>, steps: seq<Step> :| Run(states, steps) && states[0] == s
        && states[|states| - 1].at == Gone;
      StopsOnlyIf(states, steps, |states| - 1);
      GoneIsStoppable(states[|states| - 1]);
    }
  }

  /** The same, in every run from the start. */
  lemma RunStopsExactlyWhen(states: seq<State>, steps: seq<Step>, workers: nat, k: nat)
    requires Run(states, steps) && Init(states[0], workers) && k < |states| && Settled(states[k])
    ensures CanStop(states[k]) <==> Stoppable(states[k])
  {
    RunKeeps(states, steps, workers, k);
    StopsExactlyWhen(states[k]);
  }

  // ---------- runs after which the master cannot be stopped ----------

  /** All children are gone and noticed, and the flag has been used up. */
  ghost predicate Deaf(s: State) {
    && s.running == {} && s.zombies == {} && !s.pending && !s.reap
    && (s.at == Suspended || s.at == Woken || s.at == Checking(true) || s.at.Signalling?)
  }

  /** From there the master never leaves, whatever stop signals it gets: only a child's exit starts a pass. */
  lemma DeafForever(s: State)
    requires Inv(s) && Deaf(s)
    ensures !CanStop(s)
  {
    StopsExactlyWhen(s);
  }

  /** A pass that finds nothing alive before a stop signal has come leaves the master deaf. */
  lemma DeafAfterPass(s: State)
    requires Inv(s) && s.at == Checking(false) && !Told(s) && !s.reap && !s.pending
    ensures Enabled(s, Go) && Deaf(AfterGo(s)) && !CanStop(AfterGo(s))
  {
    forall p
      ensures p !in s.running
    {
      if p > 0 {
        ClearedKeepsNone(s.slots, s.last, p);
      }
    }
    StepKeeps(s, Go);
    DeafForever(AfterGo(s));
  }

  /** The master has just been woken by the exit of its only worker. */
  ghost predicate OneDead(s: State) {
    && |s.slots| == MAX_PROCESSES && s.last == 1 && s.slots[0].pid == 7 && s.slots[0].exited
    && s.at == Woken && s.reap && !s.terminate && !s.quit && s.running == {} && s.zombies == {} && !s.pending
  }

  lemma WorkerDies(s: State) returns (states: seq<State>)
    requires Init(s, 1)
    ensures Run(states, [Fork(7), Record, Go, ChildExit(7), ChildSignal([7])]) && states[0] == s && OneDead(states[5])
  {
    var s1 := After(s, Fork(7));
    var s2 := After(s1, Record);
    var s3 := After(s2, Go);
    var s4 := After(s3, ChildExit(7));
    assert Members([7]) == s4.zombies;
    var s5 := After(s4, ChildSignal([7]));
    assert MarkedAll(s4.slots, 1, [7]) == Marked(MarkedAll(s4.slots, 1, []), 1, 7);
    states := [s, s1, s2, s3, s4, s5];
  }

  lemma FindDead(s: State, s1: State, s2: State, s3: State)
    requires OneDead(s) && s1 == s.(at := FlagSeen) && s2 == s1.(reap := false, at := Reaping(0, false))
    requires s3 == s2.(at := Detaching(0, false))
    ensures Run([s, s1, s2, s3], [Go, Go, Go])
  {
  }

  lemma ClearDead(s: State, s1: State, s2: State)
    requires |s.slots| == MAX_PROCESSES && s.last == 1 && s.at == Detaching(0, false)
    requires s1 == s.(slots := s.slots[0 := s.slots[0].(detached := true)], last := 0, at := Freeing(0, false))
    requires s2 == s1.(slots := s1.slots[0 := s1.slots[0].(pid := NO_PID)], at := Reaping(1, false))
    ensures Run([s, s1, s2], [Go, Go])
  {
  }

  lemma FinishPass(s: State, s1: State, s2: State)
    requires s.last == 0 && s.at == Reaping(1, false) && !Told(s)
    requires s1 == s.(at := Checking(false)) && s2 == s1.(at := Suspended)
    ensures Run([s, s1, s2], [Go, Go])
  {
  }

  /** The whole pass over the dead worker's slot. */
  lemma PassOverOne(s: State) returns (states: seq<State>)
    requires OneDead(s)
    ensures Run(states, [Go, Go, Go] + [Go, Go] + [Go, Go]) && states[0] == s && Deaf(states[|states| - 1])
  {
    var s1 := s.(at := FlagSeen);
    var s2 := s1.(reap := false, at := Reaping(0, false));
    var s3 := s2.(at := Detaching(0, false));
    var s4 := s3.(slots := s3.slots[0 := s3.slots[0].(detached := true)], last := 0, at := Freeing(0, false));
    var s5 := s4.(slots := s4.slots[0 := s4.slots[0].(pid := NO_PID)], at := Reaping(1, false));
    var s6 := s5.(at := Checking(false));
    var s7 := s6.(at := Suspended);
    FindDead(s, s1, s2, s3);
    ClearDead(s3, s4, s5);
    FinishPass(s5, s6, s7);
    Joined([s, s1, s2, s3], [Go, Go, Go], [s3, s4, s5], [Go, Go]);
    states := [s, s1, s2, s3] + [s3, s4, s5][1..];
    Joined(states, [Go, Go, Go] + [Go, Go], [s5, s6, s7], [Go, Go]);
    states := states + [s5, s6, s7][1..];
  }

  /** One worker that dies before the stop signal is enough. */
  lemma DeafReachable(s: State) returns (states: seq<State>, steps: seq<Step>)
    requires Init(s, 1)
    ensures Run(states, steps) && states[0] == s && Deaf(states[|states| - 1]) && !CanStop(states[|states| - 1])
  {
    var first := WorkerDies(s);
    var more := PassOverOne(first[5]);
    Joined(first, [Fork(7), Record, Go, ChildExit(7), ChildSignal([7])], more, [Go, Go, Go] + [Go, Go] + [Go, Go]);
    states := first + more[1..];
    steps := [Fork(7), Record, Go, ChildExit(7), ChildSignal([7])] + ([Go, Go, Go] + [Go, Go] + [Go, Go]);
    RunStopsExactlyWhen(states, steps, 1, |states| - 1);
  }

  /** A worker that dies between its fork and its record keeps its slot for ever, while another one runs. */
  lemma LostReachable(s: State) returns (states: seq<State>, steps: seq<Step>)
    requires Init(s, 2)
    ensures Run(states, steps) && states[0] == s
    ensures
      var t := states[|states| - 1];
      t.at == Suspended && t.running == {8} && !Deaf(t) && !CanStop(t)
  {
    var first := MasterSlots.LoseOne(s);
    var s1 := After(first[4], Fork(8));
    var s2 := After(s1, Record);
    var s3 := After(s2, Go);
    assert Run([first[4], s1, s2, s3], [Fork(8), Record, Go]);
    Joined(first, [Fork(7), ChildExit(7), ChildSignal([7]), Record], [first[4], s1, s2, s3], [Fork(8), Record, Go]);
    states := first + [first[4], s1, s2, s3][1..];
    steps := [Fork(7), ChildExit(7), ChildSignal([7]), Record] + [Fork(8), Record, Go];
    assert states[|states| - 1] == s3 && Unmarked(s3, 0) && !Awaited(s3, 7);
    RunStopsExactlyWhen(states, steps, 2, |states| - 1);
  }
}
