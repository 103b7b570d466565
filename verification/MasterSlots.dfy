/** Which slots a running child has: always one that counts as alive, and only one exactly when no pid is reused too
    early. */
module MasterSlots {
  import opened Processes
  import opened Master

  predicate HasSlot(s: State, k: int, pid: int) {
    0 <= k < s.last <= |s.slots| && s.slots[k].pid == pid
  }

  ghost predicate InTable(s: State, pid: int) {
    exists k {:trigger HasSlot(s, k, pid)} :: HasSlot(s, k, pid)
  }

  /** No other slot than k has the pid. */
  ghost predicate Only(s: State, k: int, pid: int) {
    HasSlot(s, k, pid) && forall l {:trigger HasSlot(s, l, pid)} :: HasSlot(s, l, pid) ==> l == k
  }

  ghost predicate OneSlot(s: State, pid: int) {
    exists k {:trigger Only(s, k, pid)} :: Only(s, k, pid)
  }

  /** The child has been recorded. */
  predicate RecordedChild(s: State, pid: int) {
    pid in s.running && !(s.at.Forked? && s.at.pid == pid)
  }

  /** Every recorded running child has exactly one slot. */
  ghost predicate Single(s: State) {
    forall p {:trigger RecordedChild(s, p)} :: RecordedChild(s, p) ==> OneSlot(s, p)
  }

  /** Fork f answers a pid that is still in the table, and that child is still running when it is recorded at step r. */
  ghost predicate Doubles(states: seq<State>, steps: seq<Step>, f: nat, r: nat)
    requires |states| == |steps| + 1
  {
    && f < r < |steps| && steps[f].Fork? && InTable(states[f], steps[f].pid)
    && (forall k {:trigger states[k]} :: f < k <= r ==> states[k].at.Forked?)
    && steps[r] == Record && steps[f].pid in states[r].running
  }

  /** A running child that has been recorded always has a slot below the bound whose exit mark is clear. */
  lemma RunningHasSlot(states: seq<State>, steps: seq<Step>, workers: nat, k: nat, p: int)
    requires Run(states, steps) && Init(states[0], workers) && k < |states| && RecordedChild(states[k], p)
    ensures states[k].last <= |states[k].slots| && Kept(states[k].slots, states[k].last, p) && InTable(states[k], p)
  {
    RunKeeps(states, steps, workers, k);
    var s := states[k];
    assert Kept(s.slots, s.last, p);
    var i: nat :| Serves(s.slots, s.last, i, p);
    assert HasSlot(s, i, p);
  }

  // ---------- one step ----------

  /** The table's pids are the same. */
  ghost predicate SamePids(s: State, s': State) {
    forall k, p {:trigger HasSlot(s, k, p)} {:trigger HasSlot(s', k, p)} :: HasSlot(s, k, p) == HasSlot(s', k, p)
  }

  lemma SameSingle(s: State, s': State)
    requires SamePids(s, s') && Single(s)
    requires (forall p {:trigger RecordedChild(s', p)} :: RecordedChild(s', p) ==> RecordedChild(s, p))
    ensures Single(s')
  {
    forall p | RecordedChild(s', p)
      ensures OneSlot(s', p)
    {
      assert OneSlot(s, p);
      var k :| Only(s, k, p);
      assert Only(s', k, p);
    }
  }

  lemma SignalSamePids(s: State, pids: seq<int>)
    requires s.last <= |s.slots|
    ensures SamePids(s, AfterChildSignal(s, pids))
  {
    MarksOnly(s.slots, s.last, pids);
  }

  /** Between a fork and its record, nothing changes the table's pids. */
  lemma WindowStep(s: State, a: Step)
    requires s.at.Forked? && Enabled(s, a) && a != Record
    ensures After(s, a).at == s.at && SamePids(s, After(s, a))
  {
    if a.ChildSignal? {
      SignalSamePids(s, a.pids);
    }
  }

  /** A slot is cleared or loses its place only when it is marked; a running child's only slot is not. */
  lemma ClearedSlot(s: State, s': State, i: nat)
    requires Inv(s) && Single(s) && s'.running == s.running && !s.at.Forked? && !s'.at.Forked?
    requires i < |s.slots| == |s'.slots| && s.slots[i].exited
    requires s'.slots == s.slots[i := s'.slots[i]] && (s'.slots[i].pid == s.slots[i].pid || s'.slots[i].pid == NO_PID)
    requires s'.last == s.last || (s'.last == i && s.last == i + 1)
    ensures Single(s')
  {
    forall p | RecordedChild(s', p)
      ensures OneSlot(s', p)
    {
      assert RecordedChild(s, p) && OneSlot(s, p);
      var k :| Only(s, k, p);
      assert Kept(s.slots, s.last, p);
      var j: nat :| Serves(s.slots, s.last, j, p);
      assert HasSlot(s, j, p) && j == k;
      assert Only(s', k, p) by {
        assert HasSlot(s', k, p);
        forall l | HasSlot(s', l, p)
          ensures l == k
        {
          assert HasSlot(s, l, p);
        }
      }
    }
  }

  /** The new child's slot is its only one, and the others keep theirs. */
  lemma RecordSingle(s: State)
    requires Inv(s) && Single(s) && Enabled(s, Record) && (s.at.pid in s.running ==> !InTable(s, s.at.pid))
    ensures Single(AfterRecord(s))
  {
    var s', n := AfterRecord(s), s.at.slot;
    forall p | RecordedChild(s', p)
      ensures OneSlot(s', p)
    {
      if p == s.at.pid {
        assert Only(s', n, p) by {
          forall l | HasSlot(s', l, p)
            ensures l == n
          {
            assert !HasSlot(s, l, p);
          }
        }
      } else {
        assert RecordedChild(s, p);
        var k :| Only(s, k, p);
        assert Only(s', k, p) by {
          assert HasSlot(s', k, p);
          forall l | HasSlot(s', l, p)
            ensures l == k
          {
            assert HasSlot(s, l, p);
          }
        }
      }
    }
  }

  lemma GoSingle(s: State)
    requires Inv(s) && Single(s) && Enabled(s, Go)
    ensures Single(AfterGo(s))
  {
    var s' := AfterGo(s);
    if s.at.Detaching? || s.at.Freeing? {
      ClearedSlot(s, s', s.at.i);
    } else {
      SameSingle(s, s');
    }
  }

  lemma TellSingle(s: State, sent: bool)
    requires Inv(s) && Single(s) && Enabled(s, Tell(sent))
    ensures Single(AfterTell(s, sent))
  {
    SameSingle(s, AfterTell(s, sent));
  }

  lemma StepSingle(s: State, a: Step)
    requires Inv(s) && Single(s) && Enabled(s, a) && (a == Record && s.at.pid in s.running ==> !InTable(s, s.at.pid))
    ensures Single(After(s, a))
  {
    match a {
      case Record => RecordSingle(s);
      case ChildSignal(pids) =>
        SignalSamePids(s, pids);
        SameSingle(s, After(s, a));
      case Go => GoSingle(s);
      case Tell(sent) => TellSingle(s, sent);
      case _ => SameSingle(s, After(s, a));
    }
  }

  // ---------- the window between fork and record ----------

  lemma {:induction false} Window(states: seq<State>, steps: seq<Step>, f: nat, k: nat, pid: int)
    requires Run(states, steps) && f < k < |states| && steps[f] == Fork(pid)
    requires forall j {:trigger states[j]} :: f < j <= k ==> states[j].at.Forked?
    ensures states[k].at.Forked? && states[k].at.pid == pid && SamePids(states[f], states[k])
  {
    assert Leads(states, steps, k - 1);
    if k > f + 1 {
      Window(states, steps, f, k - 1, pid);
      WindowStep(states[k - 1], steps[k - 1]);
    }
  }

  lemma IntoForked(s: State, a: Step)
    requires Enabled(s, a) && After(s, a).at.Forked?
    ensures if a.Fork? then After(s, a).at.pid == a.pid else After(s, a).at == s.at
  {
  }

  /** The fork that a record belongs to. */
  lemma {:induction false} ForkOf(states: seq<State>, steps: seq<Step>, workers: nat, k: nat) returns (f: nat)
    requires Run(states, steps) && Init(states[0], workers) && k < |states| && states[k].at.Forked?
    ensures f < k && steps[f] == Fork(states[k].at.pid) && forall j {:trigger states[j]} :: f < j <= k ==>
      states[j].at.Forked?
  {
    assert Leads(states, steps, k - 1);
    IntoForked(states[k - 1], steps[k - 1]);
    if steps[k - 1].Fork? {
      f := k - 1;
    } else {
      f := ForkOf(states, steps, workers, k - 1);
    }
  }

  // ---------- whole runs ----------

  lemma {:induction false} SingleWhileFresh(states: seq<State>, steps: seq<Step>, workers: nat, k: nat)
    requires Run(states, steps) && Init(states[0], workers) && k < |states|
    requires forall f, r {:trigger Doubles(states, steps, f, r)} :: !Doubles(states, steps, f, r)
    ensures Single(states[k])
  {
    if k > 0 {
      SingleWhileFresh(states, steps, workers, k - 1);
      RunKeeps(states, steps, workers, k - 1);
      assert Leads(states, steps, k - 1);
      var s := states[k - 1];
      if steps[k - 1] == Record && s.at.pid in s.running {
        var f := ForkOf(states, steps, workers, k - 1);
        Window(states, steps, f, k - 1, s.at.pid);
        assert !Doubles(states, steps, f, k - 1);
        assert InTable(s, s.at.pid) ==> InTable(states[f], s.at.pid);
      }
      StepSingle(s, steps[k - 1]);
    }
  }

  lemma DoublesIsSeen(states: seq<State>, steps: seq<Step>, workers: nat, f: nat, r: nat)
    requires Run(states, steps) && Init(states[0], workers) && Doubles(states, steps, f, r)
    ensures !Single(states[r + 1])
  {
    var p := steps[f].pid;
    Window(states, steps, f, r, p);
    RunKeeps(states, steps, workers, r);
    assert Leads(states, steps, r);
    var s, s', n := states[r], states[r + 1], states[r].at.slot;
    var k :| HasSlot(states[f], k, p);
    assert HasSlot(s, k, p);
    assert HasSlot(s', k, p) && HasSlot(s', n, p) && k != n;
    assert RecordedChild(s', p);
  }

  /** In all states of a run every recorded running child has exactly one slot, exactly when no fork answers a pid
      still in the table whose child is still running when it is recorded. */
  lemma SingleExactlyWhen(states: seq<State>, steps: seq<Step>, workers: nat)
    requires Run(states, steps) && Init(states[0], workers)
    ensures (forall k :: 0 <= k < |states| ==> Single(states[k])) <==>
      (forall f, r {:trigger Doubles(states, steps, f, r)} :: !Doubles(states, steps, f, r))
  {
    if f, r :| Doubles(states, steps, f, r) {
      DoublesIsSeen(states, steps, workers, f, r);
    } else {
      forall k | 0 <= k < |states|
        ensures Single(states[k])
      {
        SingleWhileFresh(states, steps, workers, k);
      }
    }
  }

  // ---------- runs that go wrong ----------

  /** The table holds only the slot of a child that was collected before it was recorded, and one more child is to
      be forked. */
  ghost predicate LostOne(s: State) {
    && |s.slots| == MAX_PROCESSES && s.last == 1 && s.slots[0] == Slot(7, false, false, false)
    && s.at == Spawning(1) && s.running == {} && s.zombies == {} && !s.pending
  }

  /** The first child terminates, and is collected, between its fork and its record. */
  lemma LoseOne(s: State) returns (states: seq<State>)
    requires Init(s, 2)
    ensures Run(states, [Fork(7), ChildExit(7), ChildSignal([7]), Record]) && states[0] == s && LostOne(states[4])
  {
    var s1 := After(s, Fork(7));
    var s2 := After(s1, ChildExit(7));
    assert Members([7]) == s2.zombies;
    var s3 := After(s2, ChildSignal([7]));
    assert MarkedAll(s2.slots, 0, [7]) == Marked(MarkedAll(s2.slots, 0, []), 0, 7);
    var s4 := After(s3, Record);
    states := [s, s1, s2, s3, s4];
  }

  /** The second fork answers the same pid: the running child stands in two slots. */
  lemma DoubleReachable(s: State) returns (states: seq<State>, steps: seq<Step>)
    requires Init(s, 2)
    ensures Run(states, steps) && states[0] == s && !Single(states[|states| - 1])
    ensures states[|states| - 1].running == {7} && HasSlot(states[|states| - 1], 0, 7)
    ensures HasSlot(states[|states| - 1], 1, 7)
  {
    var first := LoseOne(s);
    var s1 := After(first[4], Fork(7));
    var s2 := After(s1, Record);
    assert Run([first[4], s1, s2], [Fork(7), Record]);
    Joined(first, [Fork(7), ChildExit(7), ChildSignal([7]), Record], [first[4], s1, s2], [Fork(7), Record]);
    states := first + [first[4], s1, s2][1..];
    steps := [Fork(7), ChildExit(7), ChildSignal([7]), Record] + [Fork(7), Record];
    assert states[|states| - 1] == s2 && RecordedChild(s2, 7) && HasSlot(s2, 0, 7) && HasSlot(s2, 1, 7);
  }
}
