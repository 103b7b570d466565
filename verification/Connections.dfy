/** The connection pool of `night_connection.c`: a free list, a table by descriptor and a queue of reusable
    connections. */
module Connections {
  import opened Queue

  const NONE := -1              // a null connection, and the descriptor of a connection not in use

  /** What a connection's read handler does with a connection it is asked to close. */
  datatype Outcome = Closes | Marks(reusable: bool) | Ignores

  // ---------- the free list ----------

  predicate FreeLink(next: seq<int>, free: seq<int>, k: int)
    requires 0 <= k < |free|
  {
    0 <= free[k] < |next| && next[free[k]] == if k + 1 < |free| then free[k + 1] else NONE
  }

  /** The list from head is exactly `free`, without duplicates, so it has no cycle. */
  ghost predicate FreeList(next: seq<int>, head: int, free: seq<int>) {
    && head == (if free == [] then NONE else free[0])
    && (forall k {:trigger FreeLink(next, free, k)} :: 0 <= k < |free| ==> FreeLink(next, free, k))
    && (forall j, k :: 0 <= j < k < |free| ==> free[j] != free[k])
  }

  lemma PopFree(next: seq<int>, head: int, free: seq<int>)
    requires FreeList(next, head, free) && free != []
    ensures 0 <= head < |next| && FreeList(next, next[head], free[1..])
    ensures head !in free[1..] && forall c :: c in free <==> c == head || c in free[1..]
  {
    assert FreeLink(next, free, 0);
    var rest := free[1..];
    forall k | 0 <= k < |rest|
      ensures FreeLink(next, rest, k)
    {
      assert FreeLink(next, free, k + 1);
    }
    assert free == [free[0]] + rest;
  }

  lemma PushFree(next: seq<int>, head: int, free: seq<int>, c: int)
    requires FreeList(next, head, free) && 0 <= c < |next| && c !in free
    ensures FreeList(next[c := head], c, [c] + free)
  {
    var next', free' := next[c := head], [c] + free;
    forall k | 0 <= k < |free'|
      ensures FreeLink(next', free', k)
    {
      if k > 0 {
        assert FreeLink(next, free, k - 1);
      }
    }
  }

  /** The list survives a change of links outside it. */
  lemma FreeFrame(next: seq<int>, head: int, free: seq<int>, c: int, v: int)
    requires FreeList(next, head, free) && 0 <= c < |next| && c !in free
    ensures FreeList(next[c := v], head, free)
  {
    var next' := next[c := v];
    forall k | 0 <= k < |free|
      ensures FreeLink(next', free, k)
    {
      assert FreeLink(next, free, k) && free[k] in free;
    }
  }

  // ---------- the queue of reusable connections ----------

  /** Connection c is element c + 1 of the queue exactly when it is flagged. */
  ghost predicate Flagged(order: seq<Id>, reusable: seq<bool>) {
    && (forall c: nat :: c < |reusable| ==> (reusable[c] <==> c + 1 in order))
    && (forall k :: 0 <= k < |order| ==> 1 <= order[k] <= |reusable|)
  }

  lemma Unflag(order: seq<Id>, reusable: seq<bool>, c: nat, k: nat)
    requires Flagged(order, reusable) && Distinct(order) && c < |reusable| && k < |order| && order[k] == c + 1
    ensures Flagged(order[..k] + order[k + 1..], reusable[c := false])
  {
    var order' := order[..k] + order[k + 1..];
    forall x | x != c + 1
      ensures x in order <==> x in order'
    {
      if x in order {
        var i :| 0 <= i < |order| && order[i] == x;
        assert order'[if i < k then i else i - 1] == x;
      }
    }
  }

  lemma Flag(order: seq<Id>, reusable: seq<bool>, c: nat)
    requires Flagged(order, reusable) && c < |reusable|
    ensures Flagged(InsertAt(order, 0, c + 1), reusable[c := true])
  {
    assert InsertAt(order, 0, c + 1) == [c + 1] + order;
  }

  /** The queue is as long as there are flagged connections. */
  lemma FlaggedCount(order: seq<Id>, reusable: seq<bool>)
    requires Flagged(order, reusable) && Distinct(order)
    ensures |set c | 0 <= c < |reusable| && reusable[c] :: c + 1| == |order|
  {
    var marked := set c | 0 <= c < |reusable| && reusable[c] :: c + 1;
    Members(order);
    forall x: int
      ensures x in marked <==> x in order
    {
      if x in order {
        var k :| 0 <= k < |order| && order[k] == x;
        assert reusable[x - 1];
      }
    }
    assert marked == SetOf(order);
  }

  function SetOf(order: seq<Id>): set<Id> {
    set y | y in order
  }

  lemma {:induction false} Members(order: seq<Id>)
    requires Distinct(order)
    ensures |SetOf(order)| == |order|
  {
    if order != [] {
      Members(order[1..]);
      assert SetOf(order) == SetOf(order[1..]) + {order[0]};
    }
  }

  // ---------- draining ----------

  /** The queue that is left, the connections closed so far with the latest first, and the element last asked. */
  datatype Draining = Draining(order: seq<Id>, closed: seq<int>, last: Id)

  /** The read handler of the connection of element x answers; `rest` is the queue without it. */
  function Answered(d: Draining, x: Id, rest: seq<Id>, outcome: Outcome): Draining {
    match outcome
    case Closes => Draining(rest, [x as int - 1] + d.closed, x)
    case Marks(flag) => Draining((if flag then [x] else []) + rest, d.closed, x)
    case Ignores => d.(last := x)
  }

  /** The rounds from i to n, while the queue is not empty: each asks the connection at its end. */
  function Rounds(d: Draining, handlers: nat -> Outcome, i: nat, n: nat): Draining
    decreases n - i
  {
    if i >= n || d.order == [] then d
    else Rounds(Round(d, handlers(i)), handlers, i + 1, n)
  }

  function Round(d: Draining, outcome: Outcome): Draining
    requires d.order != []
  {
    var last := |d.order| - 1;
    Answered(d, d.order[last], d.order[..last], outcome)
  }

  /** How many of k reusable connections are asked: an eighth of them, but at least one and at most eight. */
  function Batch(k: nat): (n: nat)
    requires k > 0
    ensures 1 <= n <= 8 && n <= k
    ensures k < 8 ==> n == 1
    ensures 8 <= k < 72 ==> 8 * n <= k < 8 * n + 8
    ensures k >= 72 ==> n == 8
  {
    if k / 8 < 1 then 1 else if k / 8 > 8 then 8 else k / 8
  }

  function Waiting(order: seq<Id>): Draining {
    Draining(order, [], HEAD)
  }

  /** What draining does to a pool of `total` connections with so many of them free.  If nothing is free after the
      rounds, the connection last asked is asked once more. */
  function Drained(order: seq<Id>, free: nat, total: nat, handlers: nat -> Outcome): Draining {
    if free > total / 16 || order == [] then Waiting(order)
    else OnceMore(Rounds(Waiting(order), handlers, 0, Batch(|order|)), free, handlers(Batch(|order|)))
  }

  function OnceMore(d: Draining, free: nat, outcome: Outcome): Draining {
    if free + |d.closed| == 0 && d.last != HEAD && d.last in d.order
      then Answered(d, d.last, Without(d.order, d.last), outcome) else d
  }

  /** The connections of queue elements. */
  function Slots(order: seq<Id>): (r: seq<int>)
    ensures |r| == |order| && forall i :: 0 <= i < |r| ==> r[i] == order[i] as int - 1
  {
    seq(|order|, i requires 0 <= i < |order| => order[i] as int - 1)
  }

  lemma SlotsLast(order: seq<Id>, k: nat)
    requires k < |order|
    ensures Slots(order[k..]) == Slots(order[..|order| - 1][k..]) + [order[|order| - 1] as int - 1]
  {
  }

  /** Handlers that close: the rounds take the connections from the end of the queue. */
  lemma {:induction false} RoundsClosing(d: Draining, handlers: nat -> Outcome, i: nat, n: nat)
    requires (forall j :: handlers(j).Closes?) && i <= n && n - i <= |d.order|
    ensures
      var r, k := Rounds(d, handlers, i, n), |d.order| - (n - i);
      r.order == d.order[..k] && r.closed == Slots(d.order[k..]) + d.closed
    decreases n - i
  {
    var k := |d.order| - (n - i);
    if i == n {
      assert d.order[..k] == d.order && d.order[k..] == [];
      assert Slots([]) + d.closed == d.closed;
    } else {
      var last := |d.order| - 1;
      var x := d.order[last];
      RoundsClosing(Round(d, handlers(i)), handlers, i + 1, n);
      SlotsLast(d.order, k);
      Regroup(Slots(d.order[..last][k..]), x as int - 1, d.closed);
      assert d.order[..last][..k] == d.order[..k];
    }
  }

  lemma Regroup(a: seq<int>, c: int, b: seq<int>)
    ensures a + ([c] + b) == (a + [c]) + b
  {
  }

  /** Then exactly the batch at the end of the queue is closed, from its end on. */
  lemma DrainedClosing(order: seq<Id>, free: nat, total: nat, handlers: nat -> Outcome)
    requires (forall j :: handlers(j).Closes?) && free <= total / 16 && order != []
    ensures
      var d, k := Drained(order, free, total, handlers), |order| - Batch(|order|);
      d.order == order[..k] && d.closed == Slots(order[k..])
  {
    var k := |order| - Batch(|order|);
    RoundsClosing(Waiting(order), handlers, 0, Batch(|order|));
    assert Slots(order[k..]) + [] == Slots(order[k..]);
  }

  /** Only connections of the queue are closed, and none joins it. */
  ghost predicate Within(d: Draining, from: Draining) {
    && (forall x :: x in d.order ==> x in from.order)
    && (forall c :: c in d.closed ==> c in from.closed || (c >= -1 && c + 1 in from.order))
  }

  lemma {:induction false} RoundsWithin(d: Draining, handlers: nat -> Outcome, i: nat, n: nat)
    ensures Within(Rounds(d, handlers, i, n), d)
    decreases n - i
  {
    if i < n && d.order != [] {
      RoundsWithin(Round(d, handlers(i)), handlers, i + 1, n);
      assert Within(Round(d, handlers(i)), d);
    }
  }

  lemma {:induction false} WithoutWithin(order: seq<Id>, x: Id)
    ensures forall y :: y in Without(order, x) ==> y in order
  {
    if order != [] {
      WithoutWithin(order[1..], x);
    }
  }

  lemma DrainedWithin(order: seq<Id>, free: nat, total: nat, handlers: nat -> Outcome)
    ensures Within(Drained(order, free, total, handlers), Waiting(order))
  {
    if free <= total / 16 && order != [] {
      var d := Rounds(Waiting(order), handlers, 0, Batch(|order|));
      RoundsWithin(Waiting(order), handlers, 0, Batch(|order|));
      WithoutWithin(d.order, d.last);
    }
  }

  /** The closed connections have no descriptor, the others keep theirs. */
  ghost predicate Emptied(fd: seq<int>, was: seq<int>, closed: seq<int>) {
    |fd| == |was| && forall c :: 0 <= c < |fd| ==> fd[c] == if c in closed then NONE else was[c]
  }

  /** The closed connections are not filed, the others stay so. */
  ghost predicate Unfiled(files: seq<int>, was: seq<int>, closed: seq<int>) {
    |files| == |was| && forall s :: 0 <= s < |files| ==> files[s] == if was[s] in closed then NONE else was[s]
  }

  /** The descriptor table after a get: what was closed is forgotten, and the lease is filed if its place is free. */
  ghost predicate Refiled(files: seq<int>, closed: seq<int>, was: seq<int>, socket: nat, r: int) {
    && |files| == |was|
    && forall s :: 0 <= s < |files| ==>
      files[s] ==
        var kept := if was[s] in closed then NONE else was[s];
        if s == socket && r != NONE && kept == NONE then r else kept
  }

  lemma FileLease(files: seq<int>, files': seq<int>, closed: seq<int>, was: seq<int>, socket: nat, r: int)
    requires Unfiled(files, was, closed) && socket < |files| && r != NONE
    requires files' == if files[socket] == NONE then files[socket := r] else files
    ensures Refiled(files', closed, was, socket, r)
  {
  }

  class Cycle {
    const total: nat
    var next: seq<int>
    var fd: seq<int>
    var reusable: seq<bool>
    var readInstance: seq<bool>
    var writeInstance: seq<bool>
    var free_: int
    var freeCount: int
    var files: seq<int>
    const queue: LinkQueue
    var reusableCount: int

    ghost var free: seq<int>
    ghost var leases: seq<nat>    // how often each connection was handed out

    ghost predicate Shaped()
      reads this
    {
      |next| == |fd| == |reusable| == |readInstance| == |writeInstance| == |leases| == total
    }

    /** Free and leased connections partition the array. */
    ghost predicate Partitioned()
      reads this
    {
      && Shaped() && FreeList(next, free_, free) && freeCount == |free|
      && (forall c :: 0 <= c < total ==> (fd[c] == NONE <==> c in free))
      && (forall c :: 0 <= c < total && fd[c] != NONE ==> 0 <= fd[c] < |files|)
    }

    /** A descriptor's entry is a leased connection with that descriptor. */
    ghost predicate Filed()
      reads this
    {
      Shaped() && forall s :: 0 <= s < |files| && files[s] != NONE ==> 0 <= files[s] < total && fd[files[s]] == s
    }

    /** The instance bit tells the leases of a connection apart: it is the parity of their number. */
    ghost predicate Stamped()
      reads this
    {
      && Shaped()
      && (forall c :: 0 <= c < total ==> (readInstance[c] <==> leases[c] % 2 == 0))
      && (forall c :: 0 <= c < total && fd[c] != NONE ==> writeInstance[c] == readInstance[c])
    }

    /** The queue holds the flagged connections, all of them leased. */
    ghost predicate Queued()
      reads this, queue
    {
      && Shaped() && queue.Valid() && reusableCount == |queue.order|
      && Flagged(queue.order, reusable)
      && (forall c :: 0 <= c < total && reusable[c] ==> fd[c] != NONE)
    }

    ghost predicate Valid()
      reads this, queue
    {
      Partitioned() && Filed() && Stamped() && Queued()
    }

    /** The initialisation in `night_event_core_module.c`: the list is threaded from the last connection to the
        first. */
    constructor (total: nat, filesCount: nat)
      requires total > 0
      ensures Valid() && fresh(queue) && this.total == total && |files| == filesCount
      ensures freeCount == total && reusableCount == 0 && leases == seq(total, _ => 0)
      ensures |free| == total && forall k :: 0 <= k < total ==> free[k] == k
    {
      this.total := total;
      fd := seq(total, _ => NONE);
      reusable := seq(total, _ => false);
      readInstance := seq(total, _ => true);
      writeInstance := seq(total, _ => false);
      files := seq(filesCount, _ => NONE);
      queue := new LinkQueue();
      reusableCount := 0;
      leases := seq(total, _ => 0);
      var links, head, list := Thread(total);
      next, free_, free := links, head, list;
      freeCount := total;
    }

    /** The connection leaves the queue of reusable ones. */
    method Dequeue(c: nat)
      requires Queued() && c < total && reusable[c]
      modifies this`reusable, this`reusableCount, queue
      ensures Queued() && reusable == old(reusable)[c := false] && queue.order == Without(old(queue.order), c + 1)
    {
      ghost var k :| 0 <= k < |queue.order| && queue.order[k] == c + 1;
      WithoutAt(queue.order, k);
      Unflag(queue.order, reusable, c, k);
      queue.Remove(c + 1, k);
      reusableCount := reusableCount - 1;
      reusable := reusable[c := false];
    }

    /** The connection goes to the head of the queue. */
    method Enqueue(c: nat)
      requires Queued() && c < total && !reusable[c] && fd[c] != NONE
      modifies this`reusable, this`reusableCount, queue
      ensures Queued() && reusable == old(reusable)[c := true] && queue.order == [c + 1] + old(queue.order)
    {
      Flag(queue.order, reusable, c);
      queue.InsertAfter(HEAD, c + 1, 0);
      reusable := reusable[c := true];
      reusableCount := reusableCount + 1;
    }

    /** `night_reusable_connection` for a leased connection. */
    method Reusable(c: nat, flag: bool)
      requires Valid() && c < total && fd[c] != NONE
      modifies this`reusable, this`reusableCount, queue
      ensures Valid() && reusable == old(reusable)[c := flag]
      ensures queue.order == (if flag then [c + 1] else []) + Without(old(queue.order), c + 1)
    {
      if reusable[c] {
        Dequeue(c);
      } else {
        WithoutNone(queue.order, c + 1);
      }
      if flag {
        Enqueue(c);
      }
    }

    /** `night_close_connection`, as far as the pool is concerned. */
    method Close(c: nat)
      requires Valid() && c < total
      modifies this, queue
      ensures Valid() && leases == old(leases) && readInstance == old(readInstance) && |files| == |old(files)|
      ensures old(fd[c]) == NONE ==>
        free == old(free) && fd == old(fd) && files == old(files) && reusable == old(reusable)
        && queue.order == old(queue.order)
      ensures old(fd[c]) != NONE ==>
        && free == [c] + old(free) && fd == old(fd)[c := NONE]
        && reusable == old(reusable)[c := false] && queue.order == Without(old(queue.order), c + 1)
        && files == if old(files[fd[c]]) == c then old(files)[old(fd[c]) := NONE] else old(files)
    {
      if fd[c] == NONE {
        return;
      }
      Reusable(c, false);
      Release(c);
    }

    /** `night_free_connection`, and the descriptor that is forgotten. */
    method Release(c: nat)
      requires Valid() && c < total && fd[c] != NONE && !reusable[c]
      modifies this`next, this`free_, this`freeCount, this`files, this`fd, this`free
      ensures Valid() && free == [c] + old(free) && fd == old(fd)[c := NONE]
      ensures files == if old(files[fd[c]]) == c then old(files)[old(fd[c]) := NONE] else old(files)
    {
      PushFree(next, free_, free, c);
      next := next[c := free_];
      free_ := c;
      freeCount := freeCount + 1;
      free := [c] + free;
      if files[fd[c]] == c {
        files := files[fd[c] := NONE];
      }
      fd := fd[c := NONE];
    }

    /** The read handler of a reusable connection answers to the close flag. */
    method Handle(c: nat, outcome: Outcome, ghost d: Draining)
      requires Valid() && c < total && reusable[c] && queue.order == d.order
      modifies this, queue
      ensures Valid() && leases == old(leases) && readInstance == old(readInstance)
      ensures outcome.Closes? ==>
                && free == [c] + old(free) && fd == old(fd)[c := NONE]
                && files == if old(files[fd[c]]) == c then old(files)[old(fd[c]) := NONE] else old(files)
      ensures !outcome.Closes? ==> free == old(free) && fd == old(fd) && files == old(files)
      ensures queue.order == Answered(d, c + 1, Without(d.order, c + 1), outcome).order
    {
      match outcome {
        case Closes => Close(c);
        case Marks(flag) => Reusable(c, flag);
        case Ignores =>
      }
    }

    /** The connection at the end of the queue. */
    method Oldest() returns (c: nat)
      requires Valid() && reusableCount > 0
      ensures c < total && reusable[c] && c + 1 == queue.order[|queue.order| - 1]
      ensures Without(queue.order, c + 1) == queue.order[..|queue.order| - 1]
    {
      WithoutAt(queue.order, |queue.order| - 1);
      assert Joined(queue.prev, queue.next, queue.order, |queue.order| - 1);
      var q := queue.prev[HEAD];
      assert q in queue.order && 1 <= q <= total;
      c := q - 1;
    }

    /** The pool after the answers that d records, with the lists and tables as they were at the start. */
    ghost predicate Follows(d: Draining, free0: seq<int>, fd0: seq<int>, files0: seq<int>)
      reads this, queue
    {
      && queue.order == d.order && free == d.closed + free0
      && Emptied(fd, fd0, d.closed) && Unfiled(files, files0, d.closed)
      && d.last <= total
    }

    /** Connection c is asked to close. */
    method Ask(c: nat, outcome: Outcome, ghost d: Draining, ghost free0: seq<int>, ghost fd0: seq<int>,
        ghost files0: seq<int>, ghost rest: seq<Id>)
      requires rest == Without(d.order, c + 1)
      requires Valid() && c < total && reusable[c] && Follows(d, free0, fd0, files0)
      modifies this, queue
      ensures Valid() && leases == old(leases) && readInstance == old(readInstance)
      ensures Follows(Answered(d, c + 1, rest, outcome), free0, fd0, files0)
    {
      assert c !in d.closed && fd[c] != NONE;
      Handle(c, outcome, d);
      if outcome.Closes? {
        assert [c] + (d.closed + free0) == ([c] + d.closed) + free0;
        forall s | 0 <= s < |files|
          ensures files[s] == if files0[s] in [c] + d.closed then NONE else files0[s]
        {
          assert old(files[s]) == c ==> old(fd[c]) == s;
        }
      }
    }

    /** The connection at the end of the queue is asked to close. */
    method AskLast(outcome: Outcome, ghost d: Draining, ghost free0: seq<int>, ghost fd0: seq<int>,
        ghost files0: seq<int>) returns (c: int)
      requires Valid() && reusableCount > 0 && Follows(d, free0, fd0, files0)
      modifies this, queue
      ensures Valid() && leases == old(leases) && readInstance == old(readInstance)
      ensures d.order != [] && Follows(Round(d, outcome), free0, fd0, files0)
      ensures c + 1 == d.order[|d.order| - 1] == Round(d, outcome).last
    {
      c := Oldest();
      Ask(c, outcome, d, free0, fd0, files0, d.order[..|d.order| - 1]);
    }

    lemma NothingAsked()
      requires Valid()
      ensures Follows(Waiting(queue.order), free, fd, files)
    {
      assert [] + free == free;
    }

    /** The loop of `night_drain_connections`. */
    method AskRounds(handlers: nat -> Outcome, n: nat) returns (c: int, ghost d: Draining)
      requires Valid()
      modifies this, queue
      ensures Valid() && leases == old(leases) && readInstance == old(readInstance)
      ensures d == Rounds(Waiting(old(queue.order)), handlers, 0, n) && Follows(d, old(free), old(fd), old(files))
      ensures c + 1 == d.last
    {
      ghost var free0, fd0, files0, leases0, bits0 := free, fd, files, leases, readInstance;
      ghost var target := Rounds(Waiting(queue.order), handlers, 0, n);
      c, d := NONE, Waiting(queue.order);
      NothingAsked();
      var i := 0;
      while i < n
        invariant Valid() && leases == leases0 && readInstance == bits0
        invariant 0 <= i <= n && Follows(d, free0, fd0, files0) && c + 1 == d.last
        invariant Rounds(d, handlers, i, n) == target
      {
        if reusableCount == 0 {
          break;
        }
        c := AskLast(handlers(i), d, free0, fd0, files0);
        d := Round(d, handlers(i));
        i := i + 1;
      }
    }

    /** The rounds, and the last connection once more if nothing is free. */
    method AskBatch(handlers: nat -> Outcome, n: nat)
      requires Valid() && queue.order != [] && n == Batch(|queue.order|)
      modifies this, queue
      ensures Valid() && leases == old(leases) && readInstance == old(readInstance)
      ensures Follows(OnceMore(Rounds(Waiting(old(queue.order)), handlers, 0, n), old(|free|), handlers(n)),
        old(free), old(fd), old(files))
    {
      ghost var free0, fd0, files0 := free, fd, files;
      var c;
      ghost var d;
      c, d := AskRounds(handlers, n);
      assert c != NONE ==> (reusable[c] <==> d.last in d.order);
      if freeCount == 0 && c != NONE && reusable[c] {
        ghost var rest := Without(d.order, c + 1);
        Ask(c, handlers(n), d, free0, fd0, files0, rest);
      }
    }

    /** `night_drain_connections`: the connections asked to close are those at the end of the queue, one after the
        other, as `Drained` says; if the handlers close, exactly a batch at the end of the queue is closed, and comes
        to the head of the free list. */
    method Drain(handlers: nat -> Outcome)
      requires Valid()
      modifies this, queue
      ensures Valid() && leases == old(leases) && readInstance == old(readInstance)
      ensures old(freeCount) > total / 16 || old(queue.order) == [] ==> unchanged(this) && unchanged(queue)
      ensures Follows(Drained(old(queue.order), old(|free|), total, handlers), old(free), old(fd), old(files))
      ensures old(freeCount) <= total / 16 && old(queue.order) != [] && (forall i :: handlers(i).Closes?) ==>
        var k := |old(queue.order)| - Batch(|old(queue.order)|);
        queue.order == old(queue.order)[..k] && free == Slots(old(queue.order)[k..]) + old(free)
    {
      if freeCount > total / 16 || reusableCount == 0 {
        NothingAsked();
        return;
      }
      if forall i :: handlers(i).Closes? {
        DrainedClosing(queue.order, |free|, total, handlers);
      }
      var n := reusableCount / 8;
      if n < 1 {
        n := 1;
      } else if n > 8 {
        n := 8;
      }
      AskBatch(handlers, n);
    }

    /** The events of a connection about to be leased get the opposite instance bit. */
    method Stamp(c: nat)
      requires Valid() && c < total && fd[c] == NONE
      modifies this`readInstance, this`writeInstance, this`leases
      ensures Valid() && writeInstance[c] == readInstance[c]
      ensures leases == old(leases)[c := old(leases[c]) + 1]
      ensures readInstance == old(readInstance)[c := !old(readInstance[c])]
    {
      var instance := readInstance[c];
      readInstance := readInstance[c := !instance];
      writeInstance := writeInstance[c := !instance];
      leases := leases[c := leases[c] + 1];
    }

    /** The head leaves the free list and gets the descriptor. */
    method Detach(socket: nat) returns (c: nat)
      requires Valid() && freeCount > 0 && socket < |files|
      requires (forall d :: 0 <= d < total && d == free_ ==> writeInstance[d] == readInstance[d])
      modifies this`next, this`free_, this`freeCount, this`files, this`fd, this`free
      ensures Valid() && c == old(free_) < total && old(fd[c]) == NONE && fd == old(fd)[c := socket]
      ensures old(free) == [c] + free
      ensures files == if old(files[socket]) == NONE then old(files)[socket := c] else old(files)
    {
      PopFree(next, free_, free);
      c := free_;
      FreeFrame(next, next[c], free[1..], c, NONE);
      assert c in free;
      free_ := next[c];
      freeCount := freeCount - 1;
      if files[socket] == NONE {
        files := files[socket := c];
      }
      next := next[c := NONE];
      fd := fd[c := socket];
      free := free[1..];
    }

    /** The free connection at the head is handed out for the descriptor. */
    method Lend(socket: nat) returns (c: nat)
      requires Valid() && freeCount > 0 && socket < |files|
      modifies this`next, this`free_, this`freeCount, this`files, this`fd, this`readInstance, this`writeInstance,
        this`free, this`leases
      ensures Valid() && c < total && old(fd[c]) == NONE && fd == old(fd)[c := socket] && old(free) == [c] + free
      ensures files == if old(files[socket]) == NONE then old(files)[socket := c] else old(files)
      ensures leases == old(leases)[c := old(leases[c]) + 1]
      ensures readInstance == old(readInstance)[c := !old(readInstance[c])]
    {
      assert FreeLink(next, free, 0) && free_ in free;
      Stamp(free_);
      c := Detach(socket);
    }

    /** `night_get_connection`: after draining, the head of the free list is lent.  If nothing was free and the handlers
        close, that is the last connection of the batch at the end of the queue to be asked. */
    method Get(socket: int, handlers: nat -> Outcome) returns (r: int)
      requires Valid()
      modifies this, queue
      ensures Valid() && NONE <= r < total
      ensures !(0 <= socket < |old(files)|) ==> r == NONE && unchanged(this) && unchanged(queue)
      ensures 0 <= socket < |old(files)| ==>
        && Gets(old(Now()), socket, handlers, r, Now())
        && Refiled(files, Drained(old(queue.order), old(|free|), total, handlers).closed, old(files), socket, r)
      ensures r == NONE ==> readInstance == old(readInstance)
      ensures r != NONE ==>
        && readInstance == old(readInstance)[r := !old(readInstance[r])] && readInstance[r] == writeInstance[r]
        && fd[r] == socket
      ensures 0 <= socket < |old(files)| && (forall i :: handlers(i).Closes?) ==>
        && (r == NONE <==> old(freeCount + reusableCount) == 0)
        && (old(freeCount) == 0 && old(queue.order) != [] ==>
              r == old(queue.order)[|old(queue.order)| - Batch(|old(queue.order)|)] as int - 1)
    {
      if socket < 0 || socket >= |files| {
        return NONE;
      }
      ghost var s, files0 := Now(), files;
      HeldOrQueued(handlers);
      Drain(handlers);
      assert Drains(s, handlers, Now());
      assert free != [] ==> FreeLink(next, free, 0);
      if free_ == NONE {
        return NONE;
      }
      r := LendFirst(socket, s, files0, handlers);
    }

    /** The head of the free list of a drained pool is lent. */
    method LendFirst(socket: nat, ghost s: Snapshot, ghost files0: seq<int>, ghost handlers: nat -> Outcome)
        returns (r: int)
      requires Valid() && free_ != NONE && socket < |files| == |files0| && Drains(s, handlers, Now())
      requires Unfiled(files, files0, Drained(s.order, |s.free|, total, handlers).closed)
      requires forall c :: c in free ==> 0 <= c < total && (s.fd[c] == NONE || c + 1 in s.order)
      modifies this`next, this`free_, this`freeCount, this`files, this`fd, this`readInstance, this`writeInstance,
        this`free, this`leases
      ensures Valid() && 0 <= r < total && old(free) == [r] + free && Gets(s, socket, handlers, r, Now())
      ensures Refiled(files, Drained(s.order, |s.free|, total, handlers).closed, files0, socket, r)
      ensures readInstance == old(readInstance)[r := !old(readInstance[r])] && readInstance[r] == writeInstance[r]
      ensures fd[r] == socket
    {
      ghost var mid, files1, closed := Now(), files, Drained(s.order, |s.free|, total, handlers).closed;
      assert freeCount > 0;
      r := Lend(socket);
      LentGets(s, mid, socket, handlers, r, Now());
      FileLease(files1, files, closed, files0, socket, r);
    }

    /** What draining may put on the free list was free or in the queue. */
    lemma HeldOrQueued(handlers: nat -> Outcome)
      requires Valid()
      ensures
        var d := Drained(queue.order, |free|, total, handlers);
        forall c :: c in d.closed + free ==> 0 <= c < total && (fd[c] == NONE || c + 1 in queue.order)
    {
      DrainedWithin(queue.order, |free|, total, handlers);
      forall c | c in free
        ensures 0 <= c < total && fd[c] == NONE
      {
        var k :| 0 <= k < |free| && free[k] == c;
        assert FreeLink(next, free, k);
      }
    }

    ghost function Now(): Snapshot
      reads this, queue
    {
      Snapshot(fd, queue.order, leases, free)
    }

    /** A close, of any number. */
    method DoClose(c: nat)
      requires Valid()
      modifies this, queue
      ensures Valid() && |files| == |old(files)| && leases == old(leases)
      ensures Does(old(Now()), CloseOp(c), NONE, Now(), |files|)
    {
      if c < total {
        Close(c);
      }
    }

    /** A connection is marked, if it is leased. */
    method DoMark(c: nat, flag: bool)
      requires Valid()
      modifies this, queue
      ensures Valid() && |files| == |old(files)| && leases == old(leases)
      ensures Does(old(Now()), MarkOp(c, flag), NONE, Now(), |files|)
    {
      if c < total && fd[c] != NONE {
        Reusable(c, flag);
      }
    }

    /** A get. */
    method DoGet(socket: int, handlers: nat -> Outcome) returns (r: int)
      requires Valid()
      modifies this, queue
      ensures Valid() && |files| == |old(files)| && NONE <= r < total
      ensures Does(old(Now()), GetOp(socket, handlers), r, Now(), |files|)
      ensures r != NONE ==> leases == old(leases)[r := old(leases[r]) + 1]
      ensures r == NONE ==> leases == old(leases)
    {
      r := Get(socket, handlers);
    }

    /** One operation of a run. */
    method Do(op: Op) returns (r: int)
      requires Valid()
      modifies this, queue
      ensures Valid() && |files| == |old(files)| && NONE <= r < total && Does(old(Now()), op, r, Now(), |files|)
      ensures r != NONE ==> leases == old(leases)[r := old(leases[r]) + 1]
      ensures r == NONE ==> leases == old(leases)
    {
      r := NONE;
      match op {
        case GetOp(socket, handlers) => r := DoGet(socket, handlers);
        case CloseOp(c) => DoClose(c);
        case MarkOp(c, flag) => DoMark(c, flag);
      }
    }

    /** One operation, and its entry in the log if it lent a connection. */
    method Record(op: Op, ghost results: seq<int>, log: seq<Lease>, ghost first: seq<nat>)
        returns (r: int, log': seq<Lease>)
      requires Valid() && Told(log, first, leases) && SlotsOf(log) == Lent(results)
      modifies this, queue
      ensures Valid() && |files| == |old(files)| && Does(old(Now()), op, r, Now(), |files|)
      ensures Told(log', first, leases) && SlotsOf(log') == Lent(results + [r])
    {
      ghost var before := leases;
      r := Do(op);
      LentStep(results, r);
      log' := log;
      if r != NONE {
        ToldStep(log, first, before, leases, r, readInstance[r]);
        SlotsStep(log, Lease(r, readInstance[r]));
        log' := log + [Lease(r, readInstance[r])];
      }
    }

    /** Any run of get, close and reusable marking: the trace follows the operations one by one, and the log records
        which connection each get lent, with which instance bit. */
    method Run(ops: seq<Op>) returns (results: seq<int>, log: seq<Lease>, ghost trace: seq<Snapshot>)
      requires Valid()
      modifies this, queue
      ensures Valid() && |results| == |ops| && |trace| == |ops| + 1 && trace[0] == old(Now()) && trace[|ops|] == Now()
      ensures Followed(trace, ops, results, |files|)
      ensures SlotsOf(log) == Lent(results) && Told(log, old(leases), leases)
      ensures forall i, j :: 0 <= i < j < |log| && Successive(log, i, j) ==> log[i].instance != log[j].instance
    {
      results, log, trace := [], [], [Now()];
      ghost var first := leases;
      NothingTold(first);
      for n := 0 to |ops|
        invariant Valid() && |files| == |old(files)| && Told(log, first, leases) && SlotsOf(log) == Lent(results)
        invariant |results| == n && |trace| == n + 1 && trace[0] == old(Now()) && trace[n] == Now()
        invariant Followed(trace, ops[..n], results, |files|)
      {
        var r;
        r, log := Record(ops[n], results, log, first);
        FollowedNext(trace, ops, results, n, r, Now(), |files|);
        results, trace := results + [r], trace + [Now()];
      }
      assert ops[..|ops|] == ops;
      forall i, j | 0 <= i < j < |log| && Successive(log, i, j)
        ensures log[i].instance != log[j].instance
      {
        Opposite(log, first, leases, i, j);
      }
    }
  }

  /** The state of the pool: the descriptor of each connection, the queue of reusable ones, how often each was lent,
      and the free list. */
  datatype Snapshot = Snapshot(fd: seq<int>, order: seq<Id>, leases: seq<nat>, free: seq<int>)

  /** Draining leads from s to t. */
  ghost predicate Drains(s: Snapshot, handlers: nat -> Outcome, t: Snapshot) {
    var d := Drained(s.order, |s.free|, |s.fd|, handlers);
    && |s.fd| == |s.leases| && t.leases == s.leases && t.order == d.order && t.free == d.closed + s.free
    && Emptied(t.fd, s.fd, d.closed)
  }

  /** A get with a valid descriptor leads from s to t, and lends r: the head of the free list after draining. */
  ghost predicate Gets(s: Snapshot, socket: int, handlers: nat -> Outcome, r: int, t: Snapshot) {
    exists mid {:trigger Drains(s, handlers, mid)} :: Drains(s, handlers, mid) &&
      if mid.free == [] then r == NONE && t == mid
      else
        && r == mid.free[0] && 0 <= r < |s.fd| && (s.fd[r] == NONE || r + 1 in s.order)
        && t == Snapshot(mid.fd[r := socket], mid.order, mid.leases[r := mid.leases[r] + 1], mid.free[1..])
  }

  lemma LentGets(s: Snapshot, mid: Snapshot, socket: nat, handlers: nat -> Outcome, r: int, t: Snapshot)
    requires Drains(s, handlers, mid) && 0 <= r < |s.fd| && (s.fd[r] == NONE || r + 1 in s.order)
    requires mid.free == [r] + t.free
    requires t == Snapshot(mid.fd[r := socket], mid.order, mid.leases[r := mid.leases[r] + 1], t.free)
    ensures Gets(s, socket, handlers, r, t)
  {
    assert mid.free[1..] == t.free;
  }

  /** Operation op with result r leads from s to t. */
  ghost predicate Does(s: Snapshot, op: Op, r: int, t: Snapshot, files: nat) {
    match op
    case GetOp(socket, handlers) =>
      if 0 <= socket < files then Gets(s, socket, handlers, r, t) else r == NONE && t == s
    case CloseOp(c) =>
      && r == NONE
      && t == if c < |s.fd| && s.fd[c] != NONE
           then s.(fd := s.fd[c := NONE], order := Without(s.order, c + 1), free := [c] + s.free) else s
    case MarkOp(c, flag) =>
      && r == NONE
      && t == if c < |s.fd| && s.fd[c] != NONE
           then s.(order := (if flag then [c + 1] else []) + Without(s.order, c + 1)) else s
  }

  /** The trace goes through the operations with these results, one by one. */
  ghost predicate Followed(trace: seq<Snapshot>, ops: seq<Op>, results: seq<int>, files: nat) {
    && |results| == |ops| && |trace| == |ops| + 1
    && forall i {:trigger FollowedAt(trace, ops, results, files, i)} :: 0 <= i < |ops| ==>
      FollowedAt(trace, ops, results, files, i)
  }

  ghost predicate FollowedAt(trace: seq<Snapshot>, ops: seq<Op>, results: seq<int>, files: nat, i: nat)
    requires i < |ops| == |results| && |trace| == |ops| + 1
  {
    Does(trace[i], ops[i], results[i], trace[i + 1], files)
  }

  lemma FollowedNext(trace: seq<Snapshot>, ops: seq<Op>, results: seq<int>, n: nat, r: int, t: Snapshot, files: nat)
    requires n < |ops| && Followed(trace, ops[..n], results, files) && Does(trace[n], ops[n], r, t, files)
    ensures Followed(trace + [t], ops[..n + 1], results + [r], files)
  {
    var trace', ops', results' := trace + [t], ops[..n + 1], results + [r];
    forall i | 0 <= i < |ops'|
      ensures FollowedAt(trace', ops', results', files, i)
    {
      assert i < n ==> FollowedAt(trace, ops[..n], results, files, i);
    }
  }

  /** The connections that were lent, in order. */
  function Lent(results: seq<int>): seq<int> {
    if results == [] then [] else
      Lent(results[..|results| - 1]) + if results[|results| - 1] == NONE then [] else [results[|results| - 1]]
  }

  function SlotsOf(log: seq<Lease>): seq<int> {
    if log == [] then [] else SlotsOf(log[..|log| - 1]) + [log[|log| - 1].slot]
  }

  lemma LentStep(results: seq<int>, r: int)
    ensures Lent(results + [r]) == Lent(results) + if r == NONE then [] else [r]
  {
    assert (results + [r])[..|results|] == results;
  }

  lemma SlotsStep(log: seq<Lease>, lease: Lease)
    ensures SlotsOf(log + [lease]) == SlotsOf(log) + [lease.slot]
  {
    assert (log + [lease])[..|log|] == log;
  }

  /** Two leases of one slot with none in between. */
  ghost predicate Successive(log: seq<Lease>, i: nat, j: nat)
    requires i < j < |log|
  {
    log[i].slot == log[j].slot && forall k :: i < k < j ==> log[k].slot != log[i].slot
  }

  /** The log against the lease counts: each entry's bit is the parity of its number. */
  ghost predicate Told(log: seq<Lease>, first: seq<nat>, leases: seq<nat>) {
    && |first| == |leases|
    && (forall c {:trigger leases[c]} :: 0 <= c < |first| ==> leases[c] == first[c] + Count(log, c))
    && (forall i {:trigger log[i]} :: 0 <= i < |log| ==> ToldAt(log, first, i))
  }

  predicate ToldAt(log: seq<Lease>, first: seq<nat>, i: nat)
    requires i < |log|
  {
    log[i].slot < |first| && (log[i].instance <==> (first[log[i].slot] + Count(log[..i + 1], log[i].slot)) % 2 == 0)
  }

  lemma NothingTold(first: seq<nat>)
    ensures Told([], first, first)
  {
    assert forall c :: Count([], c) == 0;
  }

  lemma ToldStep(log: seq<Lease>, first: seq<nat>, before: seq<nat>, after: seq<nat>, c: nat, instance: bool)
    requires Told(log, first, before) && c < |before| && after == before[c := before[c] + 1]
    requires instance <==> after[c] % 2 == 0
    ensures Told(log + [Lease(c, instance)], first, after)
  {
    var log' := log + [Lease(c, instance)];
    assert log'[..|log|] == log;
    forall i | 0 <= i < |log'|
      ensures ToldAt(log', first, i)
    {
      if i < |log| {
        assert ToldAt(log, first, i) && log'[..i + 1] == log[..i + 1];
      } else {
        assert log'[..i + 1] == log';
      }
    }
  }

  /** Two leases of a slot with none in between. */
  lemma Opposite(log: seq<Lease>, first: seq<nat>, leases: seq<nat>, i: nat, j: nat)
    requires Told(log, first, leases) && i < j < |log| && Successive(log, i, j)
    ensures log[i].instance != log[j].instance
  {
    assert ToldAt(log, first, i) && ToldAt(log, first, j);
    CountBetween(log, log[i].slot, i + 1, j);
    assert log[..j + 1][..j] == log[..j];
  }

  lemma {:induction false} CountBetween(log: seq<Lease>, c: nat, i: nat, j: nat)
    requires i <= j <= |log| && forall k :: i <= k < j ==> log[k].slot != c
    ensures Count(log[..j], c) == Count(log[..i], c)
  {
    if i < j {
      CountBetween(log, c, i, j - 1);
      assert log[..j][..j - 1] == log[..j - 1];
    }
  }

  function Count(log: seq<Lease>, c: int): nat {
    if log == [] then 0 else Count(log[..|log| - 1], c) + if log[|log| - 1].slot == c then 1 else 0
  }

  datatype Lease = Lease(slot: nat, instance: bool)

  datatype Op = GetOp(socket: int, handlers: nat -> Outcome) | CloseOp(c: nat) | MarkOp(c: nat, flag: bool)

  function Without(order: seq<Id>, x: Id): (r: seq<Id>) {
    if order == [] then [] else
      (if order[0] == x then [] else [order[0]]) + Without(order[1..], x)
  }

  lemma {:induction false} WithoutNone(order: seq<Id>, x: Id)
    requires x !in order
    ensures Without(order, x) == order
  {
    if order != [] {
      WithoutNone(order[1..], x);
    }
  }

  lemma {:induction false} WithoutAt(order: seq<Id>, k: nat)
    requires k < |order| && forall i, j :: 0 <= i < j < |order| ==> order[i] != order[j]
    ensures Without(order, order[k]) == order[..k] + order[k + 1..]
  {
    if k == 0 {
      WithoutNone(order[1..], order[0]);
    } else {
      WithoutAt(order[1..], k - 1);
      TailWithout(order, k);
    }
  }

  lemma TailWithout(order: seq<Id>, k: nat)
    requires 0 < k < |order|
    ensures [order[0]] + (order[1..][..k - 1] + order[1..][k..]) == order[..k] + order[k + 1..]
  {
    assert order[1..][..k - 1] == order[1..k] && order[1..][k..] == order[k + 1..];
    assert [order[0]] + order[1..k] == order[..k];
  }

  /** The loop that threads the free list. */
  method Thread(total: nat) returns (next: seq<int>, head: int, ghost free: seq<int>)
    requires total > 0
    ensures |next| == total && FreeList(next, head, free) && |free| == total
    ensures forall k :: 0 <= k < total ==> free[k] == k
    ensures forall c :: c in free <==> 0 <= c < total
  {
    next := seq(total, _ => NONE);
    var i := total;
    head, free := NONE, [];
    while true
      invariant 0 < i <= total && |next| == total
      invariant FreeList(next, head, free) && |free| == total - i && forall c :: c in free <==> i <= c < total
      invariant forall k :: 0 <= k < |free| ==> free[k] == i + k
      decreases i
    {
      i := i - 1;
      PushFree(next, head, free, i);
      free := [i] + free;
      next := next[i := head];
      head := i;
      if i == 0 {
        break;
      }
    }
  }
}
