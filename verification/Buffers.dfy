/** The buffer chains of `night_buf.c`. */
module Buffers {

  const NULL := -1

  /** A buffer is a stretch of memory, or of a file. */
  datatype Buf = Buf(start: int, pos: int, last: int, inFile: bool, file: int, filePos: int, fileLast: int, tag: int)

  /** A byte to be sent, by where it comes from. */
  datatype Byte = InMemory(address: int) | InFile(file: int, offset: int)

  /** The macro `night_buf_size`. */
  function BufSize(b: Buf): int {
    if b.inFile then b.fileLast - b.filePos else b.last - b.pos
  }

  function BufBytes(b: Buf): (r: seq<Byte>)
    requires BufSize(b) >= 0
    ensures |r| == BufSize(b)
  {
    if b.inFile then seq(BufSize(b), k requires 0 <= k < BufSize(b) => InFile(b.file, b.filePos + k))
    else seq(BufSize(b), k requires 0 <= k < BufSize(b) => InMemory(b.pos + k))
  }

  /** The buffer after n of its bytes were sent. */
  function Sent(b: Buf, n: int): (r: Buf)
    requires 0 <= n <= BufSize(b)
    ensures BufSize(r) == BufSize(b) - n
  {
    if b.inFile then b.(filePos := b.filePos + n) else b.(pos := b.pos + n)
  }

  /** The buffer when its position was moved to its end. */
  function Finished(b: Buf): (r: Buf)
    requires BufSize(b) >= 0
    ensures r == Sent(b, BufSize(b))
  {
    if b.inFile then b.(filePos := b.fileLast) else b.(pos := b.last)
  }

  lemma SentBytes(b: Buf, n: int)
    requires 0 <= n <= BufSize(b)
    ensures BufBytes(Sent(b, n)) == BufBytes(b)[n..]
  {
  }

  // ---------- lists of links ----------

  predicate NextIs(next: map<int, int>, list: seq<int>, k: int)
    requires 0 <= k < |list|
  {
    list[k] != NULL && list[k] in next && next[list[k]] == if k + 1 < |list| then list[k + 1] else NULL
  }

  /** The links from head on are exactly the list. */
  ghost predicate Listed(next: map<int, int>, head: int, list: seq<int>) {
    && head == (if list == [] then NULL else list[0])
    && forall k {:trigger NextIs(next, list, k)} :: 0 <= k < |list| ==> NextIs(next, list, k)
  }

  lemma PopList(next: map<int, int>, head: int, list: seq<int>)
    requires Listed(next, head, list) && list != []
    ensures head != NULL && head in next && Listed(next, next[head], list[1..])
  {
    assert NextIs(next, list, 0);
    forall k | 0 <= k < |list[1..]|
      ensures NextIs(next, list[1..], k)
    {
      assert NextIs(next, list, k + 1);
    }
  }

  lemma EndOfList(next: map<int, int>, head: int, list: seq<int>)
    requires Listed(next, head, list)
    ensures head == NULL <==> list == []
  {
    assert list != [] ==> NextIs(next, list, 0);
  }

  /** Link x is put before the list. */
  lemma PushList(next: map<int, int>, head: int, list: seq<int>, x: int)
    requires Listed(next, head, list) && x !in list && x != NULL
    ensures Listed(next[x := head], x, [x] + list)
  {
    var next', list' := next[x := head], [x] + list;
    forall k | 0 <= k < |list'|
      ensures NextIs(next', list', k)
    {
      if k > 0 {
        assert NextIs(next, list, k - 1);
      }
    }
  }

  lemma ListFrame(next: map<int, int>, head: int, list: seq<int>, x: int, v: int)
    requires Listed(next, head, list) && x !in list
    ensures Listed(next[x := v], head, list)
  {
    var next' := next[x := v];
    forall k | 0 <= k < |list|
      ensures NextIs(next', list, k)
    {
      assert NextIs(next, list, k);
    }
  }

  /** The end of one list is linked to the head of another. */
  lemma JoinLists(next: map<int, int>, head: int, list: seq<int>, head2: int, list2: seq<int>)
    requires Listed(next, head, list) && Listed(next, head2, list2) && list != []
    requires list[|list| - 1] !in list2 && (forall k :: 0 <= k < |list| - 1 ==> list[k] != list[|list| - 1])
    ensures Listed(next[list[|list| - 1] := head2], head, list + list2)
  {
    var x := list[|list| - 1];
    var next', all := next[x := head2], list + list2;
    assert NextIs(next, list, |list| - 1);
    forall k | 0 <= k < |all|
      ensures NextIs(next', all, k)
    {
      if k < |list| {
        assert NextIs(next, list, k);
      } else {
        assert NextIs(next, list2, k - |list|) && list2[k - |list|] in list2;
      }
    }
  }

  // ---------- the stream ----------

  /** Every link has a buffer of non-negative size. */
  ghost predicate Sized(bufs: map<int, Buf>, list: seq<int>) {
    forall k {:trigger list[k]} :: 0 <= k < |list| ==> list[k] in bufs && BufSize(bufs[list[k]]) >= 0
  }

  /** The bytes of a list of links, in order; the buffer of a link is kept under the link. */
  function Stream(bufs: map<int, Buf>, list: seq<int>): (r: seq<Byte>)
    requires Sized(bufs, list)
  {
    if list == [] then [] else BufBytes(bufs[list[0]]) + Stream(bufs, list[1..])
  }

  ghost predicate Once(list: seq<int>) {
    forall i, j :: 0 <= i < j < |list| ==> list[i] != list[j]
  }

  lemma {:induction false} StreamFrame(bufs: map<int, Buf>, bufs': map<int, Buf>, list: seq<int>)
    requires Sized(bufs, list) && Sized(bufs', list) && forall k :: 0 <= k < |list| ==> bufs'[list[k]] == bufs[list[k]]
    ensures Stream(bufs', list) == Stream(bufs, list)
  {
    if list != [] {
      StreamFrame(bufs, bufs', list[1..]);
    }
  }

  /** The chain from `list` on when n more bytes were sent. */
  function AllSent(bufs: map<int, Buf>, list: seq<int>, n: nat): (r: map<int, Buf>)
    requires Sized(bufs, list)
  {
    if list == [] || n == 0 then bufs
    else
      var b := bufs[list[0]];
      if n < BufSize(b) then bufs[list[0] := Sent(b, n)]
      else
        var bufs' := bufs[list[0] := Sent(b, BufSize(b))];
        AllSent(bufs', list[1..], n - BufSize(b))
  }

  function Min(a: int, b: int): int {
    if a < b then a else b
  }

  lemma {:induction false} AllSentOthers(bufs: map<int, Buf>, list: seq<int>, n: nat, x: int)
    requires Sized(bufs, list) && x !in list
    ensures (x in AllSent(bufs, list, n) <==> x in bufs) && (x in bufs ==> AllSent(bufs, list, n)[x] == bufs[x])
  {
    if list != [] && n > 0 {
      var b := bufs[list[0]];
      if n >= BufSize(b) {
        AllSentOthers(bufs[list[0] := Sent(b, BufSize(b))], list[1..], n - BufSize(b), x);
      }
    }
  }

  /** The stream when m bytes of the first buffer were sent. */
  lemma HeadSent(bufs: map<int, Buf>, list: seq<int>, m: int)
    requires Sized(bufs, list) && Once(list) && list != [] && 0 <= m <= BufSize(bufs[list[0]])
    ensures
      var bufs' := bufs[list[0] := Sent(bufs[list[0]], m)];
      && Sized(bufs', list) && Sized(bufs', list[1..]) && Stream(bufs', list[1..]) == Stream(bufs, list[1..])
      && Stream(bufs', list) == BufBytes(bufs[list[0]])[m..] + Stream(bufs, list[1..])
  {
    var bufs' := bufs[list[0] := Sent(bufs[list[0]], m)];
    SentBytes(bufs[list[0]], m);
    StreamFrame(bufs, bufs', list[1..]);
  }

  lemma DropFirst(a: seq<Byte>, t: seq<Byte>, n: nat)
    ensures n <= |a| ==> (a + t)[Min(n, |a + t|)..] == a[n..] + t
    ensures n >= |a| ==> (a + t)[Min(n, |a + t|)..] == t[Min(n - |a|, |t|)..]
  {
  }

  /** A link whose buffer is empty adds nothing to the stream. */
  lemma EmptyHead(bufs: map<int, Buf>, list: seq<int>)
    requires list != [] && Sized(bufs, list) && Sized(bufs, list[1..]) && BufSize(bufs[list[0]]) == 0
    ensures Stream(bufs, list) == Stream(bufs, list[1..])
  {
  }

  /** Sending takes exactly the first bytes off the stream. */
  lemma {:induction false} AllSentStream(bufs: map<int, Buf>, list: seq<int>, n: nat)
    requires Sized(bufs, list) && Once(list)
    ensures Sized(AllSent(bufs, list, n), list)
    ensures Stream(AllSent(bufs, list, n), list) == Stream(bufs, list)[Min(n, |Stream(bufs, list)|)..]
    decreases |list|, 1
  {
    if list != [] && n > 0 {
      var x, rest := list[0], list[1..];
      var b := bufs[x];
      HeadSent(bufs, list, Min(n, BufSize(b)));
      DropFirst(BufBytes(b), Stream(bufs, rest), n);
      if n >= BufSize(b) {
        WholeSent(bufs, list, n);
      }
    }
  }

  lemma {:induction false} WholeSent(bufs: map<int, Buf>, list: seq<int>, n: nat)
    requires Sized(bufs, list) && Once(list) && list != [] && n > 0 && n >= BufSize(bufs[list[0]])
    ensures Sized(AllSent(bufs, list, n), list) && Sized(bufs, list[1..])
    ensures
      var m := n - BufSize(bufs[list[0]]);
      Stream(AllSent(bufs, list, n), list) == Stream(bufs, list[1..])[Min(m, |Stream(bufs, list[1..])|)..]
    decreases |list|, 0
  {
    var b := bufs[list[0]];
    HeadSent(bufs, list, BufSize(b));
    UnfoldSent(bufs, list, n);
    RestSent(bufs[list[0] := Sent(b, BufSize(b))], list, n - BufSize(b));
  }

  /** The first buffer is empty already. */
  lemma {:induction false} RestSent(bufs: map<int, Buf>, list: seq<int>, m: nat)
    requires Once(list) && list != [] && Sized(bufs, list[1..]) && list[0] in bufs && BufSize(bufs[list[0]]) == 0
    ensures
      var after, stream := AllSent(bufs, list[1..], m), Stream(bufs, list[1..]);
      Sized(after, list) && Stream(after, list) == stream[Min(m, |stream|)..]
    decreases |list| - 1, 2
  {
    var rest := list[1..];
    AllSentStream(bufs, rest, m);
    AllSentOthers(bufs, rest, m, list[0]);
    SentTail(AllSent(bufs, rest, m), list);
  }

  lemma UnfoldSent(bufs: map<int, Buf>, list: seq<int>, n: nat)
    requires Sized(bufs, list) && list != [] && n > 0 && n >= BufSize(bufs[list[0]])
    ensures
      var b := bufs[list[0]];
      var bufs' := bufs[list[0] := Sent(b, BufSize(b))];
      Sized(bufs', list[1..]) && AllSent(bufs, list, n) == AllSent(bufs', list[1..], n - BufSize(b))
  {
  }

  lemma SentTail(bufs: map<int, Buf>, list: seq<int>)
    requires list != [] && Sized(bufs, list[1..]) && list[0] in bufs && BufSize(bufs[list[0]]) == 0
    ensures Sized(bufs, list) && Stream(bufs, list) == Stream(bufs, list[1..])
  {
    SizedOn(bufs, list);
    EmptyHead(bufs, list);
  }

  lemma SizedOn(bufs: map<int, Buf>, list: seq<int>)
    requires list != [] && Sized(bufs, list[1..]) && list[0] in bufs && BufSize(bufs[list[0]]) >= 0
    ensures Sized(bufs, list)
  {
    forall k | 0 <= k < |list|
      ensures list[k] in bufs && BufSize(bufs[list[k]]) >= 0
    {
      assert k > 0 ==> list[k] == list[1..][k - 1];
    }
  }

  // ---------- recycling ----------

  /** What the loop over the busy list does with its links: other tags to the pool, sent ones to the free list, up
      to the first that is neither. */
  datatype Sorted = Sorted(free: seq<int>, busy: seq<int>, pool: seq<int>)

  /** A link at which the loop stops. */
  predicate Waits(b: Buf, tag: int) {
    b.tag == tag && BufSize(b) != 0
  }

  function Recycle(bufs: map<int, Buf>, free: seq<int>, busy: seq<int>, pool: seq<int>, tag: int): (r: Sorted)
    requires Sized(bufs, busy)
    ensures multiset(r.free) + multiset(r.busy) + multiset(r.pool) == multiset(free) + multiset(busy) + multiset(pool)
    ensures r.busy == [] || (r.busy[0] in bufs && Waits(bufs[r.busy[0]], tag))
    decreases |busy|
  {
    if busy == [] || Waits(bufs[busy[0]], tag) then Sorted(free, busy, pool)
    else
      assert busy == [busy[0]] + busy[1..];
      if bufs[busy[0]].tag != tag then Recycle(bufs, free, busy[1..], [busy[0]] + pool, tag)
      else Recycle(bufs, [busy[0]] + free, busy[1..], pool, tag)
  }

  /** The links of the list that have the tag, or that have it not, the last one first. */
  function Picked(bufs: map<int, Buf>, list: seq<int>, tag: int, mine: bool): (r: seq<int>)
    requires Sized(bufs, list)
    ensures forall x :: x in r <==> x in list && (bufs[x].tag == tag <==> mine)
  {
    if list == [] then [] else
      Picked(bufs, list[1..], tag, mine) + if bufs[list[0]].tag == tag <==> mine then [list[0]] else []
  }

  /** The links before the first one that waits leave the busy list: those with the tag, all of them sent, for the free
      list, the others for the pool. */
  lemma {:induction false} RecycleIs(bufs: map<int, Buf>, free: seq<int>, busy: seq<int>, pool: seq<int>, tag: int)
      returns (k: nat)
    requires Sized(bufs, busy)
    ensures k <= |busy| && (forall j :: 0 <= j < k ==> !Waits(bufs[busy[j]], tag))
    ensures k < |busy| ==> Waits(bufs[busy[k]], tag)
    ensures Sized(bufs, busy[..k]) && Recycle(bufs, free, busy, pool, tag) ==
      Sorted(Picked(bufs, busy[..k], tag, true) + free, busy[k..], Picked(bufs, busy[..k], tag, false) + pool)
    decreases |busy|
  {
    if busy == [] || Waits(bufs[busy[0]], tag) {
      k := 0;
      Nothing(free);
      Nothing(pool);
    } else {
      var x, rest := busy[0], busy[1..];
      RecycleStep(bufs, bufs, free, busy, pool, tag);
      var i;
      if bufs[x].tag == tag {
        i := RecycleIs(bufs, [x] + free, rest, pool, tag);
      } else {
        i := RecycleIs(bufs, free, rest, [x] + pool, tag);
      }
      k := i + 1;
      PickedMore(bufs, free, busy, pool, tag, k);
      NoneWaits(bufs, busy, tag, k);
    }
  }

  lemma NoneWaits(bufs: map<int, Buf>, busy: seq<int>, tag: int, k: nat)
    requires Sized(bufs, busy) && 0 < k <= |busy| && !Waits(bufs[busy[0]], tag)
    requires forall j :: 0 <= j < k - 1 ==> !Waits(bufs[busy[1..][j]], tag)
    requires k - 1 < |busy[1..]| ==> Waits(bufs[busy[1..][k - 1]], tag)
    ensures forall j :: 0 <= j < k ==> !Waits(bufs[busy[j]], tag)
    ensures k < |busy| ==> Waits(bufs[busy[k]], tag)
  {
    forall j | 0 <= j < k
      ensures !Waits(bufs[busy[j]], tag)
    {
      assert j > 0 ==> busy[j] == busy[1..][j - 1];
    }
  }

  lemma PickedMore(bufs: map<int, Buf>, free: seq<int>, busy: seq<int>, pool: seq<int>, tag: int, k: nat)
    requires Sized(bufs, busy) && 0 < k <= |busy|
    ensures Sized(bufs, busy[..k]) && Sized(bufs, busy[1..][..k - 1]) && busy[1..][k - 1..] == busy[k..]
    ensures
      var x, rest := busy[0], busy[1..][..k - 1];
      var mine := bufs[x].tag == tag;
      var free', pool' := if mine then [x] + free else free, if mine then pool else [x] + pool;
      && Picked(bufs, busy[..k], tag, true) + free == Picked(bufs, rest, tag, true) + free'
      && Picked(bufs, busy[..k], tag, false) + pool == Picked(bufs, rest, tag, false) + pool'
  {
    var x := busy[0];
    assert busy[..k][1..] == busy[1..][..k - 1] && busy[..k][0] == x;
    PickOne(bufs, busy[..k], tag, free, x);
    PickOne(bufs, busy[..k], tag, pool, x);
  }

  lemma Nothing(list: seq<int>)
    ensures [] + list == list
  {
  }

  lemma PickOne(bufs: map<int, Buf>, list: seq<int>, tag: int, to: seq<int>, x: int)
    requires Sized(bufs, list) && list != [] && list[0] == x && Sized(bufs, list[1..])
    ensures
      var mine := bufs[x].tag == tag;
      && Picked(bufs, list, tag, mine) + to == Picked(bufs, list[1..], tag, mine) + ([x] + to)
      && Picked(bufs, list, tag, !mine) + to == Picked(bufs, list[1..], tag, !mine) + to
  {
    var mine := bufs[x].tag == tag;
    assert Picked(bufs, list, tag, !mine) == Picked(bufs, list[1..], tag, !mine);
    var picked := Picked(bufs, list[1..], tag, mine);
    assert (picked + [x]) + to == picked + ([x] + to);
  }

  /** The links that have come to the free list are ready for use again, and all others are as they were. */
  ghost predicate ResetNew(was: map<int, Buf>, bufs: map<int, Buf>, older: seq<int>, free: seq<int>) {
    && bufs.Keys == was.Keys && (forall x :: x in older ==> x in free)
    && forall x {:trigger bufs[x]} {:trigger was[x]} :: x in was ==>
      bufs[x] == if x in free && x !in older then was[x].(pos := was[x].start, last := was[x].start) else was[x]
  }

  lemma ResetMore(was: map<int, Buf>, bufs: map<int, Buf>, older: seq<int>, free: seq<int>, x: int)
    requires ResetNew(was, bufs, older, free) && x !in free && x in bufs
    ensures ResetNew(was, bufs[x := bufs[x].(pos := bufs[x].start, last := bufs[x].start)], older, [x] + free)
  {
    var free' := [x] + free;
    assert forall y :: y in free' <==> y == x || y in free;
  }

  /** Resetting a sent buffer changes no size and no tag, so the loop's decisions stay the same. */
  ghost predicate SameSizes(bufs: map<int, Buf>, bufs': map<int, Buf>) {
    bufs'.Keys == bufs.Keys && forall x :: x in bufs ==>
      BufSize(bufs'[x]) == BufSize(bufs[x]) && bufs'[x].tag == bufs[x].tag
  }

  lemma SameTwice(a: map<int, Buf>, b: map<int, Buf>, c: map<int, Buf>)
    requires SameSizes(a, b) && SameSizes(b, c)
    ensures SameSizes(a, c)
  {
    forall x | x in a
      ensures BufSize(c[x]) == BufSize(a[x]) && c[x].tag == a[x].tag
    {
      assert x in b;
    }
  }

  /** One round of the loop is one step of the function, whichever buffers were reset before. */
  lemma RecycleStep(was: map<int, Buf>, bufs: map<int, Buf>, free: seq<int>, busy: seq<int>, pool: seq<int>, tag: int)
    requires Sized(was, busy) && SameSizes(was, bufs) && busy != [] && busy[0] in bufs
    ensures Sized(was, busy[1..])
    ensures Recycle(was, free, busy, pool, tag) ==
      if Waits(bufs[busy[0]], tag) then Sorted(free, busy, pool)
      else if bufs[busy[0]].tag != tag then Recycle(was, free, busy[1..], [busy[0]] + pool, tag)
      else Recycle(was, [busy[0]] + free, busy[1..], pool, tag)
  {
    var x := busy[0];
    assert x in was && Waits(bufs[x], tag) == Waits(was[x], tag);
  }

  ghost predicate Single(m: multiset<int>) {
    forall x {:trigger m[x]} :: m[x] <= 1
  }

  function All(free: seq<int>, busy: seq<int>, out: seq<int>, pool: seq<int>): multiset<int> {
    multiset(free) + multiset(busy) + multiset(out) + multiset(pool)
  }

  lemma AllJoined(free: seq<int>, busy: seq<int>, out: seq<int>, pool: seq<int>)
    ensures All(free, busy + out, [], pool) == All(free, busy, out, pool) == multiset(busy)
      + (multiset(free) + multiset(out) + multiset(pool))
  {
  }

  lemma AllToPool(free: seq<int>, busy: seq<int>, out: seq<int>, pool: seq<int>)
    requires busy != []
    ensures All(free, busy[1..], out, [busy[0]] + pool) == All(free, busy, out, pool) == multiset(busy)
      + (multiset(pool) + multiset(free) + multiset(out))
  {
    assert busy == [busy[0]] + busy[1..];
  }

  lemma AllToFree(free: seq<int>, busy: seq<int>, out: seq<int>, pool: seq<int>)
    requires busy != []
    ensures All([busy[0]] + free, busy[1..], out, pool) == All(free, busy, out, pool) == multiset(busy)
      + (multiset(free) + multiset(pool) + multiset(out))
  {
    assert busy == [busy[0]] + busy[1..];
  }

  class Chains {
    var next: map<int, int>
    var bufs: map<int, Buf>
    var free: int
    var busy: int
    var out: int
    var pool: int

    ghost var freeList: seq<int>
    ghost var busyList: seq<int>
    ghost var outList: seq<int>
    ghost var poolList: seq<int>

    ghost function Links(): multiset<int>
      reads this
    {
      All(freeList, busyList, outList, poolList)
    }

    /** Four lists without a common link. */
    ghost predicate Valid()
      reads this
    {
      && Listed(next, free, freeList) && Listed(next, busy, busyList) && Listed(next, out, outList)
        && Listed(next, pool, poolList)
      && Sized(bufs, busyList) && Sized(bufs, outList)
      && Single(Links())
    }

    /** The last link of the busy list. */
    method LastBusy() returns (cl: int)
      requires Listed(next, busy, busyList) && busyList != []
      ensures cl == busyList[|busyList| - 1]
    {
      cl := busy;
      ghost var k := 0;
      assert NextIs(next, busyList, k);
      while next[cl] != NULL
        invariant 0 <= k < |busyList| && cl == busyList[k] && NextIs(next, busyList, k)
        decreases |busyList| - k
      {
        cl := next[cl];
        k := k + 1;
        assert NextIs(next, busyList, k);
      }
      assert k + 1 < |busyList| ==> NextIs(next, busyList, k + 1);
    }

    /** The out list is appended to the busy list. */
    method Join()
      requires Valid()
      modifies this`next, this`busy, this`out, this`busyList, this`outList
      ensures Valid() && Links() == old(Links()) && busyList == old(busyList) + old(outList) && outList == []
      ensures out == NULL
    {
      EndOfList(next, busy, busyList);
      EndOfList(next, out, outList);
      AllJoined(freeList, busyList, outList, poolList);
      ghost var joined := busyList + outList;
      if out != NULL {
        if busy == NULL {
          busy := out;
          assert joined == outList;
        } else {
          LinkOut();
        }
        out := NULL;
      } else {
        assert joined == busyList;
      }
      busyList, outList := joined, [];
    }

    /** The last busy link is linked to the first one of the out list. */
    method LinkOut()
      requires Valid() && busyList != []
      modifies this`next
      ensures Listed(next, free, freeList) && Listed(next, pool, poolList) && Listed(next, busy, busyList + outList)
    {
      AllJoined(freeList, busyList, outList, poolList);
      var cl := LastBusy();
      JoinAll(next, free, freeList, busy, busyList, out, outList, pool, poolList);
      next := next[cl := out];
    }

    /** The first busy link goes to the pool's list of links. */
    method ToPool()
      requires Valid() && busyList != []
      modifies this`next, this`busy, this`pool, this`busyList, this`poolList
      ensures Valid() && Links() == old(Links()) && busyList == old(busyList)[1..]
      ensures poolList == [old(busyList)[0]] + old(poolList)
    {
      AllToPool(freeList, busyList, outList, poolList);
      MoveHead(next, busy, busyList, pool, poolList, free, freeList, out, outList);
      var cl := busy;
      busy := next[cl];
      next := next[cl := pool];
      pool := cl;
      poolList := [busyList[0]] + poolList;
      busyList := busyList[1..];
    }

    /** An empty buffer is made ready for use again. */
    method Reset(cl: int)
      requires Valid() && cl in bufs && BufSize(bufs[cl]) == 0
      modifies this`bufs
      ensures Valid()
      ensures bufs == old(bufs)[cl := old(bufs)[cl].(pos := old(bufs)[cl].start, last := old(bufs)[cl].start)]
      ensures SameSizes(old(bufs), bufs)
    {
      bufs := bufs[cl := bufs[cl].(pos := bufs[cl].start, last := bufs[cl].start)];
    }

    lemma NotFree()
      requires Valid() && busyList != []
      ensures busyList[0] !in freeList
    {
      AllToFree(freeList, busyList, outList, poolList);
      HeadOnce(busyList, multiset(freeList) + multiset(poolList) + multiset(outList));
    }

    /** The first busy link goes to the free list. */
    method ToFree()
      requires Valid() && busyList != []
      modifies this`next, this`busy, this`free, this`busyList, this`freeList
      ensures Valid() && Links() == old(Links()) && busyList == old(busyList)[1..]
      ensures freeList == [old(busyList)[0]] + old(freeList)
    {
      AllToFree(freeList, busyList, outList, poolList);
      MoveHead(next, busy, busyList, free, freeList, pool, poolList, out, outList);
      var cl := busy;
      busy := next[cl];
      next := next[cl := free];
      free := cl;
      freeList := [busyList[0]] + freeList;
      busyList := busyList[1..];
    }

    /** The body of the loop over the busy list. */
    method RecycleHead(tag: int, ghost was: map<int, Buf>, ghost older: seq<int>) returns (stop: bool)
      requires Valid() && busy != NULL && outList == [] && ResetNew(was, bufs, older, freeList)
      modifies this`next, this`bufs, this`busy, this`free, this`pool, this`busyList, this`freeList, this`poolList
      ensures Valid() && Links() == old(Links()) && SameSizes(old(bufs), bufs) && old(busyList) != []
      ensures
        var x := old(busyList)[0];
        && x in old(bufs) && (stop <==> Waits(old(bufs)[x], tag))
        && if stop then freeList == old(freeList) && busyList == old(busyList) && poolList == old(poolList)
           else if old(bufs)[x].tag != tag then
             freeList == old(freeList) && busyList == old(busyList)[1..] && poolList == [x] + old(poolList)
           else
             && freeList == [x] + old(freeList) && busyList == old(busyList)[1..] && poolList == old(poolList)
             && bufs[x].pos == bufs[x].last == bufs[x].start
      ensures ResetNew(was, bufs, older, freeList)
    {
      EndOfList(next, busy, busyList);
      var cl := busy;
      assert cl == busyList[0];
      if bufs[cl].tag != tag {
        ToPool();
        return false;
      }
      if BufSize(bufs[cl]) != 0 {
        return true;
      }
      NotFree();
      ResetMore(was, bufs, older, freeList, cl);
      Reset(cl);
      ToFree();
      return false;
    }

    /** `night_chain_update_chains`: k links of the busy list and the out list behind it leave it. */
    method UpdateChains(tag: int) returns (ghost k: nat)
      requires Valid()
      modifies this
      ensures
        var all := old(busyList + outList);
        && k <= |all| && Sized(old(bufs), all) && Sized(old(bufs), all[..k]) && busyList == all[k..]
        && (forall j :: 0 <= j < k ==> !Waits(old(bufs)[all[j]], tag))
        && (k < |all| ==> Waits(old(bufs)[all[k]], tag))
        && freeList == Picked(old(bufs), all[..k], tag, true) + old(freeList)
        && poolList == Picked(old(bufs), all[..k], tag, false) + old(poolList)
      ensures ResetNew(old(bufs), bufs, old(freeList), freeList)
      ensures Valid() && Links() == old(Links()) && outList == [] && SameSizes(old(bufs), bufs)
      ensures busyList == [] || Waits(bufs[busyList[0]], tag)
      ensures Sized(old(bufs), old(busyList + outList))
      ensures Sorted(freeList, busyList, poolList) == Recycle(old(bufs), old(freeList), old(busyList + outList),
        old(poolList), tag)
    {
      ghost var was := bufs;
      Join();
      assert Sized(was, busyList);
      ghost var goal := Recycle(was, freeList, busyList, poolList, tag);
      k := RecycleIs(was, freeList, busyList, poolList, tag);
      RecycleBusy(tag, was, goal);
    }

    /** What the loop over the busy list keeps. */
    ghost predicate Recycling(tag: int, was: map<int, Buf>, older: seq<int>, goal: Sorted)
      reads this
    {
      && Valid() && outList == [] && SameSizes(was, bufs) && Sized(was, busyList)
      && Recycle(was, freeList, busyList, poolList, tag) == goal && ResetNew(was, bufs, older, freeList)
    }

    /** One round of it. */
    method RecycleRound(tag: int, ghost was: map<int, Buf>, ghost older: seq<int>, ghost goal: Sorted)
        returns (stop: bool)
      requires Recycling(tag, was, older, goal) && busy != NULL
      modifies this`next, this`bufs, this`busy, this`free, this`pool, this`busyList, this`freeList, this`poolList
      ensures Recycling(tag, was, older, goal) && Links() == old(Links())
      ensures !stop ==> |busyList| < |old(busyList)|
      ensures stop ==>
        && busyList != [] && busyList[0] in bufs && Waits(bufs[busyList[0]], tag)
        && Sorted(freeList, busyList, poolList) == goal
    {
      ghost var before := bufs;
      EndOfList(next, busy, busyList);
      assert busyList[0] in before;
      RecycleStep(was, before, freeList, busyList, poolList, tag);
      stop := RecycleHead(tag, was, older);
      SameTwice(was, before, bufs);
    }

    /** The loop over the busy list. */
    method RecycleBusy(tag: int, ghost was: map<int, Buf>, ghost goal: Sorted)
      requires Recycling(tag, was, freeList, goal)
      modifies this
      ensures Valid() && Links() == old(Links()) && outList == [] && SameSizes(was, bufs)
      ensures Sorted(freeList, busyList, poolList) == goal && ResetNew(was, bufs, old(freeList), freeList)
      ensures busyList == [] || Waits(bufs[busyList[0]], tag)
    {
      while busy != NULL
        invariant Recycling(tag, was, old(freeList), goal) && Links() == old(Links())
        decreases |busyList|
      {
        var stop := RecycleRound(tag, was, old(freeList), goal);
        if stop {
          return;
        }
      }
      EndOfList(next, busy, busyList);
    }

    /** `night_chain_update_sent` on the chain that starts at head. */
    method UpdateSent(head: int, sent: nat, ghost list: seq<int>) returns (r: int, ghost k: nat)
      requires Listed(next, head, list) && Sized(bufs, list) && Once(list)
      modifies this`bufs
      ensures Sized(bufs, list) && Stream(bufs, list) == Stream(old(bufs), list)[Min(sent, |Stream(old(bufs), list)|)..]
      ensures forall x :: x !in list ==> (x in bufs <==> x in old(bufs)) && (x in bufs ==> bufs[x] == old(bufs)[x])
      ensures k <= |list| && r == (if k < |list| then list[k] else NULL)
      ensures forall j :: 0 <= j < k ==> BufSize(bufs[list[j]]) == 0
      ensures |Stream(old(bufs), list[..k])| <= sent
      ensures k < |list| ==> sent == |Stream(old(bufs), list[..k])| || sent < |Stream(old(bufs), list[..k + 1])|
    {
      r := head;
      k := 0;
      var left: nat := sent;
      assert list[0..] == list;
      ghost var was := bufs;
      while r != NULL && left != 0
        invariant Sending(was, bufs, list, k, sent, left) && Listed(next, r, list[k..])
        decreases |list| - k
      {
        PopList(next, r, list[k..]);
        assert list[k..][1..] == list[k + 1..] && r == list[k];
        SendingStep(was, bufs, list, k, sent, left);
        var size := BufSize(bufs[r]);
        if left < size {
          bufs := bufs[r := Sent(bufs[r], left)];
          SendingDone(was, bufs, list, sent);
          return;
        }
        left := left - size;
        bufs := bufs[r := Finished(bufs[r])];
        r := next[r];
        k := k + 1;
      }
      EndOfList(next, r, list[k..]);
      SendingDone(was, bufs, list, sent);
    }
  }

  /** Moving the head of one list to another, next to two more. */
  lemma MoveHead(next: map<int, int>, a: int, la: seq<int>, b: int, lb: seq<int>, c: int, lc: seq<int>, d: int,
      ld: seq<int>)
    requires Listed(next, a, la) && Listed(next, b, lb) && Listed(next, c, lc) && Listed(next, d, ld) && la != []
    requires Single(multiset(la) + (multiset(lb) + multiset(lc) + multiset(ld)))
    ensures
      && a == la[0] && a in next
      && Listed(next[a := b], next[a], la[1..]) && Listed(next[a := b], a, [la[0]] + lb)
      && Listed(next[a := b], c, lc) && Listed(next[a := b], d, ld)
  {
    HeadOnce(la, multiset(lb) + multiset(lc) + multiset(ld));
    PopList(next, a, la);
    ListFrame(next, next[a], la[1..], a, b);
    PushList(next, b, lb, a);
    ListFrame(next, c, lc, a, b);
    ListFrame(next, d, ld, a, b);
  }

  lemma JoinAll(next: map<int, int>, f: int, lf: seq<int>, b: int, lb: seq<int>, o: int, lo: seq<int>, p: int,
      lp: seq<int>)
    requires Listed(next, f, lf) && Listed(next, b, lb) && Listed(next, o, lo) && Listed(next, p, lp) && lb != []
    requires Single(multiset(lb) + (multiset(lf) + multiset(lo) + multiset(lp)))
    ensures
      var next' := next[lb[|lb| - 1] := o];
      Listed(next', f, lf) && Listed(next', b, lb + lo) && Listed(next', p, lp)
  {
    LastOnce(lb, multiset(lf) + multiset(lo) + multiset(lp));
    var x := lb[|lb| - 1];
    forall k | 0 <= k < |lb| - 1
      ensures lb[k] != x
    {
      assert lb[k] in lb[..|lb| - 1];
    }
    JoinLists(next, b, lb, o, lo);
    ListFrame(next, f, lf, x, o);
    ListFrame(next, p, lp, x, o);
  }

  /** The head of a list is in none of the others, nor again in its own. */
  lemma HeadOnce(list: seq<int>, others: multiset<int>)
    requires list != [] && Single(multiset(list) + others)
    ensures list[0] !in list[1..] && list[0] !in others
  {
    var x, rest := list[0], list[1..];
    assert list == [x] + rest;
    assert (multiset(list) + others)[x] == 1 + multiset(rest)[x] + others[x];
  }

  lemma LastOnce(list: seq<int>, others: multiset<int>)
    requires list != [] && Single(multiset(list) + others)
    ensures list[|list| - 1] !in list[..|list| - 1] && list[|list| - 1] !in others
  {
    var x, rest := list[|list| - 1], list[..|list| - 1];
    assert list == rest + [x];
    assert (multiset(list) + others)[x] == 1 + multiset(rest)[x] + others[x];
  }

  /** The loop has passed k links, and has `left` bytes to mark. */
  ghost predicate Sending(was: map<int, Buf>, bufs: map<int, Buf>, list: seq<int>, k: nat, sent: nat, left: nat) {
    && k <= |list| && Sized(was, list) && Sized(bufs, list)
    && AllSent(bufs, list[k..], left) == AllSent(was, list, sent)
    && sent == left + |Stream(was, list[..k])|
    && (forall j {:trigger list[j]} :: 0 <= j < k ==> BufSize(bufs[list[j]]) == 0)
    && (forall j {:trigger list[j]} :: k <= j < |list| ==> bufs[list[j]] == was[list[j]])
  }

  lemma SendingStep(was: map<int, Buf>, bufs: map<int, Buf>, list: seq<int>, k: nat, sent: nat, left: nat)
    requires Sending(was, bufs, list, k, sent, left) && left > 0 && k < |list| && Once(list)
    ensures
      var x, size := list[k], BufSize(bufs[list[k]]);
      if left < size then
        && bufs[x := Sent(bufs[x], left)] == AllSent(was, list, sent) && sent < |Stream(was, list[..k + 1])|
      else
        Sending(was, bufs[x := Sent(bufs[x], size)], list, k + 1, sent, left - size)
  {
    var x := list[k];
    StreamSnoc(was, list, k);
    assert list[k..][0] == x && list[k..][1..] == list[k + 1..];
  }

  lemma SendingDone(was: map<int, Buf>, bufs: map<int, Buf>, list: seq<int>, sent: nat)
    requires Sized(was, list) && Once(list) && bufs == AllSent(was, list, sent)
    ensures Sized(bufs, list) && Stream(bufs, list) == Stream(was, list)[Min(sent, |Stream(was, list)|)..]
    ensures forall x :: x !in list ==> (x in bufs <==> x in was) && (x in bufs ==> bufs[x] == was[x])
  {
    AllSentStream(was, list, sent);
    forall x | x !in list
      ensures (x in bufs <==> x in was) && (x in bufs ==> bufs[x] == was[x])
    {
      AllSentOthers(was, list, sent, x);
    }
  }

  lemma {:induction false} StreamSnoc(bufs: map<int, Buf>, list: seq<int>, k: nat)
    requires Sized(bufs, list) && k < |list|
    ensures |Stream(bufs, list[..k + 1])| == |Stream(bufs, list[..k])| + BufSize(bufs[list[k]])
  {
    if k > 0 {
      StreamSnoc(bufs, list[1..], k - 1);
      assert list[..k + 1][1..] == list[1..][..k] && list[..k][1..] == list[1..][..k - 1];
    }
  }
}
