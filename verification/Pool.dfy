/** The memory pool of `night_palloc.c`: bump blocks with failure counters, and large areas. */
module Pool {
  import opened Basics

  const POOL_HEADER := 64       // sizeof(night_pool_t)
  const BLOCK_HEADER := 32      // sizeof(night_pool_data_t)
  const LARGE_NODE := 16        // sizeof(night_pool_large_t)
  const ALIGNMENT := 8
  const POOL_ALIGNMENT := 16

  /** A block of the chain; the first one is the pool itself. */
  datatype Block = Block(base: int, last: int, end: int, failed: nat)

  /** The 32-bit counter goes up by one when the block was tried. */
  function Failed(b: Block, tried: bool): Block {
    if tried then b.(failed := (b.failed + 1) % 0x1_0000_0000) else b
  }

  /** The first address a block offers. */
  function Offer(b: Block, align: bool): int {
    if align then Align8(b.last) else b.last
  }

  /** The test of the source, which compares an unsigned difference. */
  predicate Fits(b: Block, align: bool, n: nat) {
    SizeT(b.end - Offer(b, align)) >= n
  }

  /** In a block whose end is aligned and not passed, the test says whether the piece ends in the block. */
  lemma FitsExactly(b: Block, k: int, size: int, align: bool, n: nat)
    requires BlockOk(b, k, size) && size % ALIGNMENT == 0 && b.last <= b.end
    ensures Fits(b, align, n) <==> (if align then Align8(b.last) else b.last) + n <= b.end
  {
    AlignedEnd(b, k, size);
  }

  /** The first block from p on that passes the test. */
  function FirstFit(blocks: seq<Block>, p: nat, align: bool, n: nat): (r: nat)
    requires p <= |blocks|
    decreases |blocks| - p
    ensures p <= r <= |blocks| && (r < |blocks| ==> Fits(blocks[r], align, n))
    ensures forall q :: p <= q < r ==> !Fits(blocks[q], align, n)
  {
    if p == |blocks| || Fits(blocks[p], align, n) then p else FirstFit(blocks, p + 1, align, n)
  }

  datatype Large = Large(node: int, alloc: Option<int>)

  /** Where a piece of memory handed out lies: in a block of the chain, or in a large area of its own. */
  datatype Home = InBlock(index: nat) | InArea(index: nat)

  datatype Grant = Grant(lo: int, hi: int, home: Home)

  datatype Region = Region(lo: int, hi: int)

  /** A pointer difference cast to size_t. */
  function SizeT(x: int): int {
    if x >= 0 then x else x + 0x1_0000_0000_0000_0000
  }

  /** No address lies in both. */
  predicate Disjoint(alo: int, ahi: int, blo: int, bhi: int) {
    ahi <= blo || bhi <= alo || ahi <= alo || bhi <= blo
  }

  function Header(k: int): int {
    if k == 0 then POOL_HEADER else BLOCK_HEADER
  }

  // ---------- what holds of a pool ----------

  predicate BlockOk(b: Block, k: int, size: int) {
    b.base % POOL_ALIGNMENT == 0 && b.end == b.base + size && b.base + Header(k) <= b.last
  }

  /** What holds for every pool size. */
  ghost predicate Chain(blocks: seq<Block>, size: int) {
    forall k {:trigger blocks[k]} :: 0 <= k < |blocks| ==> BlockOk(blocks[k], k, size)
  }

  /** The grant lies where its home says, behind the header and before the bump pointer. */
  predicate Housed(g: Grant, blocks: seq<Block>, areas: seq<Region>) {
    && g.lo <= g.hi
    && match g.home
       case InBlock(k) => k < |blocks| && blocks[k].base + Header(k) <= g.lo && g.hi <= blocks[k].last
       case InArea(j) => j < |areas| && g.lo == areas[j].lo && g.hi == areas[j].hi
  }

  /** The bump pointers stay inside their blocks, and the memory the system gave does not overlap. */
  ghost predicate Sound(blocks: seq<Block>, areas: seq<Region>) {
    && (forall k {:trigger blocks[k]} :: 0 <= k < |blocks| ==> blocks[k].last <= blocks[k].end)
    && (forall k, l {:trigger blocks[k], blocks[l]} :: 0 <= k < l < |blocks| ==>
      Disjoint(blocks[k].base, blocks[k].end, blocks[l].base, blocks[l].end))
    && (forall j {:trigger areas[j]} :: 0 <= j < |areas| ==> areas[j].lo < areas[j].hi)
    && (forall i, j {:trigger areas[i], areas[j]} :: 0 <= i < j < |areas| ==>
      Disjoint(areas[i].lo, areas[i].hi, areas[j].lo, areas[j].hi))
    && (forall k, j {:trigger blocks[k], areas[j]} :: 0 <= k < |blocks| && 0 <= j < |areas| ==>
      Disjoint(blocks[k].base, blocks[k].end, areas[j].lo, areas[j].hi))
  }

  /** All pieces handed out are where they should be and pairwise disjoint; an area is given out once. */
  ghost predicate Granted(grants: seq<Grant>, blocks: seq<Block>, areas: seq<Region>) {
    && (forall i {:trigger grants[i]} :: 0 <= i < |grants| ==> Housed(grants[i], blocks, areas))
    && (forall i, j {:trigger grants[i], grants[j]} :: 0 <= i < j < |grants| ==>
          Disjoint(grants[i].lo, grants[i].hi, grants[j].lo, grants[j].hi)
            && (grants[i].home.InArea? ==> grants[i].home != grants[j].home))
  }

  /** The system's memory at [lo, lo + n) is not in use by the pool. */
  ghost predicate Unused(blocks: seq<Block>, areas: seq<Region>, lo: int, n: int) {
    && (forall k {:trigger blocks[k]} :: 0 <= k < |blocks| ==> Disjoint(blocks[k].base, blocks[k].end, lo, lo + n))
    && (forall j {:trigger areas[j]} :: 0 <= j < |areas| ==> Disjoint(areas[j].lo, areas[j].hi, lo, lo + n))
  }

  /** The chain keeps its blocks where they are, and at most one of the pool's size joins it at spare. */
  ghost predicate Extends(blocks: seq<Block>, blocks': seq<Block>, spare: int, size: int) {
    && |blocks| <= |blocks'| <= |blocks| + 1
    && (forall k {:trigger blocks[k]} {:trigger blocks'[k]} :: 0 <= k < |blocks| ==>
      blocks'[k].base == blocks[k].base && blocks'[k].end == blocks[k].end)
    && (|blocks| < |blocks'| ==> blocks'[|blocks|].base == spare && blocks'[|blocks|].end == spare + size)
  }

  /** A new block was needed: every block from the current one on but the last has failed once more, in a 32-bit
      counter, and the search begins behind the last of these that had failed more than four times. */
  ghost predicate Aged(was: seq<Block>, from: nat, now: seq<Block>, current: nat) {
    && |now| == |was| && from <= current < |was|
    && (forall k :: 0 <= k < |was| ==>
          now[k] == if from <= k < |was| - 1 then was[k].(failed := (was[k].failed + 1) % 0x1_0000_0000) else was[k])
    && (current == from || was[current - 1].failed > 4)
    && (forall k :: current <= k < |was| - 1 ==> was[k].failed <= 4)
  }

  // ---------- one step at a time ----------

  /** A piece behind the bump pointer of its block is disjoint from every grant. */
  lemma BehindBump(grants: seq<Grant>, blocks: seq<Block>, areas: seq<Region>, size: int, k: nat, m: int, n: nat,
      i: nat)
    requires Chain(blocks, size) && Sound(blocks, areas) && Granted(grants, blocks, areas)
    requires k < |blocks| && blocks[k].last <= m && m + n <= blocks[k].end && i < |grants|
    ensures Disjoint(grants[i].lo, grants[i].hi, m, m + n)
  {
    var g := grants[i];
    assert Housed(g, blocks, areas);
    match g.home {
      case InBlock(l) =>
        BlocksApart(blocks, areas, k, l);
      case InArea(j) =>
        assert Disjoint(blocks[k].base, blocks[k].end, areas[j].lo, areas[j].hi);
    }
  }

  lemma BlocksApart(blocks: seq<Block>, areas: seq<Region>, k: nat, l: nat)
    requires Sound(blocks, areas) && k < |blocks| && l < |blocks|
    ensures k != l ==> Disjoint(blocks[k].base, blocks[k].end, blocks[l].base, blocks[l].end)
  {
    assert k < l ==> Disjoint(blocks[k].base, blocks[k].end, blocks[l].base, blocks[l].end);
    assert l < k ==> Disjoint(blocks[l].base, blocks[l].end, blocks[k].base, blocks[k].end);
  }

  lemma BumpSafe(grants: seq<Grant>, blocks: seq<Block>, areas: seq<Region>, size: int, k: nat, m: int, n: nat)
    requires Chain(blocks, size) && Sound(blocks, areas) && Granted(grants, blocks, areas)
    requires k < |blocks| && blocks[k].last <= m && m + n <= blocks[k].end
    ensures
      var blocks', grants' := blocks[k := blocks[k].(last := m + n)], grants + [Grant(m, m + n, InBlock(k))];
      Chain(blocks', size) && Sound(blocks', areas) && Granted(grants', blocks', areas)
  {
    var blocks', grants' := blocks[k := blocks[k].(last := m + n)], grants + [Grant(m, m + n, InBlock(k))];
    forall i | 0 <= i < |grants|
      ensures Housed(grants[i], blocks', areas) && Disjoint(grants[i].lo, grants[i].hi, m, m + n)
    {
      BehindBump(grants, blocks, areas, size, k, m, n, i);
    }
  }

  /** The grant that ends at the first block's bump pointer is made longer in place. */
  lemma ExtendSafe(grants: seq<Grant>, blocks: seq<Block>, areas: seq<Region>, size: int, at: nat, n: nat)
    requires Chain(blocks, size) && Sound(blocks, areas) && Granted(grants, blocks, areas) && size > 0
    requires blocks != [] && at < |grants| && grants[at].hi == blocks[0].last && blocks[0].last + n <= blocks[0].end
    ensures
      var hi := blocks[0].last + n;
      var blocks', grants' := blocks[0 := blocks[0].(last := hi)], grants[at := grants[at].(hi := hi)];
      Chain(blocks', size) && Sound(blocks', areas) && Granted(grants', blocks', areas)
  {
    var last, hi := blocks[0].last, blocks[0].last + n;
    var blocks', grants' := blocks[0 := blocks[0].(last := hi)], grants[at := grants[at].(hi := hi)];
    HomeIsFirst(grants[at], blocks, areas, size);
    forall i | 0 <= i < |grants|
      ensures Housed(grants'[i], blocks', areas)
      ensures i != at ==> Disjoint(grants[i].lo, grants[i].hi, grants'[at].lo, hi)
    {
      assert Housed(grants[i], blocks, areas);
      BehindBump(grants, blocks, areas, size, 0, last, n, i);
      if i < at {
        assert Disjoint(grants[i].lo, grants[i].hi, grants[at].lo, grants[at].hi);
      } else if i > at {
        assert Disjoint(grants[at].lo, grants[at].hi, grants[i].lo, grants[i].hi);
      }
    }
  }

  /** Only a piece of the first block can end at its bump pointer. */
  lemma HomeIsFirst(g: Grant, blocks: seq<Block>, areas: seq<Region>, size: int)
    requires Chain(blocks, size) && Sound(blocks, areas) && blocks != [] && size > 0
    requires Housed(g, blocks, areas) && g.hi == blocks[0].last
    ensures g.home == InBlock(0)
  {
    assert BlockOk(blocks[0], 0, size);
  }

  /** The counters of the older blocks change, nothing else. */
  lemma CountersSafe(grants: seq<Grant>, blocks: seq<Block>, blocks': seq<Block>, areas: seq<Region>, size: int)
    requires |blocks'| == |blocks| && forall k :: 0 <= k < |blocks| ==>
      blocks'[k] == blocks[k].(failed := blocks'[k].failed)
    requires Chain(blocks, size)
    ensures Chain(blocks', size)
    ensures Sound(blocks, areas) ==> Sound(blocks', areas)
    ensures Granted(grants, blocks, areas) ==> Granted(grants, blocks', areas)
  {
    forall g | Housed(g, blocks, areas)
      ensures Housed(g, blocks', areas)
    {
    }
  }

  /** A fresh block joins the chain. */
  lemma ChainGrows(grants: seq<Grant>, blocks: seq<Block>, areas: seq<Region>, size: int, b: Block)
    requires Chain(blocks, size) && Sound(blocks, areas) && Granted(grants, blocks, areas)
    requires BlockOk(b, |blocks|, size) && b.last <= b.end && Unused(blocks, areas, b.base, size)
    ensures Chain(blocks + [b], size) && Sound(blocks + [b], areas) && Granted(grants, blocks + [b], areas)
  {
    forall i | 0 <= i < |grants|
      ensures Housed(grants[i], blocks + [b], areas)
    {
    }
  }

  /** A fresh block with its first piece joins the chain. */
  lemma NewBlockSafe(grants: seq<Grant>, blocks: seq<Block>, areas: seq<Region>, size: int, b: Block, n: nat)
    requires Chain(blocks, size) && Sound(blocks, areas) && Granted(grants, blocks, areas) && blocks != []
    requires BlockOk(b, |blocks|, size) && b.last == b.base + BLOCK_HEADER && b.last + n <= b.end
    requires Unused(blocks, areas, b.base, size)
    ensures
      var blocks', grants' := blocks + [b.(last := b.last + n)],
        grants + [Grant(b.last, b.last + n, InBlock(|blocks|))];
      Chain(blocks', size) && Sound(blocks', areas) && Granted(grants', blocks', areas)
  {
    ChainGrows(grants, blocks, areas, size, b);
    BumpSafe(grants, blocks + [b], areas, size, |blocks|, b.last, n);
    assert (blocks + [b])[|blocks| := b.(last := b.last + n)] == blocks + [b.(last := b.last + n)];
  }

  /** A fresh large area is given out whole. */
  lemma NewAreaSafe(grants: seq<Grant>, blocks: seq<Block>, areas: seq<Region>, size: int, lo: int, n: nat)
    requires Chain(blocks, size) && Sound(blocks, areas) && Granted(grants, blocks, areas)
    requires n > 0 && Unused(blocks, areas, lo, n)
    ensures
      var areas', grants' := areas + [Region(lo, lo + n)], grants + [Grant(lo, lo + n, InArea(|areas|))];
      Sound(blocks, areas') && Granted(grants', blocks, areas')
  {
    var areas' := areas + [Region(lo, lo + n)];
    forall i | 0 <= i < |grants|
      ensures Housed(grants[i], blocks, areas') && Disjoint(grants[i].lo, grants[i].hi, lo, lo + n)
      ensures grants[i].home != InArea(|areas|)
    {
      var g := grants[i];
      match g.home {
        case InBlock(k) => assert Disjoint(blocks[k].base, blocks[k].end, lo, lo + n);
        case InArea(j) => assert Disjoint(areas[j].lo, areas[j].hi, lo, lo + n);
      }
    }
  }

  lemma HeaderIsAligned(base: int)
    requires base % POOL_ALIGNMENT == 0
    ensures Align8(base + BLOCK_HEADER) == base + BLOCK_HEADER && (base + BLOCK_HEADER) % ALIGNMENT == 0
  {
    Aligned16(base);
    AlignedSum(base, BLOCK_HEADER);
  }

  lemma NextMultiple(x: int, end: int)
    requires x <= end && end % ALIGNMENT == 0
    ensures Align8(x) <= end
  {
  }

  /** Aligning the bump pointer never takes it past an aligned end. */
  lemma AlignedEnd(b: Block, k: int, size: int)
    requires BlockOk(b, k, size) && size % ALIGNMENT == 0 && b.last <= b.end
    ensures Align8(b.last) <= b.end
  {
    Aligned16(b.base);
    AlignedSum(b.base, size);
    NextMultiple(b.last, b.end);
  }

  /** The large areas still recorded in the list. */
  function Held(large: seq<Large>): multiset<int> {
    if large == [] then multiset{}
    else Held(large[1..]) + if large[0].alloc.Some? then multiset{large[0].alloc.value} else multiset{}
  }

  lemma {:induction false} HeldReuse(large: seq<Large>, i: nat, p: int)
    requires i < |large| && large[i].alloc.None?
    ensures Held(large[i := large[i].(alloc := Some(p))]) == Held(large) + multiset{p}
  {
    var large' := large[i := large[i].(alloc := Some(p))];
    if i == 0 {
      assert large'[1..] == large[1..];
    } else {
      HeldReuse(large[1..], i - 1, p);
      assert large'[1..] == large[1..][i - 1 := large[i].(alloc := Some(p))];
    }
  }

  function Starts(areas: seq<Region>): multiset<int> {
    if areas == [] then multiset{} else Starts(areas[..|areas| - 1]) + multiset{areas[|areas| - 1].lo}
  }

  class MemoryPool {
    const size: nat
    const max: nat
    var blocks: seq<Block>
    var current: nat
    var large: seq<Large>

    ghost var grants: seq<Grant>
    ghost var areas: seq<Region>

    ghost predicate Wf()
      reads this
    {
      size >= POOL_HEADER && max <= size - POOL_HEADER && current < |blocks| && Chain(blocks, size)
    }

    /** The list of large areas records exactly those that the system gave. */
    ghost predicate Ledger()
      reads this
    {
      Held(large) == Starts(areas)
    }

    /** The invariant of every run on a pool whose size is a multiple of the alignment. */
    ghost predicate Safe()
      reads this
    {
      Wf() && size % ALIGNMENT == 0 && Sound(blocks, areas) && Granted(grants, blocks, areas)
    }

    /** Since `before`, the first piece handed out is [m, m + n), and what was handed out earlier is still there. */
    ghost predicate Given(before: seq<Grant>, m: int, n: int)
      reads this
    {
      before < grants && grants[|before|].lo == m && grants[|before|].hi == m + n
    }

    /** `night_create_pool` on memory that the system gave at base. */
    constructor (base: int, size: nat, pageSize: nat)
      requires size >= POOL_HEADER && base % POOL_ALIGNMENT == 0
      ensures Wf() && Ledger() && this.size == size && grants == [] && areas == []
      ensures blocks == [Block(base, base + POOL_HEADER, base + size, 0)]
      ensures max == if size - POOL_HEADER < pageSize then size - POOL_HEADER else pageSize
      ensures size % ALIGNMENT == 0 ==> Safe()
    {
      this.size := size;
      this.max := if size - POOL_HEADER < pageSize then size - POOL_HEADER else pageSize;
      blocks := [Block(base, base + POOL_HEADER, base + size, 0)];
      current := 0;
      large, grants, areas := [], [], [];
    }

    /** Every block from the current one on but the last has failed once more; those that failed too often are
        skipped from now on. */
    method CountFailures(ghost spare: int)
      requires Wf()
      modifies this`blocks, this`current
      ensures Wf() && |blocks| == |old(blocks)|
      ensures old(Unused(blocks, areas, spare, size)) ==> Unused(blocks, areas, spare, size)
      ensures Aged(old(blocks), old(current), blocks, current)
      ensures old(Safe()) ==> Safe()
    {
      var p := current;
      while p + 1 < |blocks|
        invariant old(current) <= current <= p < |blocks| == |old(blocks)|
        invariant forall k :: 0 <= k < |blocks| ==> blocks[k] == Failed(old(blocks)[k], old(current) <= k < p)
        invariant current == old(current) || old(blocks)[current - 1].failed > 4
        invariant forall k :: current <= k < p ==> old(blocks)[k].failed <= 4
      {
        var failed := blocks[p].failed;
        blocks := blocks[p := Failed(blocks[p], true)];
        if failed > 4 {
          current := p + 1;
        }
        p := p + 1;
      }
      CountersSafe(grants, old(blocks), blocks, areas, size);
    }

    /** The new block goes to the end of the chain, with its first piece taken. */
    method Append(n: nat, spare: int) returns (m: int)
      requires Wf() && n <= size - BLOCK_HEADER && spare % POOL_ALIGNMENT == 0
      modifies this`blocks, this`grants
      ensures Wf() && grants == old(grants) + [Grant(m, m + n, InBlock(|old(blocks)|))]
      ensures m == spare + BLOCK_HEADER && m % ALIGNMENT == 0
      ensures blocks == old(blocks) + [Block(spare, m + n, spare + size, 0)]
      ensures old(Safe() && Unused(blocks, areas, spare, size)) ==> Safe()
    {
      m := Align8(spare + BLOCK_HEADER);
      HeaderIsAligned(spare);
      var block := Block(spare, spare + BLOCK_HEADER, spare + size, 0);
      if Safe() && Unused(blocks, areas, spare, size) {
        NewBlockSafe(grants, blocks, areas, size, block, n);
      }
      grants := grants + [Grant(m, m + n, InBlock(|blocks|))];
      blocks := blocks + [block.(last := m + n)];
    }

    /** `night_palloc_block`: a fresh block always has room for a small request. */
    method PallocBlock(n: nat, spare: int) returns (m: int)
      requires Wf() && n <= size - BLOCK_HEADER && spare % POOL_ALIGNMENT == 0
      modifies this`blocks, this`current, this`grants
      ensures Wf() && Given(old(grants), m, n) && |blocks| == |old(blocks)| + 1
      ensures m == spare + BLOCK_HEADER && m % ALIGNMENT == 0
      ensures Aged(old(blocks), old(current), blocks[..|old(blocks)|], current)
      ensures blocks[|old(blocks)|] == Block(spare, m + n, spare + size, 0)
      ensures Extends(old(blocks), blocks, spare, size)
      ensures old(Safe() && Unused(blocks, areas, spare, size)) ==> Safe()
    {
      CountFailures(spare);
      m := Append(n, spare);
    }

    /** The piece [m, m + n) is cut off block p. */
    method Bump(p: nat, m: int, align: bool, n: nat)
      requires Wf() && p < |blocks| && m == Offer(blocks[p], align) && Fits(blocks[p], align, n)
      modifies this`blocks, this`grants
      ensures Wf() && grants == old(grants) + [Grant(m, m + n, InBlock(p))]
      ensures blocks == old(blocks)[p := old(blocks)[p].(last := m + n)]
      ensures old(Safe()) ==> Safe()
    {
      assert BlockOk(blocks[p], p, size);
      if Safe() {
        AlignedEnd(blocks[p], p, size);
        BumpSafe(grants, blocks, areas, size, p, m, n);
      }
      grants := grants + [Grant(m, m + n, InBlock(p))];
      blocks := blocks[p := blocks[p].(last := m + n)];
    }

    /** The array's growth in place moves the first block's bump pointer. */
    method Extend(ghost at: nat, n: nat)
      requires Wf() && at < |grants| && grants[at].hi == blocks[0].last && blocks[0].last + n <= blocks[0].end
      modifies this`blocks, this`grants
      ensures Wf() && blocks == old(blocks)[0 := old(blocks)[0].(last := old(blocks)[0].last + n)]
      ensures grants == old(grants)[at := old(grants)[at].(hi := old(grants)[at].hi + n)]
      ensures old(Safe()) ==> Safe()
    {
      assert BlockOk(blocks[0], 0, size);
      if Safe() {
        ExtendSafe(grants, blocks, areas, size, at, n);
      }
      grants := grants[at := grants[at].(hi := grants[at].hi + n)];
      blocks := blocks[0 := blocks[0].(last := blocks[0].last + n)];
    }

    /** `night_palloc_small`: the first block that fits, or a fresh one. */
    method PallocSmall(n: nat, align: bool, spare: int) returns (m: int)
      requires Wf() && n <= size - BLOCK_HEADER && spare % POOL_ALIGNMENT == 0
      modifies this`blocks, this`current, this`grants
      ensures Wf() && Given(old(grants), m, n)
      ensures
        var k := FirstFit(old(blocks), old(current), align, n);
        if k < |old(blocks)| then
          m == Offer(old(blocks)[k], align) && blocks == old(blocks)[k := old(blocks)[k].(last := m + n)]
            && current == old(current)
        else
          && m == spare + BLOCK_HEADER && |blocks| == k + 1 && blocks[k] == Block(spare, m + n, spare + size, 0)
          && Aged(old(blocks), old(current), blocks[..k], current)
      ensures align ==> m % ALIGNMENT == 0
      ensures Extends(old(blocks), blocks, spare, size)
      ensures old(Safe() && Unused(blocks, areas, spare, size)) ==> Safe()
    {
      var p := current;
      while p < |blocks|
        invariant p <= |blocks| && FirstFit(blocks, p, align, n) == FirstFit(blocks, current, align, n)
      {
        m := blocks[p].last;
        if align {
          m := Align8(m);
        }
        if SizeT(blocks[p].end - m) >= n {
          Bump(p, m, align, n);
          return;
        }
        p := p + 1;
      }
      m := PallocBlock(n, spare);
    }

    /** The system's answer to malloc is given out whole. */
    ghost method TakeArea(p: int, n: nat, spare: int)
      requires Wf() && n > 0
      modifies this`grants, this`areas
      ensures areas == old(areas) + [Region(p, p + n)]
      ensures grants == old(grants) + [Grant(p, p + n, InArea(|old(areas)|))]
      ensures old(Safe() && Unused(blocks, areas, p, n)) ==> Safe()
      ensures old(SpareMemory(p, n, spare)) ==> Unused(blocks, areas, spare, size)
      ensures Starts(areas) == Starts(old(areas)) + multiset{p}
    {
      if Safe() && Unused(blocks, areas, p, n) {
        NewAreaSafe(grants, blocks, areas, size, p, n);
      }
      grants := grants + [Grant(p, p + n, InArea(|areas|))];
      areas := areas + [Region(p, p + n)];
      assert areas[..|areas| - 1] == old(areas);
    }

    /** The search for a list node to use again, among the first five. */
    method Reuse(p: int) returns (done: bool)
      modifies this`large
      ensures done ==> Held(large) == Held(old(large)) + multiset{p}
      ensures done <==> exists i :: 0 <= i < |old(large)| && i < 5 && old(large)[i].alloc.None?
      ensures done ==>
        exists i :: 0 <= i < |old(large)| && old(large)[i].alloc.None?
          && (forall j :: 0 <= j < i ==> old(large)[j].alloc.Some?)
          && large == old(large)[i := old(large)[i].(alloc := Some(p))]
      ensures !done ==> large == old(large)
    {
      var i, n := 0, 0;
      while i < |large|
        invariant 0 <= i <= |large| && large == old(large) && n == i <= 4
        invariant forall j :: 0 <= j < i ==> large[j].alloc.Some?
      {
        if large[i].alloc.None? {
          HeldReuse(large, i, p);
          large := large[i := large[i].(alloc := Some(p))];
          return true;
        }
        if n > 3 {
          break;
        }
        n := n + 1;
        i := i + 1;
      }
      return false;
    }

    /** The list node for the area at p: one that is free among the first five, or a new one from the pool itself. */
    method Record(p: int, spare: int)
      requires Wf() && spare % POOL_ALIGNMENT == 0
      modifies this`blocks, this`current, this`grants, this`large
      ensures Wf() && Held(large) == Held(old(large)) + multiset{p} && old(grants) <= grants
      ensures Extends(old(blocks), blocks, spare, size)
      ensures old(Safe() && Unused(blocks, areas, spare, size)) ==> Safe()
    {
      var reused := Reuse(p);
      if !reused {
        var node := PallocSmall(LARGE_NODE, true, spare);
        assert ([Large(node, Some(p))] + large)[1..] == large;
        large := [Large(node, Some(p))] + large;
      }
    }

    /** `night_palloc_large`: p is the new area, and spare is where a new block would go if the list node needs one. */
    method PallocLarge(n: nat, p: int, spare: int) returns (m: int)
      requires Wf() && Ledger() && n > 0 && spare % POOL_ALIGNMENT == 0
      modifies this`blocks, this`current, this`grants, this`large, this`areas
      ensures Wf() && Ledger() && m == p && Given(old(grants), m, n)
      ensures Extends(old(blocks), blocks, spare, size) && areas == old(areas) + [Region(p, p + n)]
      ensures old(Safe() && SpareMemory(p, n, spare)) ==> Safe()
    {
      m := p;
      TakeArea(p, n, spare);
      Record(p, spare);
    }

    /** What the system answers to malloc(n) and to memalign(16, size) is memory not in use. */
    ghost predicate SpareMemory(p: int, n: int, spare: int)
      reads this
    {
      Unused(blocks, areas, p, n) && Unused(blocks, areas, spare, size) && Disjoint(p, p + n, spare, spare + size)
    }

    /** The answers that a request for n bytes may need are memory not in use. */
    ghost predicate Answered(n: int, p: int, spare: int)
      reads this
    {
      Unused(blocks, areas, spare, size) && (n > max ==> SpareMemory(p, n, spare))
    }

    /** `night_palloc` (aligned) and `night_pnalloc` (not aligned). */
    method Palloc(n: nat, align: bool, p: int, spare: int) returns (m: int)
      requires Wf() && Ledger() && spare % POOL_ALIGNMENT == 0
      modifies this`blocks, this`current, this`grants, this`large, this`areas
      ensures Wf() && Ledger() && Given(old(grants), m, n)
      ensures n > max ==> m == p
      ensures n <= max ==>
        && areas == old(areas)
        && var k := FirstFit(old(blocks), old(current), align, n);
        if k < |old(blocks)| then
          m == Offer(old(blocks)[k], align) && blocks == old(blocks)[k := old(blocks)[k].(last := m + n)]
            && current == old(current)
        else
          && m == spare + BLOCK_HEADER && |blocks| == k + 1 && blocks[k] == Block(spare, m + n, spare + size, 0)
          && Aged(old(blocks), old(current), blocks[..k], current)
      ensures align && p % ALIGNMENT == 0 ==> m % ALIGNMENT == 0
      ensures Extends(old(blocks), blocks, spare, size)
      ensures areas == old(areas) + if n > max then [Region(p, p + n)] else []
      ensures old(Safe() && Answered(n, p, spare)) ==> Safe()
    {
      if n <= max {
        m := PallocSmall(n, align, spare);
      } else {
        m := PallocLarge(n, p, spare);
      }
    }

    /** Request i of a run. */
    method Serve(requests: seq<Request>, i: nat, ghost honest: bool) returns (m: int)
      requires Wf() && Ledger() && i < |requests| && requests[i].spare % POOL_ALIGNMENT == 0
      requires honest ==> Own(requests[i], size, max)
      requires honest ==>
        forall j {:trigger requests[j]} :: i < j < |requests| ==> Separate(requests[i], requests[j], size, max)
      modifies this`blocks, this`current, this`grants, this`large, this`areas
      ensures Wf() && Ledger() && Given(old(grants), m, requests[i].n) && Aligned(m, requests[i])
      ensures honest && old(Safe() && StillFresh(requests, i, blocks, areas, size, max)) ==>
        Safe() && StillFresh(requests, i + 1, blocks, areas, size, max)
    {
      var q := requests[i];
      ghost var was, had := blocks, areas;
      assert StillFresh(requests, i, blocks, areas, size, max) ==> UnusedFor(q, blocks, areas, size, max);
      m := Palloc(q.n, q.align, q.p, q.spare);
      if honest && StillFresh(requests, i, was, had, size, max) {
        FreshStep(requests, i, was, had, blocks, areas, size, max);
      }
    }

    /** Any run of requests: each piece is handed out in this run, and if the system's answers are memory not in use,
        the pieces are in the pool's memory and disjoint from each other and from all handed out before. */
    method Run(requests: seq<Request>) returns (pieces: seq<int>, ghost at: seq<int>)
      requires Wf() && Ledger() && forall i :: 0 <= i < |requests| ==> requests[i].spare % POOL_ALIGNMENT == 0
      modifies this`blocks, this`current, this`grants, this`large, this`areas
      ensures Wf() && Ledger() && |pieces| == |requests| && old(grants) <= grants
      ensures AlignedPieces(pieces, requests)
      ensures Located(pieces, requests, at, grants, |old(grants)|)
      ensures old(Safe() && AllFresh(requests, blocks, areas, size, max)) ==>
        && Safe()
        && (forall i :: 0 <= i < |pieces| ==> InMemory(pieces[i], pieces[i] + requests[i].n, blocks, areas))
        && (forall i, j :: 0 <= i < j < |pieces| ==>
          Disjoint(pieces[i], pieces[i] + requests[i].n, pieces[j], pieces[j] + requests[j].n))
        && (forall i, j :: 0 <= i < |old(grants)| && 0 <= j < |pieces| ==>
          Disjoint(old(grants)[i].lo, old(grants)[i].hi, pieces[j], pieces[j] + requests[j].n))
    {
      pieces, at := [], [];
      ghost var honest := AllFresh(requests, blocks, areas, size, max);
      for i := 0 to |requests|
        invariant Wf() && Ledger() && old(grants) <= grants && |pieces| == |at| == i
        invariant old(Safe()) && honest ==> Safe() && StillFresh(requests, i, blocks, areas, size, max)
        invariant AlignedPieces(pieces, requests)
        invariant Located(pieces, requests, at, grants, |old(grants)|)
      {
        ghost var before := grants;
        var m := Serve(requests, i, honest);
        LocatedStep(pieces, requests, at, before, grants, |old(grants)|, m);
        AlignedStep(pieces, requests, m);
        at := at + [|before|];
        pieces := pieces + [m];
      }
      if old(Safe()) && honest {
        PiecesDisjoint(pieces, requests, at, grants, blocks, areas, |old(grants)|);
      }
    }

    /** The loop of `night_destroy_pool` over the list of large areas. */
    method FreeLarge() returns (freed: seq<int>)
      ensures multiset(freed) == Held(large)
    {
      freed := [];
      var l := 0;
      while l < |large|
        invariant 0 <= l <= |large| && multiset(freed) + Held(large[l..]) == Held(large)
      {
        assert large[l..][1..] == large[l + 1..];
        if large[l].alloc.Some? {
          freed := freed + [large[l].alloc.value];
        }
        l := l + 1;
      }
    }

    /** The loop of `night_destroy_pool` over the chain. */
    method FreeBlocks() returns (freed: seq<int>)
      requires |blocks| > 0
      ensures multiset(freed) == Bases(blocks)
    {
      freed := [];
      var p := 0;
      while true
        invariant 0 <= p < |blocks| && multiset(freed) == Bases(blocks[..p])
        decreases |blocks| - p
      {
        freed := freed + [blocks[p].base];
        assert blocks[..p + 1][..p] == blocks[..p];
        if p + 1 == |blocks| {
          assert blocks[..p + 1] == blocks;
          break;
        }
        p := p + 1;
      }
    }

    /** `night_destroy_pool`: the addresses passed to free, in order. */
    method Destroy() returns (freed: seq<int>)
      requires Wf() && Ledger()
      ensures multiset(freed) == Starts(areas) + Bases(blocks)
      ensures Safe() ==> forall a :: multiset(freed)[a] <= 1
    {
      var first := FreeLarge();
      var second := FreeBlocks();
      freed := first + second;
      if Safe() {
        FreedOnce(blocks, areas, size);
      }
    }
  }

  datatype Request = Request(n: nat, align: bool, p: int, spare: int)

  /** The system's answers to q that are used or may be: a block's worth at spare, and the area of a large request. */
  ghost predicate UnusedFor(q: Request, blocks: seq<Block>, areas: seq<Region>, size: int, max: int) {
    Unused(blocks, areas, q.spare, size) && (q.n > max ==> Unused(blocks, areas, q.p, q.n))
  }

  /** The two answers to one request do not overlap. */
  predicate Own(q: Request, size: int, max: int) {
    q.n > max ==> Disjoint(q.p, q.p + q.n, q.spare, q.spare + size)
  }

  /** The memory at [lo, lo + n) is none of the answers to q. */
  predicate Clear(q: Request, size: int, max: int, lo: int, n: int) {
    && Disjoint(q.spare, q.spare + size, lo, lo + n)
    && (q.n > max ==> Disjoint(q.p, q.p + q.n, lo, lo + n))
  }

  /** The answers to two requests do not overlap. */
  predicate Separate(q: Request, r: Request, size: int, max: int) {
    Clear(q, size, max, r.spare, size) && (r.n > max ==> Clear(q, size, max, r.p, r.n))
  }

  /** The answers to the requests from i on are not in use. */
  ghost predicate StillFresh(
    requests: seq<Request>, i: nat, blocks: seq<Block>, areas: seq<Region>, size: int, max: int)
  {
    forall k {:trigger requests[k]} :: i <= k < |requests| ==> UnusedFor(requests[k], blocks, areas, size, max)
  }

  /** What the system answers to the requests is memory not in use, and not answered twice. */
  ghost predicate AllFresh(requests: seq<Request>, blocks: seq<Block>, areas: seq<Region>, size: int, max: int) {
    && StillFresh(requests, 0, blocks, areas, size, max)
    && (forall i {:trigger requests[i]} :: 0 <= i < |requests| ==> Own(requests[i], size, max))
    && (forall i, j {:trigger requests[i], requests[j]} :: 0 <= i < j < |requests| ==>
      Separate(requests[i], requests[j], size, max))
  }

  /** Memory that is none of the answers to q stays unused when q is served. */
  lemma UnusedKept(q: Request, blocks: seq<Block>, areas: seq<Region>, blocks': seq<Block>, areas': seq<Region>,
      size: int, max: int, lo: int, n: int)
    requires Extends(blocks, blocks', q.spare, size)
    requires areas' == areas + if q.n > max then [Region(q.p, q.p + q.n)] else []
    requires Unused(blocks, areas, lo, n) && Clear(q, size, max, lo, n)
    ensures Unused(blocks', areas', lo, n)
  {
    forall k | 0 <= k < |blocks'|
      ensures Disjoint(blocks'[k].base, blocks'[k].end, lo, lo + n)
    {
      assert k < |blocks| ==> Disjoint(blocks[k].base, blocks[k].end, lo, lo + n);
    }
  }

  /** The answers to the later requests stay unused when request i is served. */
  lemma FreshStep(requests: seq<Request>, i: nat, blocks: seq<Block>, areas: seq<Region>, blocks': seq<Block>,
      areas': seq<Region>, size: int, max: int)
    requires i < |requests| && StillFresh(requests, i, blocks, areas, size, max)
    requires forall j {:trigger requests[j]} :: i < j < |requests| ==> Separate(requests[i], requests[j], size, max)
    requires Extends(blocks, blocks', requests[i].spare, size)
    requires areas' == areas + if requests[i].n > max then [Region(requests[i].p, requests[i].p + requests[i].n)]
      else []
    ensures StillFresh(requests, i + 1, blocks', areas', size, max)
  {
    var q := requests[i];
    forall k | i + 1 <= k < |requests|
      ensures UnusedFor(requests[k], blocks', areas', size, max)
    {
      var r := requests[k];
      assert UnusedFor(r, blocks, areas, size, max) && Separate(q, r, size, max);
      UnusedKept(q, blocks, areas, blocks', areas', size, max, r.spare, size);
      if r.n > max {
        UnusedKept(q, blocks, areas, blocks', areas', size, max, r.p, r.n);
      }
    }
  }

  /** [lo, hi) lies in one block between header and end, or is a large area. */
  ghost predicate InMemory(lo: int, hi: int, blocks: seq<Block>, areas: seq<Region>) {
    || (exists k :: 0 <= k < |blocks| && blocks[k].base + Header(k) <= lo && hi <= blocks[k].end)
    || (exists j :: 0 <= j < |areas| && areas[j] == Region(lo, hi))
  }

  /** Piece i is grant at[i], and the indices increase from `from`. */
  ghost predicate Located(pieces: seq<int>, requests: seq<Request>, at: seq<int>, grants: seq<Grant>, from: nat) {
    && |pieces| == |at| <= |requests|
    && (forall i {:trigger at[i]} :: 0 <= i < |at| ==>
      from <= at[i] < |grants| && grants[at[i]].lo == pieces[i] && grants[at[i]].hi == pieces[i] + requests[i].n)
    && (forall i, j {:trigger at[i], at[j]} :: 0 <= i < j < |at| ==> at[i] < at[j])
  }

  /** A request for alignment is met, if the system's areas are aligned. */
  predicate Aligned(piece: int, q: Request) {
    q.align && q.p % ALIGNMENT == 0 ==> piece % ALIGNMENT == 0
  }

  ghost predicate AlignedPieces(pieces: seq<int>, requests: seq<Request>) {
    |pieces| <= |requests| && forall i {:trigger pieces[i]} :: 0 <= i < |pieces| ==> Aligned(pieces[i], requests[i])
  }

  lemma AlignedStep(pieces: seq<int>, requests: seq<Request>, m: int)
    requires AlignedPieces(pieces, requests) && |pieces| < |requests| && Aligned(m, requests[|pieces|])
    ensures AlignedPieces(pieces + [m], requests)
  {
  }

  lemma LocatedStep(pieces: seq<int>, requests: seq<Request>, at: seq<int>, before: seq<Grant>, grants: seq<Grant>,
      from: nat, m: int)
    requires Located(pieces, requests, at, before, from) && from <= |before| && before < grants && |pieces| < |requests|
    requires grants[|before|].lo == m && grants[|before|].hi == m + requests[|pieces|].n
    ensures Located(pieces + [m], requests, at + [|before|], grants, from)
  {
    assert forall i {:trigger at[i]} :: 0 <= i < |at| ==> at[i] < |before| && grants[at[i]] == before[at[i]];
  }

  lemma PiecesDisjoint(pieces: seq<int>, requests: seq<Request>, at: seq<int>, grants: seq<Grant>, blocks: seq<Block>,
      areas: seq<Region>, from: nat)
    requires Located(pieces, requests, at, grants, from) && from <= |grants| && Granted(grants, blocks, areas)
    requires Sound(blocks, areas)
    ensures forall i :: 0 <= i < |pieces| ==> InMemory(pieces[i], pieces[i] + requests[i].n, blocks, areas)
    ensures forall i, j :: 0 <= i < j < |pieces| ==>
      Disjoint(pieces[i], pieces[i] + requests[i].n, pieces[j], pieces[j] + requests[j].n)
    ensures forall i, j :: 0 <= i < from && 0 <= j < |pieces| ==>
      Disjoint(grants[i].lo, grants[i].hi, pieces[j], pieces[j] + requests[j].n)
  {
    forall i | 0 <= i < |pieces|
      ensures InMemory(pieces[i], pieces[i] + requests[i].n, blocks, areas)
    {
      assert Housed(grants[at[i]], blocks, areas);
    }
    forall i, j | 0 <= i < j < |pieces|
      ensures Disjoint(pieces[i], pieces[i] + requests[i].n, pieces[j], pieces[j] + requests[j].n)
    {
      assert at[i] < at[j];
      assert Disjoint(grants[at[i]].lo, grants[at[i]].hi, grants[at[j]].lo, grants[at[j]].hi);
    }
    forall i, j | 0 <= i < from && 0 <= j < |pieces|
      ensures Disjoint(grants[i].lo, grants[i].hi, pieces[j], pieces[j] + requests[j].n)
    {
      assert Disjoint(grants[i].lo, grants[i].hi, grants[at[j]].lo, grants[at[j]].hi);
    }
  }

  function Bases(blocks: seq<Block>): multiset<int> {
    if blocks == [] then multiset{} else Bases(blocks[..|blocks| - 1]) + multiset{blocks[|blocks| - 1].base}
  }

  lemma {:induction false} BasesOnce(blocks: seq<Block>, areas: seq<Region>, size: int, a: int)
    requires Chain(blocks, size) && Sound(blocks, areas) && size > 0
    ensures Bases(blocks)[a] <= 1
    ensures a in Bases(blocks) ==> exists k :: 0 <= k < |blocks| && blocks[k].base == a
  {
    if blocks != [] {
      var k := |blocks| - 1;
      var rest := blocks[..k];
      assert forall l :: 0 <= l < k ==> rest[l] == blocks[l];
      BasesOnce(rest, areas, size, a);
      assert blocks[k].end == blocks[k].base + size;
      if a in Bases(rest) {
        var l :| 0 <= l < |rest| && rest[l].base == a;
        assert blocks[l].base == a && Disjoint(blocks[l].base, blocks[l].end, blocks[k].base, blocks[k].end);
      }
    }
  }

  lemma {:induction false} StartsOnce(blocks: seq<Block>, areas: seq<Region>, a: int)
    requires Sound(blocks, areas)
    ensures Starts(areas)[a] <= 1
    ensures a in Starts(areas) ==> exists j :: 0 <= j < |areas| && areas[j].lo == a
  {
    if areas != [] {
      var j := |areas| - 1;
      var rest := areas[..j];
      assert forall i :: 0 <= i < j ==> rest[i] == areas[i];
      StartsOnce(blocks, rest, a);
      assert areas[j].lo < areas[j].hi;
      if a in Starts(rest) {
        var i :| 0 <= i < |rest| && rest[i].lo == a;
        assert areas[i].lo == a && Disjoint(areas[i].lo, areas[i].hi, areas[j].lo, areas[j].hi);
      }
    }
  }

  lemma FreedOnce(blocks: seq<Block>, areas: seq<Region>, size: int)
    requires Chain(blocks, size) && Sound(blocks, areas) && size > 0
    ensures forall a :: (Starts(areas) + Bases(blocks))[a] <= 1
  {
    forall a
      ensures (Starts(areas) + Bases(blocks))[a] <= 1
    {
      BasesOnce(blocks, areas, size, a);
      StartsOnce(blocks, areas, a);
    }
  }

  /** One byte from a pool of one block that has room. */
  method TakeByte(pool: MemoryPool, base: int, last: int, end: int, spare: int)
    requires pool.Wf() && pool.Ledger() && pool.max >= 1 && pool.current == 0 && spare % POOL_ALIGNMENT == 0
    requires pool.blocks == [Block(base, last, end, 0)] && last < end
    modifies pool
    ensures pool.Wf() && pool.Ledger() && pool.current == 0 && pool.blocks == [Block(base, last + 1, end, 0)]
  {
    assert Fits(pool.blocks[0], false, 1);
    var _ := pool.Palloc(1, false, spare, spare);
  }

  /** Unless the pool's size is a multiple of the alignment, byte requests that fill the first block make the next
      aligned request return a piece past its end. */
  method Overrun(base: int, size: nat, pageSize: nat, spare: int) returns (pool: MemoryPool, m: int)
    requires size > POOL_HEADER && pageSize > 0 && base % POOL_ALIGNMENT == 0 && spare % POOL_ALIGNMENT == 0
    requires size % ALIGNMENT != 0
    ensures pool.blocks != [] && pool.blocks[0].end == base + size && base + size < m < base + size + ALIGNMENT
    ensures pool.blocks[0].last == m + 1
  {
    pool := new MemoryPool(base, size, pageSize);
    for i := 0 to size - POOL_HEADER
      invariant pool.Wf() && pool.Ledger() && pool.max >= 1 && pool.current == 0 && fresh(pool)
      invariant pool.blocks == [Block(base, base + POOL_HEADER + i, base + size, 0)]
    {
      TakeByte(pool, base, base + POOL_HEADER + i, base + size, spare);
    }
    EndNotAligned(base, size);
    m := pool.Palloc(1, true, spare, spare);
  }

  lemma NegativeSum(a: int, b: int)
    requires a % ALIGNMENT == 0 && (a + b) % ALIGNMENT == 0
    ensures b % ALIGNMENT == 0
  {
    assert a == 8 * (a / 8) && a + b == 8 * ((a + b) / 8);
    assert b == 8 * ((a + b) / 8 - a / 8);
  }

  lemma EndNotAligned(base: int, size: nat)
    requires base % POOL_ALIGNMENT == 0 && size % ALIGNMENT != 0
    ensures base + size < Align8(base + size)
  {
    Aligned16(base);
    if (base + size) % ALIGNMENT == 0 {
      NegativeSum(base, size);
    }
  }
}
