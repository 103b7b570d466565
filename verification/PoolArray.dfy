/** The growable array of `night_array.c`, whose elements lie in memory of a pool. */
module PoolArray {
  import opened Basics
  import opened Pool

  class Array {
    const pool: MemoryPool
    const size: nat
    var elts: int
    var nelts: nat
    var nalloc: nat
    var memory: int -> int        // the bytes of the process

    ghost var at: nat             // which of the pool's grants holds the elements

    /** The array's memory is one piece that the pool handed out. */
    ghost predicate Owned()
      reads this, pool
    {
      && pool.Wf() && pool.Ledger()
      && at < |pool.grants| && pool.grants[at].lo == elts && pool.grants[at].hi == elts + size * nalloc
    }

    ghost predicate Valid()
      reads this, pool
    {
      Owned() && nelts <= nalloc
    }

    function Contents(): (s: seq<seq<int>>)
      reads this
    {
      Elements(memory, elts, size, nelts)
    }

    /** The test for growth in place. */
    predicate InPlace()
      requires |pool.blocks| > 0
      reads this, pool
    {
      elts + size * nalloc == pool.blocks[0].last && pool.blocks[0].last + size <= pool.blocks[0].end
    }

    /** `night_array_init`. */
    constructor (pool: MemoryPool, n: nat, size: nat, memory: int -> int, p: int, spare: int)
      requires pool.Wf() && pool.Ledger() && spare % POOL_ALIGNMENT == 0
      modifies pool
      ensures Valid() && Contents() == [] && this.pool == pool && this.size == size && nalloc == n
      ensures old(pool.grants) <= pool.grants
      ensures size * n <= pool.max ==>
        && pool.areas == old(pool.areas)
        && var k := FirstFit(old(pool.blocks), old(pool.current), true, size * n);
        k < |old(pool.blocks)| ==>
          elts == Offer(old(pool.blocks)[k], true)
            && pool.blocks == old(pool.blocks)[k := old(pool.blocks)[k].(last := elts + size * n)]
            && pool.current == old(pool.current)
      ensures old(pool.Safe() && pool.SpareMemory(p, size * n, spare)) ==> pool.Safe()
    {
      this.pool, this.size, this.memory := pool, size, memory;
      nelts, nalloc := 0, n;
      at := |pool.grants|;
      var m := pool.Palloc(size * n, true, p, spare);
      elts := m;
    }

    /** Nothing outside the array's own memory was written since `was`. */
    ghost predicate WroteOnlyOwn(was: int -> int)
      reads this
    {
      SameOutside(memory, was, elts, elts + size * nalloc)
    }

    /** The bytes of the elements are those that lay at `from` in `was`. */
    ghost predicate Kept(was: int -> int, from: int, n: nat)
      reads this
    {
      Bytes(memory, elts, n) == Bytes(was, from, n)
    }

    /** The pool's other pieces are those of `before`. */
    ghost predicate OthersKept(before: seq<Grant>, mine: nat)
      reads this, pool
    {
      |before| <= |pool.grants| && forall i :: 0 <= i < |before| && i != mine ==> pool.grants[i] == before[i]
    }

    /** Someone else takes a piece from the same pool: the array keeps its elements, and the piece is none of its
        memory. */
    method Neighbour(n: nat, align: bool, p: int, spare: int) returns (m: int)
      requires Owned() && pool.Safe() && pool.SpareMemory(p, n, spare) && spare % POOL_ALIGNMENT == 0
      modifies pool
      ensures n <= pool.max ==>
        && pool.areas == old(pool.areas)
        && var k := FirstFit(old(pool.blocks), old(pool.current), align, n);
        k < |old(pool.blocks)| ==>
          m == Offer(old(pool.blocks)[k], align)
            && pool.blocks == old(pool.blocks)[k := old(pool.blocks)[k].(last := m + n)]
            && pool.current == old(pool.current)
      ensures Owned() && pool.Safe() && pool.Given(old(pool.grants), m, n)
      ensures Disjoint(elts, elts + size * nalloc, m, m + n)
    {
      ghost var before := pool.grants;
      m := pool.Palloc(n, align, p, spare);
      assert pool.grants[at] == before[at];
      assert Disjoint(pool.grants[at].lo, pool.grants[at].hi, pool.grants[|before|].lo, pool.grants[|before|].hi);
    }

    /** The reallocation of a full array: twice the memory, with the elements copied. */
    method Reallocate(p: int, spare: int)
      requires Owned() && pool.Safe() && pool.SpareMemory(p, 2 * (size * nalloc), spare) && spare % POOL_ALIGNMENT == 0
      modifies this, pool
      ensures Owned() && pool.Safe() && nelts == old(nelts) && nalloc == 2 * old(nalloc)
      ensures Kept(old(memory), old(elts), size * old(nalloc)) && WroteOnlyOwn(old(memory))
      ensures OthersKept(old(pool.grants), old(at))
    {
      ghost var before := pool.grants;
      var bytes := size * nalloc;
      var new_ := Neighbour(2 * bytes, true, p, spare);
      StoredBytes(memory, new_, Bytes(memory, elts, bytes));
      StoredOutside(memory, memory, new_, Bytes(memory, elts, bytes), new_, new_ + bytes);
      memory := Stored(memory, new_, Bytes(memory, elts, bytes));
      elts := new_;
      nalloc := nalloc * 2;
      at := |before|;
      Doubled(size, old(nalloc));
    }

    /** The full array gets more room: in place, or by reallocation. */
    method Grow(p: int, spare: int)
      requires Owned() && pool.Safe() && pool.SpareMemory(p, 2 * (size * nalloc), spare) && spare % POOL_ALIGNMENT == 0
      modifies this, pool
      ensures Owned() && pool.Safe() && nelts == old(nelts)
      ensures nalloc ==
        if old(elts + size * nalloc == pool.blocks[0].last && pool.blocks[0].last + size <= pool.blocks[0].end)
        then old(nalloc) + 1 else 2 * old(nalloc)
      ensures old(InPlace()) ==> elts == old(elts) && pool.blocks[0].last == old(pool.blocks[0].last) + size
      ensures Kept(old(memory), old(elts), size * old(nalloc)) && WroteOnlyOwn(old(memory))
      ensures OthersKept(old(pool.grants), old(at))
    {
      if elts + size * nalloc == pool.blocks[0].last && pool.blocks[0].last + size <= pool.blocks[0].end {
        assert size * (nalloc + 1) == size * nalloc + size;
        pool.Extend(at, size);
        nalloc := nalloc + 1;
      } else {
        Reallocate(p, spare);
      }
    }

    /** `night_array_push`: the new slot lies in the array's own memory exactly when the array had room, grew in
        place, or had something to double. */
    method Push(p: int, spare: int) returns (slot: int)
      requires Valid() && pool.Safe() && pool.SpareMemory(p, 2 * (size * nalloc), spare) && spare % POOL_ALIGNMENT == 0
      modifies this, pool
      ensures Owned() && pool.Safe() && nelts == old(nelts) + 1 && slot == elts + size * old(nelts)
      ensures Valid() <==> old(nelts < nalloc || InPlace() || nalloc > 0)
      ensures Valid() ==> slot + size <= elts + size * nalloc
      ensures old(nalloc) <= nalloc
      ensures Kept(old(memory), old(elts), size * old(nelts)) && WroteOnlyOwn(old(memory))
      ensures OthersKept(old(pool.grants), old(at))
    {
      if nelts == nalloc {
        Grow(p, spare);
      }
      slot := elts + size * nelts;
      nelts := nelts + 1;
      if nelts <= nalloc {
        SlotInside(size, nelts, nalloc);
      }
    }

    /** Pushing and filling the slot appends to the sequence of elements. */
    method PushElement(element: seq<int>, p: int, spare: int)
      requires Valid() && pool.Safe() && pool.SpareMemory(p, 2 * (size * nalloc), spare) && spare % POOL_ALIGNMENT == 0
      requires |element| == size && (nelts < nalloc || InPlace() || nalloc > 0)
      modifies this, pool
      ensures Valid() && pool.Safe() && Contents() == old(Contents()) + [element] && old(nalloc) <= nalloc
      ensures WroteOnlyOwn(old(memory)) && OthersKept(old(pool.grants), old(at))
    {
      var slot := Push(p, spare);
      AppendElement(memory, old(memory), elts, old(elts), size, old(nelts), element);
      StoredOutside(memory, old(memory), slot, element, elts, elts + size * nalloc);
      memory := Stored(memory, slot, element);
    }
  }

  /** A new pool and an array made for no elements in it. */
  method EmptyArray(base: int, spare: int, memory: int -> int) returns (a: Array)
    requires base % POOL_ALIGNMENT == 0 && spare % POOL_ALIGNMENT == 0 && spare >= base + 2048
    ensures fresh(a) && fresh(a.pool) && a.Owned() && a.pool.Safe() && a.nelts == a.nalloc == 0 && a.size == 8
    ensures a.pool.max >= 1 && a.pool.current == 0
    ensures a.elts == base + POOL_HEADER && a.pool.areas == []
    ensures a.pool.blocks == [Block(base, base + POOL_HEADER, base + 1024, 0)] && a.pool.size == 1024
  {
    var pool := NewPool(base, spare);
    a := new Array(pool, 0, 8, memory, spare - 8, spare);
  }

  method NewPool(base: int, spare: int) returns (pool: MemoryPool)
    requires base % POOL_ALIGNMENT == 0 && spare >= base + 2048
    ensures fresh(pool) && pool.Safe() && pool.Ledger() && pool.max >= 1 && pool.current == 0 && pool.size == 1024
    ensures pool.areas == []
    ensures pool.blocks == [Block(base, base + POOL_HEADER, base + 1024, 0)]
    ensures FirstFit(pool.blocks, 0, true, 0) == 0 && Offer(pool.blocks[0], true) == base + POOL_HEADER
    ensures pool.SpareMemory(spare - 8, 0, spare)
  {
    pool := new MemoryPool(base, 1024, 4096);
    PoolHeaderAligned(base);
  }

  lemma PoolHeaderAligned(base: int)
    requires base % POOL_ALIGNMENT == 0
    ensures Align8(base + POOL_HEADER) == base + POOL_HEADER
  {
    Aligned16(base);
    AlignedSum(base, POOL_HEADER);
  }

  /** One more request follows: the first push then finds nothing to double, and returns a slot that is not the
      array's own. */
  method LostSlot(base: int, spare: int, memory: int -> int) returns (a: Array, slot: int)
    requires base % POOL_ALIGNMENT == 0 && spare % POOL_ALIGNMENT == 0 && spare >= base + 2048
    ensures fresh(a) && a.pool.Safe() && a.Owned()
    ensures a.nelts == 1 && a.nalloc == 0 && slot + a.size > a.elts + a.size * a.nalloc
  {
    a := EmptyArray(base, spare, memory);
    assert a.pool.SpareMemory(spare - 8, 1, spare);
    var _ := a.Neighbour(1, false, spare - 8, spare);
    assert a.pool.blocks == [Block(base, base + POOL_HEADER + 1, base + 1024, 0)];
    assert a.pool.SpareMemory(spare - 8, 0, spare);
    slot := a.Push(spare - 8, spare);
  }

  // ---------- memory ----------

  function Bytes(memory: int -> int, lo: int, n: nat): (s: seq<int>)
    ensures |s| == n
  {
    seq(n, k requires 0 <= k < n => memory(lo + k))
  }

  ghost predicate SameOutside(memory: int -> int, was: int -> int, lo: int, hi: int) {
    forall a {:trigger memory(a)} :: a < lo || hi <= a ==> memory(a) == was(a)
  }

  /** Bytes are written from `slot` on: memcpy, and the caller that fills the slot which push returned. */
  function Stored(memory: int -> int, slot: int, element: seq<int>): int -> int {
    (a: int) => if slot <= a < slot + |element| then element[a - slot] else memory(a)
  }

  lemma StoredBytes(memory: int -> int, slot: int, element: seq<int>)
    ensures Bytes(Stored(memory, slot, element), slot, |element|) == element
  {
  }

  lemma StoredOutside(memory: int -> int, was: int -> int, slot: int, element: seq<int>, lo: int, hi: int)
    requires SameOutside(memory, was, lo, hi) && lo <= slot && slot + |element| <= hi
    ensures SameOutside(Stored(memory, slot, element), was, lo, hi)
  {
  }

  lemma StoredBefore(memory: int -> int, slot: int, element: seq<int>, lo: int, n: nat)
    requires lo + n <= slot
    ensures Bytes(Stored(memory, slot, element), lo, n) == Bytes(memory, lo, n)
  {
  }

  lemma Slice(memory: int -> int, lo: int, n: nat, k: nat, m: nat)
    requires k + m <= n
    ensures Bytes(memory, lo + k, m) == Bytes(memory, lo, n)[k..k + m]
  {
  }

  /** The elements that lie at lo. */
  function Elements(memory: int -> int, lo: int, size: nat, n: nat): (s: seq<seq<int>>) {
    seq(n, i requires 0 <= i < n => Bytes(memory, lo + size * i, size))
  }

  lemma ElementsKept(memory: int -> int, was: int -> int, lo: int, from: int, size: nat, n: nat)
    requires Bytes(memory, lo, size * n) == Bytes(was, from, size * n)
    ensures Elements(memory, lo, size, n) == Elements(was, from, size, n)
  {
    forall i | 0 <= i < n
      ensures Bytes(memory, lo + size * i, size) == Bytes(was, from + size * i, size)
    {
      SlotInside(size, i + 1, n);
      Slice(memory, lo, size * n, size * i, size);
      Slice(was, from, size * n, size * i, size);
    }
  }

  /** Moving the elements and filling the next slot appends. */
  lemma AppendElement(memory: int -> int, was: int -> int, lo: int, from: int, size: nat, n: nat, element: seq<int>)
    requires Bytes(memory, lo, size * n) == Bytes(was, from, size * n) && |element| == size
    ensures Elements(Stored(memory, lo + size * n, element), lo, size, n + 1) == Elements(was, from, size, n)
      + [element]
  {
    var memory' := Stored(memory, lo + size * n, element);
    StoredBefore(memory, lo + size * n, element, lo, size * n);
    ElementsKept(memory', was, lo, from, size, n);
    StoredBytes(memory, lo + size * n, element);
    assert Elements(memory', lo, size, n + 1)[..n] == Elements(memory', lo, size, n);
  }

  lemma Doubled(size: nat, n: nat)
    ensures size * (n * 2) == 2 * (size * n)
  {
  }

  lemma SlotInside(size: nat, n: nat, m: nat)
    requires n <= m
    ensures size * n <= size * m
    ensures n > 0 ==> size * (n - 1) + size == size * n
  {
  }
}
