/** Building and searching the table: `night_hash_init` and `night_hash_find`. */
module HashBuild {
  import opened Basics
  import opened HashTable

  datatype Table = Table(size: nat, buckets: seq<Option<nat>>, mem: seq<Cell>)

  /** A value stored as uint16_t: the remainder, by repeated subtraction. */
  function Short(x: nat): (r: nat)
    ensures r <= x && r < SHORT && (r == x <==> x < SHORT)
  {
    if x < SHORT then x else Short(x - SHORT)
  }

  lemma {:induction false} ShortIsRemainder(x: nat)
    ensures Short(x) == x % SHORT
  {
    if x >= SHORT {
      ShortIsRemainder(x - SHORT);
    }
  }

  /** The bytes that the first n keys take in bucket i. */
  function Load(keys: seq<Key>, n: nat, size: nat, i: nat): (r: nat)
    requires n <= |keys| && size > 0
  {
    Size(Mine(keys, n, size, i))
  }

  lemma LoadStep(keys: seq<Key>, n: nat, size: nat, i: nat)
    requires n < |keys| && size > 0
    ensures Load(keys, n + 1, size, i) == Load(keys, n, size, i) +
      if keys[n].name.Some? && Bucket(keys[n].hash, size) == i then EltSize(|keys[n].name.value|) else 0
  {
    var rest := Mine(keys, n, size, i);
    if keys[n].name.Some? && Bucket(keys[n].hash, size) == i {
      assert (rest + [ItemOf(keys[n])])[..|rest|] == rest;
    } else {
      assert rest + [] == rest;
    }
  }

  lemma {:induction false} LoadGrows(keys: seq<Key>, n: nat, m: nat, size: nat, i: nat)
    requires n <= m <= |keys| && size > 0
    ensures Load(keys, n, size, i) <= Load(keys, m, size, i)
  {
    if n < m {
      LoadGrows(keys, n, m - 1, size, i);
      LoadStep(keys, m - 1, size, i);
    }
  }

  /** The remainder that the source computes with. */
  method BucketOf(hash: nat, size: nat) returns (i: nat)
    requires size > 0
    ensures i == Bucket(hash, size)
  {
    BucketIsRemainder(hash, size);
    i := hash % size;
  }

  lemma EmptyLoad(items: seq<Item>)
    ensures Size(items) == 0 <==> items == []
  {
  }

  /** With this many buckets, none holds more than the limit. */
  ghost predicate Fits(keys: seq<Key>, size: nat, limit: nat)
    requires size > 0
  {
    forall i {:trigger Load(keys, |keys|, size, i)} :: 0 <= i < size ==> Load(keys, |keys|, size, i) <= limit
  }

  ghost predicate FitsFrom(keys: seq<Key>, first: nat, last: nat, limit: nat)
    requires first > 0
  {
    exists s {:trigger Fits(keys, s, limit)} :: first <= s <= last && Fits(keys, s, limit)
  }

  /** The test array after n keys, each entry `extra` above the bucket's load. */
  ghost predicate Counted(test: seq<nat>, keys: seq<Key>, n: nat, size: nat, extra: nat)
    requires n <= |keys| && size > 0
  {
    |test| == size && forall i {:trigger CountedAt(test, keys, n, size, extra, i)} :: 0 <= i < size ==>
      CountedAt(test, keys, n, size, extra, i)
  }

  predicate CountedAt(test: seq<nat>, keys: seq<Key>, n: nat, size: nat, extra: nat, i: nat)
    requires n <= |keys| && size > 0 && i < |test|
  {
    test[i] == extra + Load(keys, n, size, i)
  }

  lemma NothingCounted(test: seq<nat>, keys: seq<Key>, size: nat, extra: nat)
    requires size > 0 && |test| == size && forall i :: 0 <= i < size ==> test[i] == extra
    ensures Counted(test, keys, 0, size, extra)
  {
  }

  lemma FitsAt(keys: seq<Key>, size: nat, limit: nat, i: nat)
    requires size > 0 && Fits(keys, size, limit) && i < size
    ensures Load(keys, |keys|, size, i) <= limit
  {
  }

  lemma CountedStep(test: seq<nat>, keys: seq<Key>, n: nat, size: nat, extra: nat)
    requires n < |keys| && size > 0 && Counted(test, keys, n, size, extra)
    ensures keys[n].name.None? ==> Counted(test, keys, n + 1, size, extra)
    ensures keys[n].name.Some? ==>
      var k := Bucket(keys[n].hash, size);
      Counted(test[k := test[k] + EltSize(|keys[n].name.value|)], keys, n + 1, size, extra)
  {
    var m := n + 1;
    var test' := if keys[n].name.None? then test else
      var k := Bucket(keys[n].hash, size);
      test[k := test[k] + EltSize(|keys[n].name.value|)];
    forall i | 0 <= i < size
      ensures CountedAt(test', keys, m, size, extra, i)
    {
      assert CountedAt(test, keys, n, size, extra, i);
      LoadStep(keys, n, size, i);
    }
  }

  /** The counter of bucket i after n keys, as the code keeps it: 16 bits of what it should be. */
  function Counter(keys: seq<Key>, n: nat, size: nat, extra: nat, i: nat): (r: nat)
    requires n <= |keys| && size > 0
  {
    Short(extra + Load(keys, n, size, i))
  }

  ghost predicate Tallied(test: seq<nat>, keys: seq<Key>, n: nat, size: nat, extra: nat)
    requires n <= |keys| && size > 0
  {
    |test| == size && forall i {:trigger TalliedAt(test, keys, n, size, extra, i)} :: 0 <= i < size ==>
      TalliedAt(test, keys, n, size, extra, i)
  }

  predicate TalliedAt(test: seq<nat>, keys: seq<Key>, n: nat, size: nat, extra: nat, i: nat)
    requires n <= |keys| && size > 0 && i < |test|
  {
    test[i] == Counter(keys, n, size, extra, i)
  }

  /** Key n passes the test of the counting loop: with it, the counter of its bucket is within the limit. */
  predicate PassesAt(keys: seq<Key>, n: nat, size: nat, extra: nat, limit: nat)
    requires n < |keys| && size > 0
  {
    keys[n].name.Some? ==>
      Counter(keys, n, size, extra, Bucket(keys[n].hash, size)) + EltSize(|keys[n].name.value|) <= limit
  }

  ghost predicate Passes(keys: seq<Key>, size: nat, extra: nat, limit: nat)
    requires size > 0
  {
    forall n {:trigger PassesAt(keys, n, size, extra, limit)} :: 0 <= n < |keys| ==>
      PassesAt(keys, n, size, extra, limit)
  }

  /** Wrapping early or late makes no difference to a sum. */
  lemma {:induction false} ShortSum(x: nat, e: nat, y: nat)
    requires y == x + e
    ensures Short(Short(x) + e) == Short(y)
  {
    if x >= SHORT {
      ShortSum(x - SHORT, e, y - SHORT);
    }
  }

  lemma NothingTallied(test: seq<nat>, keys: seq<Key>, size: nat, extra: nat)
    requires size > 0 && extra < SHORT && |test| == size && forall i :: 0 <= i < size ==> test[i] == extra
    ensures Tallied(test, keys, 0, size, extra)
  {
  }

  lemma CounterStep(keys: seq<Key>, n: nat, size: nat, extra: nat, i: nat)
    requires n < |keys| && size > 0
    ensures Counter(keys, n + 1, size, extra, i) ==
      if keys[n].name.Some? && Bucket(keys[n].hash, size) == i then
        Short(Counter(keys, n, size, extra, i) + EltSize(|keys[n].name.value|))
      else
        Counter(keys, n, size, extra, i)
  {
    LoadStep(keys, n, size, i);
    var x, y := Load(keys, n, size, i), Load(keys, n + 1, size, i);
    if keys[n].name.Some? && Bucket(keys[n].hash, size) == i {
      ShortSum(extra + x, EltSize(|keys[n].name.value|), extra + y);
    }
  }

  /** The counters after key n, whether or not one of them wrapped. */
  lemma TalliedStep(test: seq<nat>, keys: seq<Key>, n: nat, size: nat, extra: nat, test': seq<nat>)
    requires n < |keys| && size > 0 && Tallied(test, keys, n, size, extra)
    requires test' == if keys[n].name.None? then test else
      var k := Bucket(keys[n].hash, size);
      test[k := Short(test[k] + EltSize(|keys[n].name.value|))]
    ensures Tallied(test', keys, n + 1, size, extra)
  {
    var m := n + 1;
    forall i | 0 <= i < size
      ensures TalliedAt(test', keys, m, size, extra, i)
    {
      assert TalliedAt(test, keys, n, size, extra, i);
      CounterStep(keys, n, size, extra, i);
    }
  }

  /** The body of the counting loop. */
  method CountKey(test: seq<nat>, keys: seq<Key>, n: nat, size: nat, extra: nat, limit: nat)
      returns (r: Option<seq<nat>>)
    requires n < |keys| && 0 < size && Tallied(test, keys, n, size, extra)
    ensures r.Some? <==> PassesAt(keys, n, size, extra, limit)
    ensures r.Some? ==> Tallied(r.value, keys, n + 1, size, extra)
  {
    if keys[n].name.None? {
      TalliedStep(test, keys, n, size, extra, test);
      return Some(test);
    }
    var key := BucketOf(keys[n].hash, size);
    assert TalliedAt(test, keys, n, size, extra, key);
    var len := test[key] + EltSize(|keys[n].name.value|);
    if len > limit {
      return None;
    }
    var test' := test[key := Short(len)];
    TalliedStep(test, keys, n, size, extra, test');
    return Some(test');
  }

  /** Counts the load of every bucket in 16 bits, and gives up when a counter passes the limit. Used for a candidate
      size, and for the final one. */
  method Count(keys: seq<Key>, size: nat, extra: nat, limit: nat) returns (r: Option<seq<nat>>)
    requires 0 < size && extra < SHORT
    ensures r.Some? <==> Passes(keys, size, extra, limit)
    ensures r.Some? ==> Tallied(r.value, keys, |keys|, size, extra)
  {
    var test: seq<nat> := seq(size, _ => extra);
    NothingTallied(test, keys, size, extra);
    for n := 0 to |keys|
      invariant Tallied(test, keys, n, size, extra)
      invariant forall k {:trigger PassesAt(keys, k, size, extra, limit)} :: 0 <= k < n ==>
        PassesAt(keys, k, size, extra, limit)
    {
      var next := CountKey(test, keys, n, size, extra, limit);
      if next.None? {
        return None;
      }
      test := next.value;
    }
    return Some(test);
  }

  /** Buckets within the limit pass, whatever wraps: a counter is never above the load that it counts. */
  lemma FitsPasses(keys: seq<Key>, size: nat, extra: nat, limit: nat)
    requires size > 0 && extra <= limit && Fits(keys, size, limit - extra)
    ensures Passes(keys, size, extra, limit)
  {
    forall n | 0 <= n < |keys|
      ensures PassesAt(keys, n, size, extra, limit)
    {
      if keys[n].name.Some? {
        var k := Bucket(keys[n].hash, size);
        LoadStep(keys, n, size, k);
        LoadGrows(keys, n + 1, |keys|, size, k);
        FitsAt(keys, size, limit - extra, k);
      }
    }
  }

  /** Below 64K no counter wraps, and passing keeps each bucket within the limit. */
  lemma {:induction false} PassesLoad(keys: seq<Key>, n: nat, size: nat, extra: nat, limit: nat, i: nat)
    requires size > 0 && n <= |keys| && i < size && extra <= limit < SHORT && Passes(keys, size, extra, limit)
    ensures extra + Load(keys, n, size, i) <= limit
  {
    if n > 0 {
      PassesLoad(keys, n - 1, size, extra, limit, i);
      LoadStep(keys, n - 1, size, i);
      assert PassesAt(keys, n - 1, size, extra, limit);
    }
  }

  /** The test of the code is the test of the loads exactly below 64K: together with loads that 16 bits hold it bounds
      every bucket, and with a smaller limit it does so alone. */
  lemma PassesIsFits(keys: seq<Key>, size: nat, extra: nat, limit: nat)
    requires size > 0 && extra <= limit && extra < SHORT
    ensures Passes(keys, size, extra, limit) && Fits(keys, size, SHORT - 1 - extra) <==>
      Fits(keys, size, (if limit < SHORT then limit else SHORT - 1) - extra)
    ensures limit < SHORT ==> (Passes(keys, size, extra, limit) <==> Fits(keys, size, limit - extra))
  {
    var least := if limit < SHORT then limit else SHORT - 1;
    if Fits(keys, size, least - extra) {
      FitsWider(keys, size, least - extra, SHORT - 1 - extra);
      FitsWider(keys, size, least - extra, limit - extra);
      FitsPasses(keys, size, extra, limit);
    }
    if Passes(keys, size, extra, limit) && limit < SHORT {
      forall i | 0 <= i < size
        ensures Load(keys, |keys|, size, i) <= limit - extra
      {
        PassesLoad(keys, |keys|, size, extra, limit, i);
      }
    }
  }

  /** A size that passes the first count passes the final one. */
  lemma PassesAgain(keys: seq<Key>, size: nat, limit: nat, pageSize: nat)
    requires size > 0 && Passes(keys, size, 0, limit) && limit + ADDRESS_SIZE <= pageSize
    ensures Passes(keys, size, ADDRESS_SIZE, pageSize)
  {
    forall n | 0 <= n < |keys|
      ensures PassesAt(keys, n, size, ADDRESS_SIZE, pageSize)
    {
      assert PassesAt(keys, n, size, 0, limit);
      if keys[n].name.Some? {
        var load := Load(keys, n, size, Bucket(keys[n].hash, size));
        ShortSum(load, ADDRESS_SIZE, ADDRESS_SIZE + load);
      }
    }
  }

  function StartSize(nelts: nat, bucketSize: nat): (r: nat)
    requires bucketSize >= 2 * ADDRESS_SIZE
    ensures r > 0
    ensures nelts < bucketSize / 16 ==> r == 1
    ensures nelts >= bucketSize / 16 ==> r * (bucketSize / 16) <= nelts < (r + 1) * (bucketSize / 16)
  {
    var start := nelts / (bucketSize / (2 * ADDRESS_SIZE));
    if start > 0 then start else 1
  }

  /** The first size from s on with which every key passes, otherwise the largest. */
  ghost function Choice(keys: seq<Key>, s: nat, maxSize: nat, limit: nat): (r: nat)
    requires 0 < s && 0 < maxSize
    ensures 0 < r <= maxSize && (r < maxSize ==> s <= r && Passes(keys, r, 0, limit))
    ensures forall k {:trigger Passes(keys, k, 0, limit)} :: s <= k < r ==> !Passes(keys, k, 0, limit)
    decreases maxSize - s
  {
    if s >= maxSize then maxSize else if Passes(keys, s, 0, limit) then s else Choice(keys, s + 1, maxSize, limit)
  }

  /** The loop over the sizes. */
  method ChooseSize(keys: seq<Key>, maxSize: nat, bucketSize: nat) returns (size: nat)
    requires maxSize > 0 && 2 * ADDRESS_SIZE <= bucketSize
    ensures size == Choice(keys, StartSize(|keys|, bucketSize), maxSize, bucketSize)
  {
    size := StartSize(|keys|, bucketSize);
    while size <= maxSize
      invariant size > 0
      invariant Choice(keys, size, maxSize, bucketSize) ==
        Choice(keys, StartSize(|keys|, bucketSize), maxSize, bucketSize)
    {
      var test := Count(keys, size, 0, bucketSize);
      if test.Some? {
        return;
      }
      size := size + 1;
    }
    size := maxSize;
  }

  // ---------- layout ----------

  /** The bytes of bucket i with its terminator; an empty bucket takes none. */
  function Room(keys: seq<Key>, size: nat, i: nat): (r: nat)
    requires size > 0
  {
    var load := Load(keys, |keys|, size, i);
    if load == 0 then 0 else ADDRESS_SIZE + load
  }

  function Start(keys: seq<Key>, size: nat, i: nat): (r: nat)
    requires size > 0
  {
    if i == 0 then 0 else Start(keys, size, i - 1) + Room(keys, size, i - 1)
  }

  lemma {:induction false} StartGrows(keys: seq<Key>, size: nat, i: nat, j: nat)
    requires size > 0 && i < j
    ensures Start(keys, size, i) + Room(keys, size, i) <= Start(keys, size, j)
  {
    if i + 1 < j {
      StartGrows(keys, size, i, j - 1);
    }
  }

  function Address(keys: seq<Key>, size: nat, i: nat): Option<nat>
    requires size > 0
  {
    if Room(keys, size, i) == 0 then None else Some(Start(keys, size, i))
  }

  /** Where each bucket begins. */
  ghost predicate Placed(buckets: seq<Option<nat>>, keys: seq<Key>, size: nat)
    requires size > 0
  {
    |buckets| == size && forall i {:trigger PlacedAt(buckets, keys, size, i)} :: 0 <= i < size ==>
      PlacedAt(buckets, keys, size, i)
  }

  predicate PlacedAt(buckets: seq<Option<nat>>, keys: seq<Key>, size: nat, i: nat)
    requires size > 0 && i < |buckets|
  {
    buckets[i] == Address(keys, size, i)
  }

  /** The bytes that the code sets aside for bucket i: the wrapped counter, and none for what looks like an empty
      bucket. */
  function Slot(keys: seq<Key>, size: nat, i: nat): (r: nat)
    requires size > 0
  {
    var total := Counter(keys, |keys|, size, ADDRESS_SIZE, i);
    if total == ADDRESS_SIZE then 0 else total
  }

  /** The bytes that it sets aside for the first i buckets. */
  function Allocated(keys: seq<Key>, size: nat, i: nat): (r: nat)
    requires size > 0
  {
    if i == 0 then 0 else Allocated(keys, size, i - 1) + Slot(keys, size, i - 1)
  }

  /** A bucket gets the bytes that it takes exactly when they can be counted in 16 bits; otherwise it gets fewer. */
  lemma SlotIsRoom(keys: seq<Key>, size: nat, i: nat)
    requires size > 0
    ensures Slot(keys, size, i) <= Room(keys, size, i)
    ensures Slot(keys, size, i) == Room(keys, size, i) <==> Load(keys, |keys|, size, i) <= SHORT - 1 - ADDRESS_SIZE
  {
  }

  lemma {:induction false} AllocatedIsStart(keys: seq<Key>, size: nat, i: nat)
    requires size > 0
    ensures Allocated(keys, size, i) <= Start(keys, size, i)
    ensures Allocated(keys, size, i) == Start(keys, size, i) <==>
      forall j {:trigger Load(keys, |keys|, size, j)} :: 0 <= j < i ==>
        Load(keys, |keys|, size, j) <= SHORT - 1 - ADDRESS_SIZE
  {
    if i > 0 {
      AllocatedIsStart(keys, size, i - 1);
      SlotIsRoom(keys, size, i - 1);
    }
  }

  /** The memory taken is what the buckets need if and only if no bucket with its terminator passes 16 bits, and is too
      small otherwise. */
  lemma EnoughExactlyWhen(keys: seq<Key>, size: nat)
    requires size > 0
    ensures Allocated(keys, size, size) == Start(keys, size, size) <==> Fits(keys, size, SHORT - 1 - ADDRESS_SIZE)
    ensures Allocated(keys, size, size) <= Start(keys, size, size)
  {
    AllocatedIsStart(keys, size, size);
  }

  /** The body of the loop that rounds the sizes up and adds them. */
  method AddBucket(keys: seq<Key>, size: nat, i: nat, test: seq<nat>, len: nat)
      returns (rounded: seq<nat>, len': nat)
    requires size > 0 && i < size && Tallied(test, keys, |keys|, size, ADDRESS_SIZE) && len == Allocated(keys, size, i)
    ensures rounded == test && len' == Allocated(keys, size, i + 1)
  {
    assert TalliedAt(test, keys, |keys|, size, ADDRESS_SIZE, i);
    rounded, len' := test, len;
    if test[i] != ADDRESS_SIZE {
      RoundsToItself(keys, size, i, test[i]);
      SameUpdate(test, i);
      rounded := test[i := Short(Align8(test[i]))];
      len' := len + rounded[i];
    }
  }

  lemma SameUpdate(test: seq<nat>, i: nat)
    requires i < |test|
    ensures test[i := test[i]] == test
  {
  }

  /** The loop that rounds the sizes up and adds them. */
  method Total(keys: seq<Key>, size: nat, test: seq<nat>) returns (len: nat, rounded: seq<nat>)
    requires size > 0 && Tallied(test, keys, |keys|, size, ADDRESS_SIZE)
    ensures len == Allocated(keys, size, size) && rounded == test
  {
    rounded := test;
    len := 0;
    for i := 0 to size
      invariant len == Allocated(keys, size, i) && rounded == test
    {
      rounded, len := AddBucket(keys, size, i, rounded, len);
    }
  }

  /** A bucket's counter is a multiple of 8 already, wrapped or not, so that rounding it up changes nothing. */
  lemma RoundsToItself(keys: seq<Key>, size: nat, i: nat, total: nat)
    requires size > 0 && total == Counter(keys, |keys|, size, ADDRESS_SIZE, i)
    ensures Align8(total) == total && Short(Align8(total)) == total
  {
    LoadAligned(keys, size, i);
    ShortAligned(ADDRESS_SIZE + Load(keys, |keys|, size, i));
  }

  lemma {:induction false} ShortAligned(x: nat)
    requires x % 8 == 0
    ensures Short(x) % 8 == 0
  {
    if x >= SHORT {
      ShortAligned(x - SHORT);
    }
  }

  lemma LoadAligned(keys: seq<Key>, size: nat, i: nat)
    requires size > 0
    ensures Align8(ADDRESS_SIZE + Load(keys, |keys|, size, i)) == ADDRESS_SIZE + Load(keys, |keys|, size, i)
    ensures Load(keys, |keys|, size, i) % 8 == 0
  {
    SizeAligned(Mine(keys, |keys|, size, i));
    AlignedSum(ADDRESS_SIZE, Load(keys, |keys|, size, i));
  }

  lemma {:induction false} StartAligned(keys: seq<Key>, size: nat, i: nat)
    requires size > 0
    ensures Start(keys, size, i) % 8 == 0
  {
    if i > 0 {
      StartAligned(keys, size, i - 1);
      RoomAligned(keys, size, i - 1);
      AlignedSum(Start(keys, size, i - 1), Room(keys, size, i - 1));
    }
  }

  lemma RoomAligned(keys: seq<Key>, size: nat, i: nat)
    requires size > 0
    ensures Room(keys, size, i) % 8 == 0
  {
    LoadAligned(keys, size, i);
  }

  lemma NextStart(keys: seq<Key>, size: nat, i: nat, total: nat)
    requires size > 0 && total == ADDRESS_SIZE + Load(keys, |keys|, size, i)
    ensures Start(keys, size, i + 1) == Start(keys, size, i) + if total == ADDRESS_SIZE then 0 else total
    ensures Address(keys, size, i) == if total == ADDRESS_SIZE then None else Some(Start(keys, size, i))
  {
  }

  /** The first i buckets have their addresses. */
  ghost predicate PlacedTo(buckets: seq<Option<nat>>, keys: seq<Key>, size: nat, i: nat)
    requires size > 0 && i <= |buckets|
  {
    forall j {:trigger PlacedAt(buckets, keys, size, j)} :: 0 <= j < i ==> PlacedAt(buckets, keys, size, j)
  }

  lemma PlacedNext(buckets: seq<Option<nat>>, keys: seq<Key>, size: nat, i: nat, buckets': seq<Option<nat>>)
    requires size > 0 && i < |buckets| && PlacedTo(buckets, keys, size, i)
    requires buckets' == buckets[i := Address(keys, size, i)]
    ensures PlacedTo(buckets', keys, size, i + 1)
  {
    forall j | 0 <= j < i + 1
      ensures PlacedAt(buckets', keys, size, j)
    {
      if j < i {
        assert PlacedAt(buckets, keys, size, j);
      }
    }
  }

  /** The loop that places buckets has done i of them. */
  ghost predicate Laid(buckets: seq<Option<nat>>, keys: seq<Key>, size: nat, i: nat, elts: nat)
    requires size > 0 && i <= |buckets|
  {
    elts == Start(keys, size, i) && PlacedTo(buckets, keys, size, i) && forall j :: i <= j < |buckets| ==>
      buckets[j] == None
  }

  lemma NothingPlaced(buckets: seq<Option<nat>>, keys: seq<Key>, size: nat)
    requires size > 0 && forall j :: 0 <= j < |buckets| ==> buckets[j] == None
    ensures Laid(buckets, keys, size, 0, 0)
  {
  }

  lemma AllPlaced(buckets: seq<Option<nat>>, keys: seq<Key>, size: nat, elts: nat)
    requires size > 0 && |buckets| == size && Laid(buckets, keys, size, size, elts)
    ensures Placed(buckets, keys, size)
  {
  }

  /** The body of the loop that gives each bucket its address. */
  method LayBucket(keys: seq<Key>, size: nat, i: nat, total: nat, buckets: seq<Option<nat>>, elts: nat)
      returns (buckets': seq<Option<nat>>, elts': nat)
    requires size > 0 && i < |buckets| && Laid(buckets, keys, size, i, elts)
    requires total == ADDRESS_SIZE + Load(keys, |keys|, size, i)
    ensures |buckets'| == |buckets| && Laid(buckets', keys, size, i + 1, elts')
  {
    NextStart(keys, size, i, total);
    buckets', elts' := buckets, elts;
    if total != ADDRESS_SIZE {
      buckets' := buckets'[i := Some(elts)];
      elts' := elts' + total;
    }
    PlacedNext(buckets, keys, size, i, buckets');
  }

  /** The loop that gives each bucket its address. */
  method Lay(keys: seq<Key>, size: nat, test: seq<nat>) returns (buckets: seq<Option<nat>>)
    requires size > 0 && Counted(test, keys, |keys|, size, ADDRESS_SIZE)
    ensures Placed(buckets, keys, size)
  {
    buckets := seq(size, _ => None);
    var elts: nat := 0;
    NothingPlaced(buckets, keys, size);
    for i := 0 to size
      invariant |buckets| == size && Laid(buckets, keys, size, i, elts)
    {
      assert CountedAt(test, keys, |keys|, size, ADDRESS_SIZE, i);
      buckets, elts := LayBucket(keys, size, i, test[i], buckets, elts);
    }
    AllPlaced(buckets, keys, size, elts);
  }

  // ---------- filling ----------

  /** After n keys every bucket holds its items so far, packed. */
  ghost predicate Filled(mem: seq<Cell>, keys: seq<Key>, n: nat, size: nat)
    requires n <= |keys| && size > 0
  {
    forall i {:trigger FilledAt(mem, keys, n, size, i)} :: 0 <= i < size ==> FilledAt(mem, keys, n, size, i)
  }

  predicate FilledAt(mem: seq<Cell>, keys: seq<Key>, n: nat, size: nat, i: nat)
    requires n <= |keys| && size > 0
  {
    Packed(mem, Start(keys, size, i), Mine(keys, n, size, i))
  }

  /** Every bucket up to i is closed by a null pointer. */
  ghost predicate Closed(mem: seq<Cell>, keys: seq<Key>, size: nat, i: nat)
    requires size > 0
  {
    forall j {:trigger ClosedAt(mem, keys, size, j)} :: 0 <= j < i ==> ClosedAt(mem, keys, size, j)
  }

  predicate ClosedAt(mem: seq<Cell>, keys: seq<Key>, size: nat, j: nat)
    requires size > 0
  {
    Room(keys, size, j) > 0 ==> Holds(mem, Start(keys, size, j) + Load(keys, |keys|, size, j), PointerCells(NULL))
  }

  /** The element of key n lies inside its bucket, before the place of the terminator. */
  lemma ElementInside(keys: seq<Key>, n: nat, size: nat)
    requires size > 0 && n < |keys| && keys[n].name.Some?
    ensures
      var k, s := Bucket(keys[n].hash, size), EltSize(|keys[n].name.value|);
      && Room(keys, size, k) > 0
      && Load(keys, n, size, k) + s <= Load(keys, |keys|, size, k)
      && Start(keys, size, k) + Load(keys, n, size, k) + s + ADDRESS_SIZE <= Start(keys, size, k) + Room(keys, size, k)
        <= Start(keys, size, size)
  {
    var k := Bucket(keys[n].hash, size);
    LoadStep(keys, n, size, k);
    LoadGrows(keys, n + 1, |keys|, size, k);
    StartGrows(keys, size, k, size);
  }

  /** What is written inside one bucket does not touch another. */
  lemma BucketsApart(mem: seq<Cell>, keys: seq<Key>, n: nat, size: nat, i: nat, k: nat, b: nat, cells: seq<Cell>)
    requires size > 0 && n <= |keys| && i < size && k < size && i != k && b + |cells| <= |mem|
    requires Start(keys, size, k) <= b && b + |cells| <= Start(keys, size, k) + Room(keys, size, k)
    requires FilledAt(mem, keys, n, size, i)
    ensures FilledAt(Put(mem, b, cells), keys, n, size, i)
  {
    LoadGrows(keys, n, |keys|, size, i);
    if i < k {
      StartGrows(keys, size, i, k);
    } else {
      StartGrows(keys, size, k, i);
    }
    PackedFrame(mem, Start(keys, size, i), Mine(keys, n, size, i), b, cells);
  }

  lemma FillStep(mem: seq<Cell>, keys: seq<Key>, n: nat, size: nat)
    requires size > 0 && n < |keys| && keys[n].name.Some? && Filled(mem, keys, n, size)
    requires |mem| == Start(keys, size, size)
    ensures
      var k := Bucket(keys[n].hash, size);
      var a, cells := Start(keys, size, k) + Load(keys, n, size, k), Cells(ItemOf(keys[n]));
      a + |cells| <= |mem| && Filled(Put(mem, a, cells), keys, n + 1, size)
  {
    var k, item := Bucket(keys[n].hash, size), ItemOf(keys[n]);
    var a, cells := Start(keys, size, k) + Load(keys, n, size, k), Cells(item);
    ElementInside(keys, n, size);
    var mem', m := Put(mem, a, cells), n + 1;
    forall i | 0 <= i < size
      ensures FilledAt(mem', keys, m, size, i)
    {
      assert FilledAt(mem, keys, n, size, i);
      var rest := Mine(keys, n, size, i);
      if i == k {
        PackedFrame(mem, Start(keys, size, k), rest, a, cells);
        PutHolds(mem, a, cells);
        assert (rest + [item])[..|rest|] == rest;
      } else {
        BucketsApart(mem, keys, n, size, i, k, a, cells);
        assert rest + [] == rest;
      }
    }
  }

  /** One element is written at its place. */
  method WriteElement(mem: seq<Cell>, keys: seq<Key>, n: nat, size: nat, a: nat) returns (mem': seq<Cell>)
    requires size > 0 && n < |keys| && keys[n].name.Some? && Filled(mem, keys, n, size)
    requires |mem| == Start(keys, size, size)
    requires a == Start(keys, size, Bucket(keys[n].hash, size)) + Load(keys, n, size, Bucket(keys[n].hash, size))
    ensures |mem'| == |mem| && Filled(mem', keys, n + 1, size)
  {
    FillStep(mem, keys, n, size);
    mem' := Put(mem, a, Cells(ItemOf(keys[n])));
  }

  /** Where key n goes, and that the 16-bit counter does not wrap. */
  lemma PlaceOf(keys: seq<Key>, n: nat, size: nat, buckets: seq<Option<nat>>, test: seq<nat>, key: nat, s: nat)
    requires size > 0 && Placed(buckets, keys, size) && Fits(keys, size, SHORT - 1) && n < |keys|
    requires Counted(test, keys, n, size, 0)
    requires keys[n].name.Some? && key == Bucket(keys[n].hash, size) && s == EltSize(|keys[n].name.value|)
    ensures buckets[key].Some? && buckets[key].value + test[key] == Start(keys, size, key) + Load(keys, n, size, key)
    ensures test[key] + s < SHORT
  {
    ElementInside(keys, n, size);
    FitsAt(keys, size, SHORT - 1, key);
    assert CountedAt(test, keys, n, size, 0, key) && PlacedAt(buckets, keys, size, key);
  }

  /** The counters after key n. */
  lemma CountedNext(test: seq<nat>, keys: seq<Key>, n: nat, size: nat, key: nat, s: nat, test': seq<nat>)
    requires n < |keys| && size > 0 && Counted(test, keys, n, size, 0) && keys[n].name.Some?
    requires key == Bucket(keys[n].hash, size) && s == EltSize(|keys[n].name.value|)
    requires test' == test[key := test[key] + s]
    ensures Counted(test', keys, n + 1, size, 0)
  {
    CountedStep(test, keys, n, size, 0);
  }

  /** The element of key n is written behind those of its bucket. */
  method FillKey(keys: seq<Key>, n: nat, size: nat, buckets: seq<Option<nat>>, mem: seq<Cell>, test: seq<nat>)
      returns (mem': seq<Cell>)
    requires size > 0 && Placed(buckets, keys, size) && Fits(keys, size, SHORT - 1) && n < |keys|
    requires |mem| == Start(keys, size, size)
    requires Filled(mem, keys, n, size) && Counted(test, keys, n, size, 0) && keys[n].name.Some?
    ensures |mem'| == |mem| && Filled(mem', keys, n + 1, size)
  {
    var key := BucketOf(keys[n].hash, size);
    PlaceOf(keys, n, size, buckets, test, key, EltSize(|keys[n].name.value|));
    mem' := WriteElement(mem, keys, n, size, buckets[key].value + test[key]);
  }

  /** The counter of its bucket moves behind it. */
  method Advance(keys: seq<Key>, n: nat, size: nat, ghost buckets: seq<Option<nat>>, test: seq<nat>)
      returns (test': seq<nat>)
    requires size > 0 && Placed(buckets, keys, size) && Fits(keys, size, SHORT - 1) && n < |keys|
    requires Counted(test, keys, n, size, 0) && keys[n].name.Some?
    ensures Counted(test', keys, n + 1, size, 0)
  {
    var key := BucketOf(keys[n].hash, size);
    var s := EltSize(|keys[n].name.value|);
    PlaceOf(keys, n, size, buckets, test, key, s);
    test' := test[key := Short(test[key] + s)];
    CountedNext(test, keys, n, size, key, s, test');
  }

  /** The loop that writes the elements. */
  method Fill(keys: seq<Key>, size: nat, buckets: seq<Option<nat>>, len: nat) returns (mem: seq<Cell>, test: seq<nat>)
    requires size > 0 && len == Start(keys, size, size) && Placed(buckets, keys, size) && Fits(keys, size, SHORT - 1)
    ensures |mem| == len && Filled(mem, keys, |keys|, size) && Counted(test, keys, |keys|, size, 0)
  {
    StartAligned(keys, size, size);
    mem := seq(Align8(len), _ => Zero);
    test := seq(size, _ => 0);
    NothingFilled(mem, keys, size);
    NothingCounted(test, keys, size, 0);
    for n := 0 to |keys|
      invariant |mem| == len && Filled(mem, keys, n, size) && Counted(test, keys, n, size, 0)
    {
      if keys[n].name.None? {
        SkipKeeps(mem, keys, n, size);
        CountedStep(test, keys, n, size, 0);
        continue;
      }
      mem := FillKey(keys, n, size, buckets, mem, test);
      test := Advance(keys, n, size, buckets, test);
    }
  }

  lemma NothingFilled(mem: seq<Cell>, keys: seq<Key>, size: nat)
    requires size > 0
    ensures Filled(mem, keys, 0, size)
  {
  }

  lemma SkipKeeps(mem: seq<Cell>, keys: seq<Key>, n: nat, size: nat)
    requires size > 0 && n < |keys| && keys[n].name.None? && Filled(mem, keys, n, size)
    ensures Filled(mem, keys, n + 1, size)
  {
    var m := n + 1;
    forall i | 0 <= i < size
      ensures FilledAt(mem, keys, m, size, i)
    {
      assert FilledAt(mem, keys, n, size, i);
      assert Mine(keys, n, size, i) + [] == Mine(keys, n, size, i);
    }
  }

  /** The terminator lies inside its bucket. */
  lemma EndInside(keys: seq<Key>, size: nat, i: nat, b: nat)
    requires size > 0 && i < size && Room(keys, size, i) > 0 && b == Start(keys, size, i) + Load(keys, |keys|, size, i)
    ensures b + ADDRESS_SIZE <= Start(keys, size, size)
  {
    StartGrows(keys, size, i, size);
  }

  /** The terminator of bucket i leaves the elements of bucket j alone. */
  lemma EndKeepsElements(mem: seq<Cell>, mem': seq<Cell>, keys: seq<Key>, size: nat, i: nat, b: nat, j: nat)
    requires size > 0 && i < size && j < size && Room(keys, size, i) > 0
    requires b == Start(keys, size, i) + Load(keys, |keys|, size, i)
    requires FilledAt(mem, keys, |keys|, size, j)
    requires b + ADDRESS_SIZE <= |mem| && mem' == Put(mem, b, PointerCells(NULL))
    ensures FilledAt(mem', keys, |keys|, size, j)
  {
    if j == i {
      PackedFrame(mem, Start(keys, size, j), Mine(keys, |keys|, size, j), b, PointerCells(NULL));
    } else {
      BucketsApart(mem, keys, |keys|, size, j, i, b, PointerCells(NULL));
    }
  }

  /** It leaves the terminators of the buckets before it alone, and is one itself. */
  lemma EndKeepsEnds(mem: seq<Cell>, mem': seq<Cell>, keys: seq<Key>, size: nat, i: nat, b: nat, j: nat)
    requires size > 0 && j <= i < size && Room(keys, size, i) > 0
    requires b == Start(keys, size, i) + Load(keys, |keys|, size, i)
    requires j < i ==> ClosedAt(mem, keys, size, j)
    requires b + ADDRESS_SIZE <= |mem| && mem' == Put(mem, b, PointerCells(NULL))
    ensures ClosedAt(mem', keys, size, j)
  {
    if j == i {
      PutHolds(mem, b, PointerCells(NULL));
    } else if Room(keys, size, j) > 0 {
      StartGrows(keys, size, j, i);
      HoldsFrame(mem, Start(keys, size, j) + Load(keys, |keys|, size, j), PointerCells(NULL), b, PointerCells(NULL));
    }
  }

  lemma CloseStep(mem: seq<Cell>, mem': seq<Cell>, keys: seq<Key>, size: nat, i: nat, b: nat)
    requires size > 0 && i < size && Room(keys, size, i) > 0 && b == Start(keys, size, i) + Load(keys, |keys|, size, i)
    requires Filled(mem, keys, |keys|, size) && Closed(mem, keys, size, i)
    requires b + ADDRESS_SIZE <= |mem| && mem' == Put(mem, b, PointerCells(NULL))
    ensures Filled(mem', keys, |keys|, size) && Closed(mem', keys, size, i + 1)
  {
    forall j | 0 <= j < size
      ensures FilledAt(mem', keys, |keys|, size, j)
    {
      assert FilledAt(mem, keys, |keys|, size, j);
      EndKeepsElements(mem, mem', keys, size, i, b, j);
    }
    forall j | 0 <= j < i + 1
      ensures ClosedAt(mem', keys, size, j)
    {
      assert j < i ==> ClosedAt(mem, keys, size, j);
      EndKeepsEnds(mem, mem', keys, size, i, b, j);
    }
  }

  /** One terminator is written behind the elements of its bucket. */
  method WriteEnd(mem: seq<Cell>, keys: seq<Key>, size: nat, i: nat, b: nat) returns (mem': seq<Cell>)
    requires size > 0 && i < size && Room(keys, size, i) > 0 && |mem| == Start(keys, size, size)
    requires Filled(mem, keys, |keys|, size) && Closed(mem, keys, size, i)
    requires b == Start(keys, size, i) + Load(keys, |keys|, size, i)
    ensures |mem'| == |mem| && Filled(mem', keys, |keys|, size) && Closed(mem', keys, size, i + 1)
  {
    EndInside(keys, size, i, b);
    mem' := Put(mem, b, PointerCells(NULL));
    CloseStep(mem, mem', keys, size, i, b);
  }

  lemma NothingClosed(mem: seq<Cell>, keys: seq<Key>, size: nat)
    requires size > 0
    ensures Closed(mem, keys, size, 0)
  {
  }

  lemma NothingToClose(mem: seq<Cell>, keys: seq<Key>, size: nat, i: nat)
    requires size > 0 && Closed(mem, keys, size, i) && Room(keys, size, i) == 0
    ensures Closed(mem, keys, size, i + 1)
  {
  }

  /** The loop that writes the terminators. */
  method Close(keys: seq<Key>, size: nat, buckets: seq<Option<nat>>, filled: seq<Cell>, test: seq<nat>)
      returns (mem: seq<Cell>)
    requires size > 0 && Placed(buckets, keys, size) && |filled| == Start(keys, size, size)
    requires Filled(filled, keys, |keys|, size) && Counted(test, keys, |keys|, size, 0)
    ensures |mem| == |filled| && Filled(mem, keys, |keys|, size) && Closed(mem, keys, size, size)
  {
    mem := filled;
    NothingClosed(mem, keys, size);
    for i := 0 to size
      invariant |mem| == |filled| && Filled(mem, keys, |keys|, size) && Closed(mem, keys, size, i)
    {
      assert PlacedAt(buckets, keys, size, i) && CountedAt(test, keys, |keys|, size, 0, i);
      if buckets[i].Some? {
        mem := WriteEnd(mem, keys, size, i, buckets[i].value + test[i]);
      } else {
        NothingToClose(mem, keys, size, i);
      }
    }
  }

  ghost predicate Built(table: Table, keys: seq<Key>) {
    && table.size > 0 && Placed(table.buckets, keys, table.size) && |table.mem| == Start(keys, table.size, table.size)
    && Filled(table.mem, keys, |keys|, table.size) && Closed(table.mem, keys, table.size, table.size)
    && Fits(keys, table.size, SHORT - 1 - ADDRESS_SIZE)
  }

  lemma FitsWider(keys: seq<Key>, size: nat, limit: nat, wider: nat)
    requires size > 0 && Fits(keys, size, limit) && limit <= wider
    ensures Fits(keys, size, wider)
  {
  }

  /** Every named key fits a bucket of its own. */
  ghost predicate EachFits(keys: seq<Key>, bucketSize: nat) {
    forall n {:trigger keys[n]} :: 0 <= n < |keys| && keys[n].name.Some? ==>
      EltSize(|keys[n].name.value|) + ADDRESS_SIZE <= bucketSize
  }

  method CheckEach(keys: seq<Key>, bucketSize: nat) returns (ok: bool)
    ensures ok <==> EachFits(keys, bucketSize)
  {
    for n := 0 to |keys|
      invariant EachFits(keys[..n], bucketSize)
    {
      assert keys[..n + 1] == keys[..n] + [keys[n]];
      if keys[n].name.Some? && bucketSize < EltSize(|keys[n].name.value|) + ADDRESS_SIZE {
        return false;
      }
    }
    assert keys[..|keys|] == keys;
    return true;
  }

  /** The space for elements in a bucket: a size_t difference. */
  function Usable(bucketSize: nat): (r: nat)
    ensures r >= 2 * ADDRESS_SIZE <==> bucketSize < ADDRESS_SIZE || bucketSize >= 3 * ADDRESS_SIZE
  {
    if bucketSize >= ADDRESS_SIZE then bucketSize - ADDRESS_SIZE else WORD + bucketSize - ADDRESS_SIZE
  }

  /** What the code checks of its arguments before it counts. */
  ghost predicate Admitted(keys: seq<Key>, maxSize: nat, bucketSize: nat, pageSize: nat) {
    maxSize > 0 && bucketSize <= pageSize && EachFits(keys, bucketSize)
  }

  /** Every key passes with the largest number of buckets and the page as limit, or with some number from the estimate
      on and the bucket as limit. */
  ghost predicate Buildable(keys: seq<Key>, maxSize: nat, bucketSize: nat, pageSize: nat)
    requires maxSize > 0 && Usable(bucketSize) >= 2 * ADDRESS_SIZE
  {
    || Passes(keys, maxSize, ADDRESS_SIZE, pageSize)
    || (var limit := Usable(bucketSize);
      exists s {:trigger Passes(keys, s, 0, limit)} :: StartSize(|keys|, limit) <= s <= maxSize
        && Passes(keys, s, 0, limit))
  }

  /** The number of buckets of the table. */
  ghost function SizeOf(keys: seq<Key>, maxSize: nat, bucketSize: nat): nat
    requires maxSize > 0 && Usable(bucketSize) >= 2 * ADDRESS_SIZE
  {
    Choice(keys, StartSize(|keys|, Usable(bucketSize)), maxSize, Usable(bucketSize))
  }

  lemma NoNamesPass(keys: seq<Key>, size: nat, extra: nat, limit: nat)
    requires size > 0 && forall k {:trigger keys[k]} :: 0 <= k < |keys| ==> keys[k].name.None?
    ensures Passes(keys, size, extra, limit)
  {
  }

  /** The chosen size passes the final count exactly when some size does what the count asks for. */
  lemma BuildableExactlyWhen(keys: seq<Key>, maxSize: nat, bucketSize: nat, pageSize: nat)
    requires Admitted(keys, maxSize, bucketSize, pageSize) && Usable(bucketSize) >= 2 * ADDRESS_SIZE
    ensures Passes(keys, SizeOf(keys, maxSize, bucketSize), ADDRESS_SIZE, pageSize) <==>
      Buildable(keys, maxSize, bucketSize, pageSize)
  {
    var size := SizeOf(keys, maxSize, bucketSize);
    if bucketSize < ADDRESS_SIZE {
      NoNamesPass(keys, size, ADDRESS_SIZE, pageSize);
      NoNamesPass(keys, maxSize, ADDRESS_SIZE, pageSize);
    } else if Passes(keys, size, 0, Usable(bucketSize)) {
      PassesAgain(keys, size, Usable(bucketSize), pageSize);
    }
  }

  /** On pages below 64K, where no counter wraps, this is a statement about the loads. */
  lemma BuildableByLoad(keys: seq<Key>, maxSize: nat, bucketSize: nat, pageSize: nat)
    requires Admitted(keys, maxSize, bucketSize, pageSize) && 3 * ADDRESS_SIZE <= bucketSize && pageSize < SHORT
    ensures Buildable(keys, maxSize, bucketSize, pageSize) <==>
      || Fits(keys, maxSize, pageSize - ADDRESS_SIZE)
      || FitsFrom(keys, StartSize(|keys|, Usable(bucketSize)), maxSize, Usable(bucketSize))
  {
    PassesIsFits(keys, maxSize, ADDRESS_SIZE, pageSize);
    forall s | 0 < s
      ensures Passes(keys, s, 0, Usable(bucketSize)) <==> Fits(keys, s, Usable(bucketSize))
    {
      PassesIsFits(keys, s, 0, Usable(bucketSize));
    }
  }

  lemma TalliedCounted(test: seq<nat>, keys: seq<Key>, size: nat, extra: nat)
    requires size > 0 && extra < SHORT && Tallied(test, keys, |keys|, size, extra)
    requires Fits(keys, size, SHORT - 1 - extra)
    ensures Counted(test, keys, |keys|, size, extra)
  {
    forall i | 0 <= i < size
      ensures CountedAt(test, keys, |keys|, size, extra, i)
    {
      assert TalliedAt(test, keys, |keys|, size, extra, i);
      FitsAt(keys, size, SHORT - 1 - extra, i);
    }
  }

  /** How the build ends. `Trapped` is the division by zero in the estimate; `Cramped` a build that goes on to write
      into less memory than its elements take. */
  datatype Outcome = Refused | Trapped | Cramped | Done(table: Table)

  /** The part of `night_hash_init` behind the choice of the size. */
  method Assemble(keys: seq<Key>, size: nat, pageSize: nat) returns (r: Outcome)
    requires size > 0
    ensures !r.Trapped? && (r.Refused? <==> !Passes(keys, size, ADDRESS_SIZE, pageSize))
    ensures r.Cramped? ==> !Fits(keys, size, SHORT - 1 - ADDRESS_SIZE)
    ensures r.Done? ==> Built(r.table, keys) && r.table.size == size
  {
    var counted := Count(keys, size, ADDRESS_SIZE, pageSize);
    if counted.None? {
      return Refused;
    }
    var len, test := Total(keys, size, counted.value);
    EnoughExactlyWhen(keys, size);
    if len < Start(keys, size, size) {
      return Cramped;
    }
    TalliedCounted(test, keys, size, ADDRESS_SIZE);
    FitsWider(keys, size, SHORT - 1 - ADDRESS_SIZE, SHORT - 1);
    var buckets := Lay(keys, size, test);
    var mem, ends := Fill(keys, size, buckets, len);
    mem := Close(keys, size, buckets, mem, ends);
    return Done(Table(size, buckets, mem));
  }

  /** `night_hash_init`, for every key list and all sizes: when it refuses, when it divides by zero, when its memory is
      too small for its elements, and that otherwise the table holds the keys. */
  method Init(keys: seq<Key>, maxSize: nat, bucketSize: nat, pageSize: nat) returns (r: Outcome)
    ensures r.Refused? <==>
      || !Admitted(keys, maxSize, bucketSize, pageSize)
      || (Usable(bucketSize) >= 2 * ADDRESS_SIZE && !Buildable(keys, maxSize, bucketSize, pageSize))
    ensures r.Trapped? <==> Admitted(keys, maxSize, bucketSize, pageSize) && Usable(bucketSize) < 2 * ADDRESS_SIZE
    ensures r.Done? || r.Cramped? ==>
      && maxSize > 0 && Usable(bucketSize) >= 2 * ADDRESS_SIZE
      && (r.Done? <==> Fits(keys, SizeOf(keys, maxSize, bucketSize), SHORT - 1 - ADDRESS_SIZE))
    ensures r.Done? ==> Built(r.table, keys) && r.table.size == SizeOf(keys, maxSize, bucketSize)
  {
    if maxSize == 0 || bucketSize > pageSize {
      return Refused;
    }
    var ok := CheckEach(keys, bucketSize);
    if !ok {
      return Refused;
    }
    if Usable(bucketSize) < 2 * ADDRESS_SIZE {
      return Trapped;
    }
    var size := ChooseSize(keys, maxSize, Usable(bucketSize));
    BuildableExactlyWhen(keys, maxSize, bucketSize, pageSize);
    r := Assemble(keys, size, pageSize);
  }

  /** On pages below 64K the memory is never too small: what passes the final count fits. */
  lemma SmallPagesSuffice(keys: seq<Key>, size: nat, pageSize: nat)
    requires size > 0 && ADDRESS_SIZE <= pageSize < SHORT && Passes(keys, size, ADDRESS_SIZE, pageSize)
    ensures Allocated(keys, size, size) == Start(keys, size, size)
  {
    PassesIsFits(keys, size, ADDRESS_SIZE, pageSize);
    EnoughExactlyWhen(keys, size);
  }

  /** One key of 65518 bytes, with buckets and pages of 65536: it is admitted and passes both counts with one bucket,
      nothing at all is allocated, and the element that is written takes 65528 bytes. */
  lemma {:induction false} OneLongKey(keys: seq<Key>, maxSize: nat)
    requires |keys| == 1 && keys[0].name.Some? && |keys[0].name.value| == 65518 && maxSize > 0
    ensures Admitted(keys, maxSize, SHORT, SHORT) && SizeOf(keys, maxSize, SHORT) == 1
    ensures Buildable(keys, maxSize, SHORT, SHORT) && Allocated(keys, 1, 1) == 0
    ensures |Cells(ItemOf(keys[0]))| == 65528
  {
    LoadStep(keys, 0, 1, 0);
    BucketIsRemainder(keys[0].hash, 1);
    assert PassesAt(keys, 0, 1, 0, SHORT - ADDRESS_SIZE);
    assert PassesAt(keys, 0, 1, ADDRESS_SIZE, SHORT);
  }

  // ---------- searching ----------

  lemma {:induction false} PackedAt(mem: seq<Cell>, a: nat, items: seq<Item>, k: nat)
    requires Packed(mem, a, items) && k < |items|
    ensures Holds(mem, a + Size(items[..k]), Cells(items[k]))
  {
    var rest := items[..|items| - 1];
    if k < |rest| {
      PackedAt(mem, a, rest, k);
      assert rest[..k] == items[..k];
    }
  }

  lemma {:induction false} PrefixSize(items: seq<Item>, k: nat)
    requires k < |items|
    ensures Size(items[..k + 1]) == Size(items[..k]) + EltSize(|items[k].name|) <= Size(items)
  {
    assert items[..k + 1][..k] == items[..k];
    if k + 1 < |items| {
      var rest := items[..|items| - 1];
      PrefixSize(rest, k);
      assert rest[..k + 1] == items[..k + 1] && rest[..k] == items[..k];
    } else {
      assert items[..k + 1] == items;
    }
  }

  lemma {:induction false} FirstOfPrefix(items: seq<Item>, k: nat, name: seq<Byte>)
    requires k <= |items| && FirstItem(items[..k], name).Some?
    ensures FirstItem(items, name) == FirstItem(items[..k], name)
  {
    if k < |items| {
      var rest := items[..|items| - 1];
      assert rest[..k] == items[..k];
      FirstOfPrefix(rest, k, name);
    } else {
      assert items[..k] == items;
    }
  }

  /** Eight bytes that one pointer was stored in. */
  predicate Whole(mem: seq<Cell>, a: nat) {
    a < |mem| && mem[a].Pointer? && Holds(mem, a, PointerCells(mem[a].value))
  }

  function LoadPointer(mem: seq<Cell>, a: nat): nat
    requires Whole(mem, a)
  {
    mem[a].value
  }

  function LoadLength(mem: seq<Cell>, a: nat): nat
    requires a + 1 < |mem| && mem[a].Length? && mem[a] == Length(mem[a].len, 0) && mem[a + 1] == Length(mem[a].len, 1)
  {
    mem[a].len
  }

  /** What the fields of an element read. */
  lemma ReadElement(mem: seq<Cell>, a: nat, item: Item)
    requires Holds(mem, a, Cells(item)) && |item.name| < SHORT
    ensures mem[a] == Pointer(item.value, 0) && Holds(mem, a, PointerCells(item.value))
    ensures mem[a + 8] == Length(|item.name|, 0) && mem[a + 9] == Length(|item.name|, 1)
    ensures forall i :: 0 <= i < |item.name| ==> mem[a + 10 + i] == Char(item.name[i])
  {
    var cells := Cells(item);
    assert forall i :: 0 <= i < |cells| ==> mem[a + i] == cells[i];
    forall i | 0 <= i < ADDRESS_SIZE
      ensures mem[a..a + 8][i] == PointerCells(item.value)[i]
    {
      assert mem[a + i] == cells[i];
    }
    forall i | 0 <= i < |item.name|
      ensures mem[a + 10 + i] == Char(item.name[i])
    {
      assert mem[a + (10 + i)] == cells[10 + i];
    }
  }

  /** The element at a is that of item k: does its name match? */
  method SameName(mem: seq<Cell>, a: nat, ghost item: Item, name: seq<Byte>) returns (same: bool)
    requires Holds(mem, a, Cells(item)) && |item.name| < SHORT
    ensures same <==> item.name == name
  {
    ReadElement(mem, a, item);
    if |name| != LoadLength(mem, a + 8) {
      return false;
    }
    var i := 0;
    while i < |name|
      invariant 0 <= i <= |name| == |item.name| && name[..i] == item.name[..i]
    {
      if name[i] != mem[a + 10 + i].c {
        return false;
      }
      i := i + 1;
    }
    return true;
  }

  /** The search stands at item k, or at the terminator behind the last; no earlier item has the name. */
  ghost predicate Standing(mem: seq<Cell>, start: nat, items: seq<Item>, name: seq<Byte>, k: nat, a: nat) {
    && k <= |items| && a == start + Size(items[..k]) && a % 8 == 0 && FirstItem(items[..k], name).None?
    && Whole(mem, a) && (LoadPointer(mem, a) == NULL <==> k == |items|)
  }

  /** A bucket ready to be searched. */
  ghost predicate Ready(mem: seq<Cell>, start: nat, items: seq<Item>) {
    && start % 8 == 0 && Packed(mem, start, items) && Holds(mem, start + Size(items), PointerCells(NULL))
      && Size(items) < SHORT
    && forall k :: 0 <= k < |items| ==> items[k].value != NULL
  }

  lemma AtItem(mem: seq<Cell>, start: nat, items: seq<Item>, name: seq<Byte>, k: nat, a: nat)
    requires Ready(mem, start, items) && Standing(mem, start, items, name, k, a) && k < |items|
    ensures Holds(mem, a, Cells(items[k])) && |items[k].name| < SHORT
    ensures items[k].name == name ==> FirstItem(items, name) == Some(items[k].value)
  {
    PackedAt(mem, start, items, k);
    PrefixSize(items, k);
    if items[k].name == name {
      assert items[..k + 1][..k] == items[..k];
      FirstOfPrefix(items, k + 1, name);
    }
  }

  lemma StepOn(mem: seq<Cell>, start: nat, items: seq<Item>, name: seq<Byte>, k: nat, a: nat)
    requires Ready(mem, start, items) && Standing(mem, start, items, name, k, a) && k < |items| && items[k].name != name
    ensures Standing(mem, start, items, name, k + 1, Align8(a + 10 + |items[k].name|))
  {
    PrefixSize(items, k);
    Stride(a, |items[k].name|);
    BucketHead(mem, start, items, k + 1);
    assert items[..k + 1][..k] == items[..k];
  }

  /** The walk through one bucket: the value of the first item with the name. */
  method Walk(mem: seq<Cell>, start: nat, ghost items: seq<Item>, name: seq<Byte>) returns (value: nat)
    requires Ready(mem, start, items)
    ensures value == Found(FirstItem(items, name))
  {
    var a: nat := start;
    ghost var k: nat := 0;
    BucketHead(mem, start, items, k);
    while LoadPointer(mem, a) != NULL
      invariant Standing(mem, start, items, name, k, a)
      decreases |items| - k
    {
      AtItem(mem, start, items, name, k, a);
      var same := SameName(mem, a, items[k], name);
      ReadElement(mem, a, items[k]);
      if same {
        return LoadPointer(mem, a);
      }
      StepOn(mem, start, items, name, k, a);
      a := Align8(a + 10 + LoadLength(mem, a + 8));
      k := k + 1;
    }
    assert items[..k] == items;
    return NULL;
  }

  /** Behind the first k items there is the next one, or the terminator. */
  lemma BucketHead(mem: seq<Cell>, start: nat, items: seq<Item>, k: nat)
    requires Ready(mem, start, items) && k <= |items|
    ensures
      var a := start + Size(items[..k]);
      Whole(mem, a) && (LoadPointer(mem, a) == NULL <==> k == |items|)
  {
    if k < |items| {
      PackedAt(mem, start, items, k);
      PrefixSize(items, k);
      ReadElement(mem, start + Size(items[..k]), items[k]);
    } else {
      assert items[..k] == items;
      var a := start + Size(items);
      assert mem[a..a + ADDRESS_SIZE][0] == PointerCells(NULL)[0];
    }
  }

  function Found(r: Option<nat>): nat {
    if r.Some? then r.value else NULL
  }

  ghost predicate ValuesSet(keys: seq<Key>) {
    forall n {:trigger keys[n]} :: 0 <= n < |keys| ==> keys[n].value != NULL
  }

  lemma {:induction false} ItemsSet(keys: seq<Key>, n: nat, size: nat, i: nat)
    requires n <= |keys| && size > 0 && ValuesSet(keys)
    ensures forall k :: 0 <= k < |Mine(keys, n, size, i)| ==> Mine(keys, n, size, i)[k].value != NULL
  {
    if n > 0 {
      ItemsSet(keys, n - 1, size, i);
    }
  }

  /** `night_hash_find` on a built table is the linear scan over the keys. */
  method Find(table: Table, ghost keys: seq<Key>, key: nat, name: seq<Byte>) returns (value: nat)
    requires Built(table, keys) && Hashed(keys) && ValuesSet(keys) && key == HashOf(name)
    ensures value == Found(FirstMatch(keys, |keys|, name))
    ensures value == NULL <==> forall k :: 0 <= k < |keys| ==> !Matches(keys[k], name)
    ensures value != NULL ==>
      exists k :: 0 <= k < |keys| && Matches(keys[k], name) && value == keys[k].value
        && forall j :: 0 <= j < k ==> !Matches(keys[j], name)
  {
    var i := BucketOf(key, table.size);
    ghost var items := Mine(keys, |keys|, table.size, i);
    OwnBucket(keys, table.size, name);
    var elt := table.buckets[i];
    assert PlacedAt(table.buckets, keys, table.size, i);
    EmptyLoad(items);
    if elt.None? {
      return NULL;
    }
    BucketReady(table, keys, i, elt.value, items);
    value := Walk(table.mem, elt.value, items, name);
  }

  lemma BucketReady(table: Table, keys: seq<Key>, i: nat, start: nat, items: seq<Item>)
    requires Built(table, keys) && ValuesSet(keys) && i < table.size && Room(keys, table.size, i) > 0
    requires start == Start(keys, table.size, i) && items == Mine(keys, |keys|, table.size, i)
    ensures Ready(table.mem, start, items)
  {
    assert start % 8 == 0 by { StartAligned(keys, table.size, i); }
    assert forall k :: 0 <= k < |items| ==> items[k].value != NULL by { ItemsSet(keys, |keys|, table.size, i); }
    assert Size(items) < SHORT by { FitsAt(keys, table.size, SHORT - 1 - ADDRESS_SIZE, i); }
    assert FilledAt(table.mem, keys, |keys|, table.size, i);
    assert ClosedAt(table.mem, keys, table.size, i);
  }

  /** The stride of the search is the size that the build used. */
  lemma Stride(a: nat, len: nat)
    requires a % 8 == 0
    ensures Align8(a + 10 + len) == a + EltSize(len)
  {
  }
}
