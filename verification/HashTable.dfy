/** The static hash table of `night_hash.c`: packed buckets, built once and searched by computed strides. */
module HashTable {
  import opened Basics

  type Byte = x: int | 0 <= x < 256

  const NULL := 0
  const ADDRESS_SIZE := 8       // sizeof(void *)
  const WORD := 0x1_0000_0000_0000_0000
  const SHORT := 0x1_0000

  // ---------- hash keys ----------

  function Lowered(s: seq<Byte>): (r: seq<Byte>)
    ensures |r| == |s| && forall i :: 0 <= i < |s| ==> r[i] == Lower(s[i])
  {
    seq(|s|, i requires 0 <= i < |s| => Lower(s[i]))
  }

  /** A char is signed, and is widened before it is added. */
  function Signed(c: Byte): (r: int)
    ensures -128 <= r < 128 && (r == c || r + 256 == c)
  {
    if c < 128 then c else c - 256
  }

  /** The macro `night_hash`. */
  function HashStep(key: nat, c: Byte): (r: nat) {
    (key * 31 + Signed(c)) % WORD
  }

  function HashOf(s: seq<Byte>): nat {
    if s == [] then 0 else HashStep(HashOf(s[..|s| - 1]), s[|s| - 1])
  }

  function Pow31(n: nat): nat {
    if n == 0 then 1 else 31 * Pow31(n - 1)
  }

  /** The sum of the signed bytes, each times 31 to the power of the number of bytes behind it. */
  function Weighted(s: seq<Byte>): int {
    if s == [] then 0 else Signed(s[0]) * Pow31(|s| - 1) + Weighted(s[1..])
  }

  lemma {:induction false} WeightedStep(s: seq<Byte>, c: Byte)
    ensures Weighted(s + [c]) == Weighted(s) * 31 + Signed(c)
  {
    if s == [] {
      assert (s + [c])[1..] == [];
    } else {
      WeightedStep(s[1..], c);
      assert (s + [c])[1..] == s[1..] + [c];
      assert Signed(s[0]) * Pow31(|s|) == Signed(s[0]) * Pow31(|s| - 1) * 31;
    }
  }

  /** A remainder in front of a product and a sum makes no difference to the remainder. */
  lemma StepOfRemainder(x: int, c: int)
    ensures (x % WORD * 31 + c) % WORD == (x * 31 + c) % WORD
  {
    var q := x / WORD;
    assert x * 31 + c == x % WORD * 31 + c + 31 * q * WORD;
    AddMultiple(x % WORD * 31 + c, 31 * q);
  }

  lemma AddMultiple(y: int, k: int)
    ensures (y + k * WORD) % WORD == y % WORD
  {
    assert y + k * WORD == (y / WORD + k) * WORD + y % WORD;
    Quotient(y + k * WORD, WORD, y / WORD + k, y % WORD);
  }

  /** The hash in closed form: the weighted sum, modulo 2^64. */
  lemma {:induction false} HashIsWeighted(s: seq<Byte>)
    ensures HashOf(s) == Weighted(s) % WORD
  {
    if s != [] {
      var rest, c := s[..|s| - 1], s[|s| - 1];
      HashIsWeighted(rest);
      assert s == rest + [c];
      WeightedStep(rest, c);
      StepOfRemainder(Weighted(rest), Signed(c));
    }
  }

  /** `night_hash_key_lc`: the weighted sum of the lower-case bytes, modulo 2^64. */
  method KeyLc(data: seq<Byte>) returns (key: nat)
    ensures key == HashOf(Lowered(data)) == Weighted(Lowered(data)) % WORD
  {
    HashIsWeighted(Lowered(data));
    key := 0;
    for i := 0 to |data|
      invariant key == HashOf(Lowered(data[..i]))
    {
      LoweredStep(data, i);
      key := HashStep(key, Lower(data[i]));
    }
    assert data[..|data|] == data;
  }

  lemma LoweredStep(data: seq<Byte>, i: nat)
    requires i < |data|
    ensures HashOf(Lowered(data[..i + 1])) == HashStep(HashOf(Lowered(data[..i])), Lower(data[i]))
  {
    var s := Lowered(data[..i + 1]);
    assert s[..i] == Lowered(data[..i]);
  }

  /** One key by its number. */
  lemma KeyOfAb()
    ensures HashOf(Lowered(['A' as int, 'b' as int])) == 97 * 31 + 98 == 3105
  {
    var s := Lowered(['A' as int, 'b' as int]);
    assert s == [97] + [98] && s[..1] == [97] && [97][..0] == [];
  }

  /** `night_hash_strlow`: the copy has no capitals and differs from the source in case only; the key is its hash. */
  method StrLow(src: seq<Byte>) returns (dst: seq<Byte>, key: nat)
    ensures dst == Lowered(src) && key == HashOf(dst) == Weighted(dst) % WORD
    ensures |dst| == |src| && forall i :: 0 <= i < |src| ==> !Capital(dst[i]) && SameLetter(src[i], dst[i])
  {
    HashIsWeighted(Lowered(src));
    dst, key := [], 0;
    for i := 0 to |src|
      invariant dst == Lowered(src[..i]) && key == HashOf(dst)
    {
      LoweredStep(src, i);
      LoweredMore(src, i);
      var c := Lower(src[i]);
      dst := dst + [c];
      key := HashStep(key, c);
    }
    assert src[..|src|] == src;
    LoweredFolds(src);
  }

  lemma LoweredMore(s: seq<Byte>, i: nat)
    requires i < |s|
    ensures Lowered(s[..i + 1]) == Lowered(s[..i]) + [Lower(s[i])]
  {
  }

  lemma LoweredFolds(s: seq<Byte>)
    ensures forall i :: 0 <= i < |s| ==> !Capital(Lowered(s)[i]) && SameLetter(s[i], Lowered(s)[i])
  {
  }

  /** The loop of `night_http_set_content_type`: the extension is copied only if it holds an upper-case letter, and
      the hash is that of its lower case either way. */
  method ExtensionHash(exten: seq<Byte>) returns (data: seq<Byte>, hash: nat)
    ensures data == Lowered(exten) && hash == HashOf(Lowered(exten)) == Weighted(data) % WORD
    ensures |data| == |exten| && forall i :: 0 <= i < |data| ==> !Capital(data[i]) && SameLetter(exten[i], data[i])
  {
    HashIsWeighted(Lowered(exten));
    data, hash := exten, 0;
    for i := 0 to |exten|
      invariant data == exten && hash == HashOf(exten[..i]) && exten[..i] == Lowered(exten[..i])
    {
      if 'A' as int <= exten[i] <= 'Z' as int {
        data, hash := StrLow(exten);
        return;
      }
      LoweredStep(exten, i);
      LoweredMore(exten, i);
      assert exten[..i + 1] == exten[..i] + [exten[i]];
      hash := HashStep(hash, exten[i]);
    }
    assert exten[..|exten|] == exten;
    LoweredFolds(exten);
  }

  // ---------- packed elements ----------

  /** A byte of memory, as the pointer, length or character it is part of; memory from the pool starts out zeroed. */
  datatype Cell = Zero | Pointer(value: nat, part: nat) | Length(len: nat, part: nat) | Char(c: Byte)

  datatype Item = Item(name: seq<Byte>, value: nat)

  /** The macro `NIGHT_HASH_ELT_SIZE`. */
  function EltSize(len: nat): (r: nat)
    ensures r % 8 == 0 && len + 10 <= r < len + 18 && r >= 16
  {
    ADDRESS_SIZE + Align8(len + 2)
  }

  function PointerCells(v: nat): (r: seq<Cell>)
    ensures |r| == ADDRESS_SIZE
  {
    seq(ADDRESS_SIZE, k requires 0 <= k < ADDRESS_SIZE => Pointer(v, k))
  }

  /** The used bytes of an element: value, length, name. */
  function Cells(item: Item): (r: seq<Cell>)
    ensures |r| == |item.name| + 10
  {
    PointerCells(item.value) + [Length(|item.name| % SHORT, 0), Length(|item.name| % SHORT, 1)] + seq(|item.name|,
      k requires 0 <= k < |item.name| => Char(item.name[k]))
  }

  function Put(mem: seq<Cell>, a: nat, cells: seq<Cell>): (r: seq<Cell>)
    requires a + |cells| <= |mem|
    ensures |r| == |mem|
  {
    mem[..a] + cells + mem[a + |cells|..]
  }

  predicate Holds(mem: seq<Cell>, a: nat, cells: seq<Cell>) {
    a + |cells| <= |mem| && mem[a..a + |cells|] == cells
  }

  function Size(items: seq<Item>): (r: nat) {
    if items == [] then 0 else Size(items[..|items| - 1]) + EltSize(|items[|items| - 1].name|)
  }

  lemma {:induction false} SizeAligned(items: seq<Item>)
    ensures Size(items) % 8 == 0
  {
    if items != [] {
      var rest, last := items[..|items| - 1], EltSize(|items[|items| - 1].name|);
      SizeAligned(rest);
      AlignedSum(Size(rest), last);
    }
  }

  /** The items lie one behind the other from a on. */
  predicate Packed(mem: seq<Cell>, a: nat, items: seq<Item>) {
    items == [] || (
      var rest := items[..|items| - 1];
      Packed(mem, a, rest) && Holds(mem, a + Size(rest), Cells(items[|items| - 1])))
  }

  /** A write outside [a, a + Size) leaves the items alone. */
  lemma {:induction false} PackedFrame(mem: seq<Cell>, a: nat, items: seq<Item>, b: nat, cells: seq<Cell>)
    requires Packed(mem, a, items) && b + |cells| <= |mem|
    requires b + |cells| <= a || a + Size(items) <= b
    ensures Packed(Put(mem, b, cells), a, items)
  {
    if items != [] {
      var rest, x := items[..|items| - 1], items[|items| - 1];
      PackedFrame(mem, a, rest, b, cells);
      HoldsFrame(mem, a + Size(rest), Cells(x), b, cells);
    }
  }

  lemma HoldsFrame(mem: seq<Cell>, a: nat, held: seq<Cell>, b: nat, cells: seq<Cell>)
    requires Holds(mem, a, held) && b + |cells| <= |mem|
    requires b + |cells| <= a || a + |held| <= b
    ensures Holds(Put(mem, b, cells), a, held)
  {
    var mem' := Put(mem, b, cells);
    assert forall k :: a <= k < a + |held| ==> mem'[k] == mem[k];
  }

  lemma PutHolds(mem: seq<Cell>, a: nat, cells: seq<Cell>)
    requires a + |cells| <= |mem|
    ensures Holds(Put(mem, a, cells), a, cells)
  {
  }

  // ---------- what belongs where ----------

  datatype Key = Key(name: Option<seq<Byte>>, hash: nat, value: nat)

  /** The remainder, by repeated subtraction. */
  function Bucket(hash: nat, size: nat): (i: nat)
    requires size > 0
    ensures i < size
  {
    if hash < size then hash else Bucket(hash - size, size)
  }

  lemma {:induction false} BucketIsRemainder(hash: nat, size: nat)
    requires size > 0
    ensures Bucket(hash, size) == hash % size
  {
    if hash >= size {
      BucketIsRemainder(hash - size, size);
      SubtractOnce(hash, size);
    }
  }

  lemma SubtractOnce(hash: nat, size: nat)
    requires 0 < size <= hash
    ensures (hash - size) % size == hash % size
  {
    var q, r := (hash - size) / size, (hash - size) % size;
    assert hash == (q + 1) * size + r;
    Quotient(hash, size, q + 1, r);
  }

  lemma Quotient(x: int, size: int, q: int, r: int)
    requires size > 0 && r >= 0 && x == q * size + r && r < size
    ensures x % size == r
  {
    var p := x / size;
    assert (p - q) * size == r - x % size;
    assert p - q >= 1 ==> (p - q) * size >= size;
    assert p - q <= -1 ==> (p - q) * size <= -size;
  }

  /** The items of the first n keys that fall into bucket i, in order; keys without a name are skipped. */
  function Mine(keys: seq<Key>, n: nat, size: nat, i: nat): (r: seq<Item>)
    requires n <= |keys| && size > 0
  {
    if n == 0 then [] else
      Mine(keys, n - 1, size, i) + if keys[n - 1].name.Some? && Bucket(keys[n - 1].hash, size) == i
        then [ItemOf(keys[n - 1])] else []
  }

  function ItemOf(key: Key): Item
    requires key.name.Some?
  {
    Item(Lowered(key.name.value), key.value)
  }

  predicate Matches(key: Key, name: seq<Byte>) {
    key.name.Some? && Lowered(key.name.value) == name
  }

  /** The linear scan: the value of the first key whose lower case is name. */
  function FirstMatch(keys: seq<Key>, n: nat, name: seq<Byte>): (r: Option<nat>)
    requires n <= |keys|
    ensures r.None? <==> forall k :: 0 <= k < n ==> !Matches(keys[k], name)
    ensures r.Some? ==>
      exists k :: 0 <= k < n && Matches(keys[k], name) && r.value == keys[k].value
        && forall j :: 0 <= j < k ==> !Matches(keys[j], name)
  {
    if n == 0 then None
    else if FirstMatch(keys, n - 1, name).Some? then FirstMatch(keys, n - 1, name)
    else if keys[n - 1].name.Some? && Lowered(keys[n - 1].name.value) == name then Some(keys[n - 1].value)
    else None
  }

  function FirstItem(items: seq<Item>, name: seq<Byte>): (r: Option<nat>) {
    if items == [] then None
    else if FirstItem(items[..|items| - 1], name).Some? then FirstItem(items[..|items| - 1], name)
    else if items[|items| - 1].name == name then Some(items[|items| - 1].value)
    else None
  }

  /** Every key carries the hash of its lower case. */
  ghost predicate Hashed(keys: seq<Key>) {
    forall n {:trigger keys[n]} :: 0 <= n < |keys| && keys[n].name.Some? ==>
      keys[n].hash == HashOf(Lowered(keys[n].name.value))
  }

  /** Looking only into bucket i misses nothing, if every key with the name is in it. */
  lemma {:induction false} OneBucket(keys: seq<Key>, n: nat, size: nat, name: seq<Byte>, i: nat)
    requires n <= |keys| && size > 0
    requires forall k {:trigger keys[k]} ::
      0 <= k < |keys| && keys[k].name.Some? && Lowered(keys[k].name.value) == name ==> Bucket(keys[k].hash, size) == i
    ensures FirstItem(Mine(keys, n, size, i), name) == FirstMatch(keys, n, name)
  {
    if n > 0 {
      OneBucket(keys, n - 1, size, name, i);
      var rest := Mine(keys, n - 1, size, i);
      var key := keys[n - 1];
      if key.name.Some? && Bucket(key.hash, size) == i {
        FirstOfLonger(rest, ItemOf(key), name);
      } else {
        assert rest + [] == rest;
      }
    }
  }

  lemma FirstOfLonger(rest: seq<Item>, item: Item, name: seq<Byte>)
    ensures FirstItem(rest + [item], name) ==
      if FirstItem(rest, name).Some? then FirstItem(rest, name)
      else if item.name == name then Some(item.value) else None
  {
    assert (rest + [item])[..|rest|] == rest;
  }

  lemma OwnBucket(keys: seq<Key>, size: nat, name: seq<Byte>)
    requires size > 0 && Hashed(keys)
    ensures FirstItem(Mine(keys, |keys|, size, Bucket(HashOf(name), size)), name) == FirstMatch(keys, |keys|, name)
  {
    OneBucket(keys, |keys|, size, name, Bucket(HashOf(name), size));
  }
}
