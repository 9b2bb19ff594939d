/** The conversion cache: a table keyed by conversion kind and hash code, in which
    a colliding input evicts the one before it.  The hash functions are arbitrary,
    so collisions are as frequent as an adversary likes. */
module CacheTable {
  import opened Operators
  import opened ByteStrings

  datatype CacheType =
    | IntType | WideType | DoubleType | BigintType | BoolType | SubexprType
    | StringType | ListType | CommandType | DictType | BufferType

  datatype Key = Key(cacheType: CacheType, hash: nat)

  /** What a caller has stored in an entry: nothing, the result of a conversion,
      or, in a bin of the buffer pool, a recycled buffer. */
  datatype Payload<V> = Empty | Converted(v: V) | Pooled(buffer: array<byte>, capacity: nat)

  /** Which allocation fails, if any: that of a slot, that of the entry to put into
      it, or that of the copy of a joined string. */
  datatype Memory = Enough | NoSlot | NoEntry | NoString

  /** An entry keyed by a string has no elements; one keyed by a list has no data
      until the list has been joined. */
  datatype Entry<V> = Entry(cacheType: CacheType, elems: seq<Bytes>, original: Bytes, data: Option<Bytes>,
                            payload: Payload<V>)

  /** A slot without an entry is one whose entry was freed or never allocated. */
  type Table<V> = map<Key, Option<Entry<V>>>

  /** The functions the cache is used with: two hash functions, the joining of a
      list, and the conversions, which are deterministic. */
  datatype World<!V> = World(hashBytes: Bytes -> nat, hashList: seq<Bytes> -> nat,
                             join: seq<Bytes> -> Bytes, convert: (CacheType, Bytes) -> V)
  {
    function KeyOf(t: CacheType, z: Bytes): Key {
      Key(t, hashBytes(z))
    }

    function ListKeyOf(t: CacheType, es: seq<Bytes>): Key {
      Key(t, hashList(es))
    }

    /** The string an entry stands for. */
    function Meaning(e: Entry<V>): Bytes {
      if e.elems == [] then e.original else join(e.elems)
    }
  }

  // ----- The buffer pool's bins

  const POOL_CLASSES: nat := 12

  function ClassSize(i: nat): (size: nat)
    ensures size >= 32
  {
    if i == 0 then 32 else 2 * ClassSize(i - 1)
  }

  /** The size classes. */
  const CLASS_SIZES: seq<nat> := [32, 64, 128, 256, 512, 1024, 2048, 4096, 8192, 16384, 32768, 65536]

  lemma ClassSizes(i: nat)
    requires i < POOL_CLASSES
    ensures |CLASS_SIZES| == POOL_CLASSES && ClassSize(i) == CLASS_SIZES[i]
  {
    assert ClassSize(0) == 32 && ClassSize(1) == 64 && ClassSize(2) == 128 && ClassSize(3) == 256;
    assert ClassSize(4) == 512 && ClassSize(5) == 1024 && ClassSize(6) == 2048 && ClassSize(7) == 4096;
    assert ClassSize(8) == 8192 && ClassSize(9) == 16384 && ClassSize(10) == 32768 && ClassSize(11) == 65536;
  }

  /** A request for nothing is served like a request for one byte. */
  function AtLeastOne(n: nat): nat {
    if n == 0 then 1 else n
  }

  /** The name of a bin. */
  function PoolKey(i: nat): Bytes
    requires i < POOL_CLASSES
  {
    [0, 80, (48 + i / 10) as byte, (48 + i % 10) as byte]
  }

  lemma PoolKeyInjective(i: nat, j: nat)
    requires i < POOL_CLASSES && j < POOL_CLASSES && PoolKey(i) == PoolKey(j)
    ensures i == j
  {
    assert PoolKey(i)[2] == PoolKey(j)[2] && PoolKey(i)[3] == PoolKey(j)[3];
  }

  /** b is the buffer of a bin, of exactly the size of the bin's class. */
  predicate InBin(original: Bytes, b: array<byte>, capacity: nat) {
    exists i: nat :: i < POOL_CLASSES && original == PoolKey(i) && capacity == ClassSize(i) == b.Length
  }

  // ----- The invariant

  ghost predicate GoodPayload<V>(e: Entry<V>) {
    match e.payload
    case Empty => true
    case Converted(_) => e.cacheType != BufferType
    case Pooled(b, capacity) => e.cacheType == BufferType && InBin(e.original, b, capacity)
  }

  /** The entry is where its key says and has its parts in order. */
  ghost predicate GoodEntry<V(!new)>(w: World<V>, k: Key, e: Entry<V>) {
    && e.cacheType == k.cacheType
    && (if e.elems == [] then k == w.KeyOf(k.cacheType, e.original) && e.data == Some(e.original)
        else k == w.ListKeyOf(k.cacheType, e.elems) && e.data == if e.data.None? then None else Some(e.original))
    && (e.data.None? ==> e.original == [])
    && GoodPayload(e)
  }

  /** What clients have stored in the entry is right: the string of a list is its
      join, and a conversion is that of the string the entry stands for. */
  ghost predicate Sincere<V(!new)>(w: World<V>, e: Entry<V>) {
    && (e.elems != [] && e.data.Some? ==> e.original == w.join(e.elems))
    && (e.payload.Converted? ==> e.payload.v == w.convert(e.cacheType, w.Meaning(e)))
  }

  predicate Holds<V>(table: Table<V>, k: Key) {
    k in table && table[k].Some?
  }

  predicate HoldsBuffer<V>(table: Table<V>, k: Key) {
    Holds(table, k) && table[k].value.payload.Pooled?
  }

  function BufferAt<V>(table: Table<V>, k: Key): array<byte>
    requires HoldsBuffer(table, k)
  {
    table[k].value.payload.buffer
  }

  function PooledIn<V>(table: Table<V>): set<array<byte>> {
    set k | k in table && HoldsBuffer(table, k) :: BufferAt(table, k)
  }

  /** Every entry is in order, and no two bins share a buffer. */
  ghost predicate GoodTable<V(!new)>(w: World<V>, table: Table<V>) {
    && (forall k | Holds(table, k) :: GoodEntry(w, k, table[k].value))
    && Separate(table)
  }

  /** Every list under the hash code of the empty string has its string recorded. */
  ghost predicate Settled<V>(w: World<V>, table: Table<V>) {
    forall k | Holds(table, k) && k.hash == w.hashBytes([]) :: table[k].value.data.Some?
  }

  ghost predicate Truthful<V(!new)>(w: World<V>, table: Table<V>) {
    forall k | Holds(table, k) :: Sincere(w, table[k].value)
  }

  // ----- What the operations do to the table

  /** Only slot k may differ. */
  ghost predicate SameElsewhere<V(!new)>(before: Table<V>, after: Table<V>, k: Key) {
    forall j | j != k :: (j in before <==> j in after) && (j in before ==> before[j] == after[j])
  }

  /** After any change to slot k alone, the other slots hold what they held. */
  lemma Elsewhere<V>(table: Table<V>, k: Key, x: Option<Entry<V>>)
    ensures forall j | j != k :: Holds(table[k := x], j) == Holds(table, j)
    ensures forall j | j != k && Holds(table, j) :: table[k := x][j] == table[j]
    ensures forall j | j != k :: HoldsBuffer(table[k := x], j) == HoldsBuffer(table, j)
  {
  }

  ghost predicate Separate<V>(table: Table<V>) {
    forall j, k | HoldsBuffer(table, j) && HoldsBuffer(table, k) && BufferAt(table, j) == BufferAt(table, k) :: j == k
  }

  lemma PutSeparate<V>(table: Table<V>, k: Key, e: Entry<V>)
    requires Separate(table)
    requires e.payload.Pooled? ==> forall j | HoldsBuffer(table, j) && j != k :: BufferAt(table, j) != e.payload.buffer
    ensures Separate(table[k := Some(e)])
  {
    var t := table[k := Some(e)];
    Elsewhere(table, k, Some(e));
    forall i, j | HoldsBuffer(t, i) && HoldsBuffer(t, j) && BufferAt(t, i) == BufferAt(t, j)
      ensures i == j
    {
      if i != k {
        assert HoldsBuffer(table, i) && BufferAt(t, i) == BufferAt(table, i);
      }
      if j != k {
        assert HoldsBuffer(table, j) && BufferAt(t, j) == BufferAt(table, j);
      }
    }
  }

  lemma PutGood<V(!new)>(w: World<V>, table: Table<V>, k: Key, e: Entry<V>)
    requires GoodTable(w, table) && GoodEntry(w, k, e)
    requires e.payload.Pooled? ==> forall j | HoldsBuffer(table, j) && j != k :: BufferAt(table, j) != e.payload.buffer
    ensures GoodTable(w, table[k := Some(e)])
  {
    PutSeparate(table, k, e);
    Elsewhere(table, k, Some(e));
  }

  lemma DropGood<V(!new)>(w: World<V>, table: Table<V>, k: Key)
    requires GoodTable(w, table)
    ensures GoodTable(w, table[k := None])
  {
    var t := table[k := None];
    Elsewhere(table, k, None);
    forall i, j | HoldsBuffer(t, i) && HoldsBuffer(t, j) && BufferAt(t, i) == BufferAt(t, j)
      ensures i == j
    {
      assert HoldsBuffer(table, i) && HoldsBuffer(table, j);
    }
  }

  /** A slot without an entry can go. */
  lemma ForgetGood<V(!new)>(w: World<V>, table: Table<V>, k: Key)
    requires GoodTable(w, table) && !Holds(table, k)
    ensures GoodTable(w, table - {k}) && PooledIn(table - {k}) == PooledIn(table)
  {
    var t := table - {k};
    assert forall j :: Holds(t, j) == Holds(table, j);
    assert forall j :: HoldsBuffer(t, j) == HoldsBuffer(table, j);
    assert forall j | HoldsBuffer(t, j) :: BufferAt(t, j) == BufferAt(table, j);
  }

  /** The buffers in the pool after slot k has been emptied. */
  lemma DropPooled<V(!new)>(w: World<V>, table: Table<V>, k: Key)
    requires GoodTable(w, table)
    ensures PooledIn(table[k := None]) == PooledIn(table) - (if HoldsBuffer(table, k) then {BufferAt(table, k)} else {})
  {
    var t := table[k := None];
    forall j | HoldsBuffer(t, j)
      ensures HoldsBuffer(table, j) && BufferAt(t, j) == BufferAt(table, j) && j != k
    {
    }
    forall j | HoldsBuffer(table, j) && j != k
      ensures HoldsBuffer(t, j) && BufferAt(t, j) == BufferAt(table, j)
    {
    }
  }

  /** The buffers in the pool after an entry has been put into slot k, which held
      no buffer. */
  lemma PutPooled<V(!new)>(table: Table<V>, k: Key, e: Entry<V>)
    requires !HoldsBuffer(table, k)
    ensures PooledIn(table[k := Some(e)]) == PooledIn(table) + (if e.payload.Pooled? then {e.payload.buffer} else {})
  {
    var t := table[k := Some(e)];
    forall j | HoldsBuffer(table, j)
      ensures HoldsBuffer(t, j) && BufferAt(t, j) == BufferAt(table, j)
    {
    }
    if e.payload.Pooled? {
      assert HoldsBuffer(t, k) && BufferAt(t, k) == e.payload.buffer;
    }
    forall j | HoldsBuffer(t, j)
      ensures j == k || (HoldsBuffer(table, j) && BufferAt(t, j) == BufferAt(table, j))
    {
    }
  }
}
