/** The cache as the engine runs it, and the buffer pool that lives in its table. */
module Cache {
  import opened Operators
  import opened ByteStrings
  import opened CacheTable
  import opened CacheHistory

  /** A lookup of the empty string meets a list entry whose list has not been
      joined yet: its recorded string has length 0 as well. */
  predicate Confused<V>(table: Table<V>, k: Key, z: Bytes) {
    && z == [] && Holds(table, k)
    && table[k].value.elems != [] && table[k].value.original == [] && table[k].value.data.None?
  }

  class ConversionCache<V(!new)> {
    const world: World<V>
    var table: Table<V>
    /** The buffers clients hold, with the size they asked for. */
    ghost var held: map<array<byte>, nat>
    ghost var freed: set<array<byte>>

    constructor (world: World<V>)
      ensures this.world == world && table == map[] && held == map[] && freed == {}
      ensures Valid()
    {
      this.world, table, held, freed := world, map[], map[], {};
    }

    /** Every entry is what its key says, and every buffer is in one place: with
        a client, in one bin of the pool, or freed. */
    ghost predicate Valid()
      reads this
    {
      && GoodTable(world, table)
      && held.Keys !! PooledIn(table) && held.Keys !! freed && PooledIn(table) !! freed
      && (forall b | b in held :: SizedFor(b, held[b]))
    }

    ghost function Allocated(): set<array<byte>>
      reads this
    {
      held.Keys + PooledIn(table) + freed
    }

    // ----- Entries

    /** The slot of z holds an entry whose recorded string is z. */
    predicate HitsString(table: Table<V>, t: CacheType, z: Bytes) {
      Holds(table, world.KeyOf(t, z)) && table[world.KeyOf(t, z)].value.cacheType == t
      && table[world.KeyOf(t, z)].value.original == z
    }

    /** The slot of es holds an entry for exactly these elements. */
    predicate HitsList(table: Table<V>, t: CacheType, es: seq<Bytes>) {
      Holds(table, world.ListKeyOf(t, es)) && table[world.ListKeyOf(t, es)].value.cacheType == t
      && table[world.ListKeyOf(t, es)].value.elems == es
    }

    /** Frees the entry in slot k and what it owns. */
    method FreeEntry(k: Key)
      requires Valid() && Holds(table, k)
      modifies `table, `freed
      ensures Valid() && table == old(table)[k := None]
      ensures Allocated() == old(Allocated()) && PooledIn(table) <= old(PooledIn(table))
    {
      DropGood(world, table, k);
      DropPooled(world, table, k);
      if table[k].value.payload.Pooled? {
        freed := freed + {table[k].value.payload.buffer};
      }
      table := table[k := None];
    }

    /** Puts an entry without a payload into an empty slot. */
    method NewEntry(k: Key, e: Entry<V>)
      requires Valid() && !Holds(table, k) && GoodEntry(world, k, e) && e.payload.Empty?
      modifies `table
      ensures Valid() && table == old(table)[k := Some(e)]
      ensures Allocated() == old(Allocated()) && PooledIn(table) <= old(PooledIn(table))
    {
      PutGood(world, table, k, e);
      PutPooled(table, k, e);
      table := table[k := Some(e)];
    }

    /** Finds the slot for k, making an empty one if there is none. */
    method Slot(k: Key, memory: Memory) returns (ok: bool)
      requires Valid()
      modifies `table
      ensures Valid() && Allocated() == old(Allocated())
      ensures PooledIn(table) <= old(PooledIn(table))
      ensures ok == (k in old(table) || memory != NoSlot)
      ensures table == if ok && k !in old(table) then old(table)[k := None] else old(table)
    {
      if k in table {
        return true;
      }
      if memory == NoSlot {
        return false;
      }
      DropGood(world, table, k);
      DropPooled(world, table, k);
      table := table[k := None];
      return true;
    }

    /** Looks up or creates the entry for the string z.  Apart from the slot of z
        nothing moves.  What comes back stands for z, unless the lookup is
        confused, which it can see from the slot beforehand. */
    method FindInCache(t: CacheType, z: Bytes, memory: Memory) returns (found: bool)
      requires Valid()
      modifies `table, `freed
      ensures Valid() && Allocated() == old(Allocated())
      ensures PooledIn(table) <= old(PooledIn(table))
      ensures Truthful(world, old(table)) ==> Truthful(world, table)
      ensures SameElsewhere(old(table), table, world.KeyOf(t, z))
      ensures memory.Enough? || memory.NoString? ==> found
      ensures Settled(world, old(table)) ==> Settled(world, table)
      ensures found ==> Holds(table, world.KeyOf(t, z))
      ensures found ==>
        (table[world.KeyOf(t, z)].value.data == Some(z) <==> !Confused(old(table), world.KeyOf(t, z), z))
      ensures found && !Confused(old(table), world.KeyOf(t, z), z) ==> table[world.KeyOf(t, z)].value.original == z
      ensures HitsString(old(table), t, z) ==> found && table == old(table)
      ensures found && !HitsString(old(table), t, z) ==>
        table[world.KeyOf(t, z)].value == Entry(t, [], z, Some(z), Empty)
    {
      var k := world.KeyOf(t, z);
      found := Slot(k, memory);
      if !found {
        return;
      }
      if table[k].Some? {
        var e := table[k].value;
        if e.cacheType == t && e.original == z {
          return true;
        }
        FreeEntry(k);
      }
      if memory == NoEntry {
        return false;
      }
      NewEntry(k, Entry(t, [], z, Some(z), Empty));
    }

    /** Looks up or creates the entry for the list es.  The entry that comes back is
        for exactly these elements, and its string, once set, is their join. */
    method FindListInCache(t: CacheType, es: seq<Bytes>, memory: Memory) returns (found: bool, k: Key)
      requires Valid() && world.join([]) == []
      modifies `table, `freed
      ensures Valid() && Allocated() == old(Allocated())
      ensures PooledIn(table) <= old(PooledIn(table))
      ensures Truthful(world, old(table)) ==> Truthful(world, table)
      ensures k == if es == [] then world.KeyOf(t, []) else world.ListKeyOf(t, es)
      ensures SameElsewhere(old(table), table, k)
      ensures memory.Enough? || memory.NoString? ==> found
      ensures Settled(world, old(table)) && (es == [] || k.hash != world.hashBytes([])) ==> Settled(world, table)
      ensures found ==> Holds(table, k)
      ensures found && es != [] ==> table[k].value.elems == es
      ensures es != [] && HitsList(old(table), t, es) ==> found && table == old(table)
      ensures es != [] && found && !HitsList(old(table), t, es) ==> table[k].value == Entry(t, es, [], None, Empty)
      ensures found && es != [] ==> world.Meaning(table[k].value) == world.join(es)
      ensures found && es == [] && Truthful(world, old(table)) && !Confused(old(table), k, []) ==>
        world.Meaning(table[k].value) == world.join(es)
      ensures es == [] && HitsString(old(table), t, []) ==> found && table == old(table)
      ensures es == [] && found && !HitsString(old(table), t, []) ==>
        table[k].value == Entry(t, [], [], Some([]), Empty)
    {
      if es == [] {
        k := world.KeyOf(t, []);
        found := FindInCache(t, [], memory);
        return;
      }
      k := world.ListKeyOf(t, es);
      found := Slot(k, memory);
      if !found {
        return;
      }
      if table[k].Some? {
        var e := table[k].value;
        if e.cacheType == t && e.elems == es {
          return true, k;
        }
        FreeEntry(k);
      }
      if memory == NoEntry {
        return false, k;
      }
      NewEntry(k, Entry(t, es, [], None, Empty));
    }

    /** Records a string for a list entry, unless it has one already.  Whether it is
        the right one is up to the caller. */
    method SetCacheString(k: Key, s: Bytes, memory: Memory)
      requires Valid() && Holds(table, k)
      modifies `table
      ensures Valid() && Allocated() == old(Allocated())
      ensures PooledIn(table) <= old(PooledIn(table))
      ensures Settled(world, old(table)) ==> Settled(world, table)
      ensures Truthful(world, old(table)) && s == world.join(old(table)[k].value.elems) ==> Truthful(world, table)
      ensures table == if old(table)[k].value.data.None? && memory == Enough
                       then old(table)[k := Some(old(table)[k].value.(original := s, data := Some(s)))]
                       else old(table)
    {
      var e := table[k].value;
      if e.data.Some? || memory != Enough {
        return;
      }
      ReplaceEntry(k, e.(original := s, data := Some(s)));
    }

    /** Changes an entry without touching its payload's buffer. */
    method ReplaceEntry(k: Key, e: Entry<V>)
      requires Valid() && Holds(table, k) && GoodEntry(world, k, e)
      requires !HoldsBuffer(table, k) && !e.payload.Pooled?
      modifies `table
      ensures Valid() && table == old(table)[k := Some(e)] && Allocated() == old(Allocated())
      ensures PooledIn(table) <= old(PooledIn(table))
    {
      PutGood(world, table, k, e);
      PutPooled(table, k, e);
      table := table[k := Some(e)];
    }

    /** Stores the result of a conversion in an entry. */
    method Fill(k: Key, v: V)
      requires Valid() && Holds(table, k) && k.cacheType != BufferType
      modifies `table
      ensures Valid() && Allocated() == old(Allocated())
      ensures PooledIn(table) <= old(PooledIn(table))
      ensures Settled(world, old(table)) ==> Settled(world, table)
      ensures Truthful(world, old(table)) && v == world.convert(k.cacheType, world.Meaning(old(table)[k].value))
          ==> Truthful(world, table)
      ensures table == old(table)[k := Some(old(table)[k].value.(payload := Converted(v)))]
    {
      ReplaceEntry(k, table[k].value.(payload := Converted(v)));
    }

    // ----- What clients see

    /** The result stored for z, if any. */
    function Stored(table: Table<V>, t: CacheType, z: Bytes): Option<V> {
      if HitsString(table, t, z) && table[world.KeyOf(t, z)].value.payload.Converted?
      then Some(table[world.KeyOf(t, z)].value.payload.v) else None
    }

    /** A conversion through the cache: the stored result when the entry has one,
        a fresh result otherwise.  As long as what is stored is right and the lookup
        is not confused, it is the result without a cache, whatever was looked up,
        filled, removed or evicted before. */
    method Convert(t: CacheType, z: Bytes, memory: Memory) returns (v: V)
      requires Valid() && t != BufferType
      modifies `table, `freed
      ensures Valid() && Allocated() == old(Allocated())
      ensures PooledIn(table) <= old(PooledIn(table))
      ensures Settled(world, old(table)) ==> Settled(world, table)
      ensures v == if Stored(old(table), t, z).Some? then Stored(old(table), t, z).value else world.convert(t, z)
      ensures Truthful(world, old(table)) && !Confused(old(table), world.KeyOf(t, z), z) ==>
        v == world.convert(t, z) && Truthful(world, table)
      ensures memory.Enough? || memory.NoString? || HitsString(old(table), t, z) ==> Stored(table, t, z) == Some(v)
      ensures SameElsewhere(old(table), table, world.KeyOf(t, z))
    {
      var k := world.KeyOf(t, z);
      var found := FindInCache(t, z, memory);
      if !found {
        return world.convert(t, z);
      }
      if table[k].value.payload.Converted? {
        return table[k].value.payload.v;
      }
      v := world.convert(t, z);
      Fill(k, v);
    }

    /** The string of a list through the cache. */
    method Joined(t: CacheType, es: seq<Bytes>, memory: Memory) returns (s: Bytes)
      requires Valid() && world.join([]) == []
      modifies `table, `freed
      ensures Valid() && Allocated() == old(Allocated())
      ensures PooledIn(table) <= old(PooledIn(table))
      ensures Settled(world, old(table)) && (es != [] && world.hashList(es) == world.hashBytes([]) ==> memory == Enough)
          ==> Settled(world, table)
      ensures s == if es != [] && HitsList(old(table), t, es) && old(table)[world.ListKeyOf(t, es)].value.data.Some?
                   then old(table)[world.ListKeyOf(t, es)].value.data.value else world.join(es)
      ensures Truthful(world, old(table)) ==> s == world.join(es)
      ensures Truthful(world, old(table)) && (es == [] ==> !Confused(old(table), world.KeyOf(t, []), [])) ==>
        Truthful(world, table)
      ensures var k := world.KeyOf(t, []);
              es == [] && Confused(old(table), k, []) && memory == Enough ==>
                table == old(table)[k := Some(old(table)[k].value.(data := Some([])))]
      ensures var k := if es == [] then world.KeyOf(t, []) else world.ListKeyOf(t, es);
              && SameElsewhere(old(table), table, k)
              && (memory == Enough ==>
                   Holds(table, k) && table[k].value.data == Some(s) && (es != [] ==> table[k].value.elems == es))
    {
      var found, k := FindListInCache(t, es, memory);
      if !found {
        return world.join(es);
      }
      if table[k].value.data.Some? {
        return table[k].value.data.value;
      }
      s := world.join(es);
      SetCacheString(k, s, memory);
    }

    /** Fills the entry of z, if it is still there. */
    method FillLater(t: CacheType, z: Bytes)
      requires Valid() && t != BufferType
      modifies `table
      ensures Valid() && Allocated() == old(Allocated())
      ensures PooledIn(table) <= old(PooledIn(table))
      ensures Settled(world, old(table)) ==> Settled(world, table)
      ensures Truthful(world, old(table)) && !Confused(old(table), world.KeyOf(t, z), z) ==> Truthful(world, table)
      ensures HitsString(old(table), t, z) ==> Stored(table, t, z) == Some(world.convert(t, z))
      ensures !HitsString(old(table), t, z) ==> table == old(table)
    {
      if HitsString(table, t, z) {
        Fill(world.KeyOf(t, z), world.convert(t, z));
      }
    }

    /** Records the string of the list es, if its entry is still there. */
    method RecordLater(t: CacheType, es: seq<Bytes>, memory: Memory)
      requires Valid() && es != []
      modifies `table
      ensures Valid() && Allocated() == old(Allocated())
      ensures PooledIn(table) <= old(PooledIn(table))
      ensures Settled(world, old(table)) ==> Settled(world, table)
      ensures Truthful(world, old(table)) ==> Truthful(world, table)
      ensures !HitsList(old(table), t, es) ==> table == old(table)
      ensures var k := world.ListKeyOf(t, es);
              HitsList(old(table), t, es) && memory == Enough ==>
                && HitsList(table, t, es)
                && table[k].value.data
                  == if old(table)[k].value.data.Some? then old(table)[k].value.data else Some(world.join(es))
    {
      if HitsList(table, t, es) {
        SetCacheString(world.ListKeyOf(t, es), world.join(es), memory);
      }
    }

    method RemoveFromCache(t: CacheType, z: Bytes)
      requires Valid()
      modifies `table, `freed
      ensures Valid() && Allocated() == old(Allocated())
      ensures PooledIn(table) <= old(PooledIn(table))
      ensures Truthful(world, old(table)) ==> Truthful(world, table)
      ensures Settled(world, old(table)) ==> Settled(world, table)
      ensures !Holds(table, world.KeyOf(t, z)) && SameElsewhere(old(table), table, world.KeyOf(t, z))
    {
      var k := world.KeyOf(t, z);
      if k in table && table[k].Some? {
        FreeEntry(k);
        ForgetGood(world, table, k);
        table := table - {k};
      }
    }

    method ClearCache()
      requires Valid()
      modifies `table, `freed
      ensures Valid() && Allocated() == old(Allocated())
      ensures table == map[] && freed == old(freed) + old(PooledIn(table))
    {
      var keys := table.Keys;
      ghost var all := Allocated();
      while keys != {}
        invariant Valid() && Allocated() == all && table.Keys == old(table).Keys
        invariant forall k | Holds(table, k) :: k in keys
        invariant keys <= table.Keys
        decreases keys
      {
        var k :| k in keys;
        if table[k].Some? {
          FreeEntry(k);
        }
        keys := keys - {k};
      }
      assert PooledIn(table) == {};
      table := map[];
      assert PooledIn(table) == {};
    }

    // ----- The buffer pool

    /** Takes the recycled buffer out of the bin in slot k. */
    method PopBuffer(k: Key) returns (b: array<byte>)
      requires Valid() && HoldsBuffer(table, k)
      modifies `table
      ensures b == old(BufferAt(table, k)) && table == old(table)[k := Some(old(table)[k].value.(payload := Empty))]
      ensures GoodTable(world, table) && PooledIn(table) == old(PooledIn(table)) - {b}
    {
      var e := table[k].value;
      b := e.payload.buffer;
      DropGood(world, table, k);
      DropPooled(world, table, k);
      ghost var dropped := table[k := None];
      PutGood(world, dropped, k, e.(payload := Empty));
      PutPooled(dropped, k, e.(payload := Empty));
      table := table[k := Some(e.(payload := Empty))];
      assert table == dropped[k := Some(e.(payload := Empty))];
    }

    /** Puts the buffer b into the empty bin in slot k. */
    method PushBuffer(k: Key, b: array<byte>, capacity: nat)
      requires GoodTable(world, table) && Holds(table, k) && table[k].value.payload.Empty?
      requires k.cacheType == BufferType && InBin(table[k].value.original, b, capacity)
      requires b !in PooledIn(table)
      modifies `table
      ensures table == old(table)[k := Some(old(table)[k].value.(payload := Pooled(b, capacity)))]
      ensures GoodTable(world, table) && PooledIn(table) == old(PooledIn(table)) + {b}
    {
      var e := table[k].value.(payload := Pooled(b, capacity));
      forall j | HoldsBuffer(table, j) && j != k
        ensures BufferAt(table, j) != b
      {
        assert BufferAt(table, j) in PooledIn(table);
      }
      PutGood(world, table, k, e);
      PutPooled(table, k, e);
      table := table[k := Some(e)];
    }

    /** Bin i has a recycled buffer. */
    predicate BinHolds(table: Table<V>, i: nat)
      requires i < POOL_CLASSES
    {
      HoldsBuffer(table, BinKey(i)) && table[BinKey(i)].value.original == PoolKey(i)
    }

    function BinKey(i: nat): Key
      requires i < POOL_CLASSES
    {
      world.KeyOf(BufferType, PoolKey(i))
    }

    /** What a bin's entry says about its buffer. */
    lemma BinBuffer(e: Entry<V>, k: Key, i: nat)
      requires i < POOL_CLASSES && GoodEntry(world, k, e) && e.original == PoolKey(i) && e.payload.Pooled?
      ensures e.payload.capacity == ClassSize(i) == e.payload.buffer.Length
    {
      var j: nat :|
        j < POOL_CLASSES && e.original == PoolKey(j) && e.payload.capacity == ClassSize(j) == e.payload.buffer.Length;
      PoolKeyInjective(i, j);
    }

    /** Hands a buffer that is nowhere else to a client. */
    ghost method HandOut(p: array<byte>, n: nat)
      requires GoodTable(world, table) && SizedFor(p, n)
      requires held.Keys !! PooledIn(table) && held.Keys !! freed && PooledIn(table) !! freed
      requires p !in PooledIn(table) && p !in freed && forall b | b in held :: SizedFor(b, held[b])
      modifies `held
      ensures Valid() && held == old(held)[p := n]
    {
      held := held[p := n];
    }

    lemma ClassSized(p: array<byte>, n: nat, i: nat)
      requires IsClass(i, AtLeastOne(n)) && p.Length == ClassSize(i)
      ensures SizedFor(p, n)
    {
      OneClass(i, AtLeastOne(n));
      if i < POOL_CLASSES - 1 {
        ClassMonotone(i, POOL_CLASSES - 1);
      }
    }

    /** A zeroed buffer of at least n bytes, or null when memory runs out.  The
        buffer was in no other hand: it is new, or it comes out of the pool, and
        whenever the bin of its class has one, that one is used. */
    method BufferAlloc(n: nat, memory: Memory, platform: bool) returns (p: array?<byte>)
      requires Valid()
      modifies this, PooledIn(table)
      ensures Valid()
      ensures PooledIn(table) <= old(PooledIn(table))
      ensures Truthful(world, old(table)) ==> Truthful(world, table)
      ensures Settled(world, old(table)) ==> Settled(world, table)
      ensures platform ==> p != null
      ensures p == null ==> held == old(held) && Allocated() == old(Allocated())
      ensures p != null ==>
        && held == old(held)[p := n] && p !in old(held) && p !in old(freed)
        && Allocated() == old(Allocated()) + {p}
        && p.Length >= AtLeastOne(n) && (forall i | 0 <= i < p.Length :: p[i] == 0)
        && RightSize(p.Length, n)
        && (p in old(PooledIn(table)) || fresh(p))
      ensures forall i: nat | IsClass(i, AtLeastOne(n)) && BinHolds(old(table), i) ::
        p == BufferAt(old(table), BinKey(i))
    {
      p := Obtain(n, memory, platform);
      if p != null {
        SizedExactly(p, n);
        HandOut(p, n);
      }
    }

    /** A buffer for n bytes that no client holds yet. */
    method Obtain(n: nat, memory: Memory, platform: bool) returns (p: array?<byte>)
      requires Valid()
      modifies `table, `freed, PooledIn(table)
      ensures GoodTable(world, table) && held.Keys !! PooledIn(table) && held.Keys !! freed && PooledIn(table) !! freed
      ensures PooledIn(table) <= old(PooledIn(table))
      ensures Truthful(world, old(table)) ==> Truthful(world, table)
      ensures Settled(world, old(table)) ==> Settled(world, table)
      ensures platform ==> p != null
      ensures p == null ==> Allocated() == old(Allocated())
      ensures p != null ==>
        && p !in PooledIn(table) && p !in freed && p !in held && p !in old(freed)
        && Allocated() + {p} == old(Allocated()) + {p}
        && SizedFor(p, n) && p.Length >= AtLeastOne(n) && (forall j | 0 <= j < p.Length :: p[j] == 0)
        && (p in old(PooledIn(table)) || fresh(p))
      ensures forall i: nat | IsClass(i, AtLeastOne(n)) && BinHolds(old(table), i) ::
        p == BufferAt(old(table), BinKey(i))
    {
      var pooled, i, capacity := BufferClassIndex(AtLeastOne(n));
      if !pooled {
        p := NewBuffer(AtLeastOne(n), platform);
        AboveAllClasses(AtLeastOne(n));
        return;
      }
      p := AllocFromBin(n, i, capacity, memory, platform);
      if p != null {
        ClassSized(p, n, i);
      }
      OneClass(i, AtLeastOne(n));
    }

    lemma AboveAllClasses(n: nat)
      requires n > ClassSize(POOL_CLASSES - 1)
      ensures forall i: nat :: !IsClass(i, n)
    {
      forall i: nat | i < POOL_CLASSES - 1
        ensures ClassSize(i) < ClassSize(POOL_CLASSES - 1)
      {
        ClassMonotone(i, POOL_CLASSES - 1);
      }
    }

    method AllocFromBin(n: nat, i: nat, capacity: nat, memory: Memory, platform: bool) returns (p: array?<byte>)
      requires Valid() && IsClass(i, AtLeastOne(n)) && capacity == ClassSize(i)
      modifies `table, `freed, PooledIn(table)
      ensures GoodTable(world, table) && held.Keys !! PooledIn(table) && held.Keys !! freed && PooledIn(table) !! freed
      ensures PooledIn(table) <= old(PooledIn(table))
      ensures Truthful(world, old(table)) ==> Truthful(world, table)
      ensures Settled(world, old(table)) ==> Settled(world, table)
      ensures platform ==> p != null
      ensures p == null ==> Allocated() == old(Allocated())
      ensures p != null ==>
        && p !in PooledIn(table) && p !in freed && p !in held && p !in old(freed)
        && Allocated() + {p} == old(Allocated()) + {p}
        && p.Length == ClassSize(i) && (forall j | 0 <= j < p.Length :: p[j] == 0)
        && (p in old(PooledIn(table)) || fresh(p))
      ensures BinHolds(old(table), i) ==> p == BufferAt(old(table), BinKey(i))
    {
      var found := FindInCache(BufferType, PoolKey(i), memory);
      var k := BinKey(i);
      if found && table[k].value.payload.Pooled? {
        BinBuffer(table[k].value, k, i);
        if table[k].value.payload.capacity >= AtLeastOne(n) {
          p := PopBuffer(k);
          Zero(p);
          return;
        }
        assert false;
      }
      p := NewBuffer(capacity, platform);
    }

    /** Takes a buffer back from a client who asked for n bytes: it goes into the
        bin of its class when that has room, otherwise it is freed. */
    method BufferFree(p: array?<byte>, n: nat, memory: Memory)
      requires Valid() && (p != null ==> p in held && held[p] == n)
      modifies this
      ensures Valid() && Allocated() == old(Allocated())
      ensures Settled(world, old(table)) ==> Settled(world, table)
      ensures Truthful(world, old(table)) ==> Truthful(world, table)
      ensures PooledIn(table) <= old(PooledIn(table)) + (if p == null then {} else {p})
      ensures p == null ==> held == old(held) && table == old(table) && freed == old(freed)
      ensures p != null ==> held == old(held) - {p} && (p in PooledIn(table) || p in freed)
      ensures p != null && memory == Enough ==>
        forall i: nat | IsClass(i, AtLeastOne(n)) ::
          BinHolds(table, i) &&
          BufferAt(table, BinKey(i)) == if BinHolds(old(table), i) then BufferAt(old(table), BinKey(i)) else p
    {
      if p == null {
        return;
      }
      var pooled, i, capacity := BufferClassIndex(AtLeastOne(n));
      if !pooled {
        AboveAllClasses(AtLeastOne(n));
        TakeBack(p);
        freed := freed + {p};
        return;
      }
      OneClass(i, AtLeastOne(n));
      TakeBack(p);
      Recycle(p, i, capacity, memory);
    }

    /** Puts a buffer of class i that nobody holds into its bin, or frees it. */
    method Recycle(p: array<byte>, i: nat, capacity: nat, memory: Memory)
      requires Valid() && p !in Allocated()
      requires i < POOL_CLASSES && capacity == ClassSize(i) == p.Length
      modifies `table, `freed
      ensures Valid() && Allocated() == old(Allocated()) + {p} && p !in held
      ensures Settled(world, old(table)) ==> Settled(world, table)
      ensures Truthful(world, old(table)) ==> Truthful(world, table)
      ensures PooledIn(table) <= old(PooledIn(table)) + {p}
      ensures memory == Enough ==>
        BinHolds(table, i) &&
          BufferAt(table, BinKey(i)) == if BinHolds(old(table), i) then BufferAt(old(table), BinKey(i)) else p
    {
      var found := FindInCache(BufferType, PoolKey(i), memory);
      var k := BinKey(i);
      if found && !table[k].value.payload.Pooled? {
        FillBin(i, p, capacity);
      } else {
        freed := freed + {p};
      }
    }

    /** Puts the buffer p into bin i, whose entry holds none. */
    method FillBin(i: nat, p: array<byte>, capacity: nat)
      requires Valid() && p !in Allocated() && i < POOL_CLASSES && capacity == ClassSize(i) == p.Length
      requires Holds(table, BinKey(i)) && !table[BinKey(i)].value.payload.Pooled?
      requires table[BinKey(i)].value.original == PoolKey(i) && table[BinKey(i)].value.data == Some(PoolKey(i))
      modifies `table
      ensures Valid() && Allocated() == old(Allocated()) + {p} && PooledIn(table) == old(PooledIn(table)) + {p}
      ensures table == old(table)[BinKey(i) := Some(old(table)[BinKey(i)].value.(payload := Pooled(p, capacity)))]
    {
      BinEmpty(table[BinKey(i)].value, BinKey(i), i);
      assert InBin(PoolKey(i), p, capacity);
      PushBuffer(BinKey(i), p, capacity);
    }

    /** Takes a buffer out of a client's hands; it is in no place until it is put
        into a bin or freed. */
    ghost method TakeBack(p: array<byte>)
      requires Valid() && p in held
      modifies `held
      ensures Valid() && held == old(held) - {p}
      ensures p !in Allocated() && Allocated() + {p} == old(Allocated())
    {
      held := held - {p};
    }

    lemma OneClass(i: nat, n: nat)
      requires IsClass(i, n)
      ensures forall j: nat | IsClass(j, n) :: j == i
    {
      forall j: nat | IsClass(j, n)
        ensures j == i
      {
        ClassUnique(i, j, n);
      }
    }

    /** A bin without a buffer holds nothing at all. */
    lemma BinEmpty(e: Entry<V>, k: Key, i: nat)
      requires i < POOL_CLASSES && k == BinKey(i) && GoodEntry(world, k, e)
      requires e.original == PoolKey(i) && !e.payload.Pooled?
      requires e.data == Some(PoolKey(i))
      ensures e.payload.Empty?
    {
    }

    // ----- Whole runs

    /** What an operation does to the buffers in clients' hands; p is the buffer it
        gives back. */
    twostate predicate Moves(op: Op, new a: Answer<V>, p: array?<byte>)
      reads this, if a.Buffer? && a.p != null then {a.p} else {}
    {
      if op.AllocOp? && a.Buffer? && a.p != null then
        && a.p !in old(held) && held == old(held)[a.p := op.n] && (forall i | 0 <= i < a.p.Length :: a.p[i] == 0)
        && Allocated() == old(Allocated()) + {a.p}
      else
        && held == (if op.FreeOp? && p != null then old(held) - {p} else old(held))
        && Allocated() == old(Allocated())
    }

    /** Carries out one operation; p is the buffer to give back and n its size. */
    method RunOne(op: Op, o: Outcome, p: array?<byte>, n: nat) returns (a: Answer<V>)
      requires Valid() && world.join([]) == [] && Truthful(world, table) && Settled(world, table)
      requires !Unsettling(world, op, o.memory) && Convertible(op)
      requires op.FreeOp? && p != null ==> p in held && held[p] == n
      modifies this, PooledIn(table)
      ensures Valid() && Truthful(world, table) && Settled(world, table)
      ensures Agrees(world, op, o, a) && Moves(op, a, p)
      ensures a.Buffer? && a.p != null ==> a.p in old(PooledIn(table)) || fresh(a.p)
      ensures PooledIn(table) <= old(PooledIn(table)) + (if op.FreeOp? && p != null then {p} else {})
    {
      match op
      case ConvertOp(t, z) =>
        var v := Convert(t, z, o.memory);
        a := Conversion(v);
      case JoinOp(t, es) =>
        var s := Joined(t, es, o.memory);
        a := Text(s);
      case FindOp(t, z) =>
        var found := FindInCache(t, z, o.memory);
        a := Found(if found then table[world.KeyOf(t, z)].value.data else None);
      case FindListOp(t, es) =>
        var found, k := FindListInCache(t, es, o.memory);
        a := Found(if found then table[k].value.data else None);
      case FillOp(t, z) =>
        FillLater(t, z);
        a := Done;
      case RecordOp(t, es) =>
        if es != [] {
          RecordLater(t, es, o.memory);
        }
        a := Done;
      case RemoveOp(t, z) =>
        RemoveFromCache(t, z);
        a := Done;
      case ClearOp =>
        ClearCache();
        a := Done;
      case AllocOp(size) =>
        var b := BufferAlloc(size, o.memory, o.platform);
        a := Buffer(b);
      case FreeOp(_) =>
        BufferFree(p, n, o.memory);
        a := Done;
    }

    /** Carries out the operations one after the other, on whatever the cache
        already holds.  Every answer is one that a program without cache and pool
        could give, no buffer is in two hands at a time, and none is lost. */
    method Run(ops: seq<Op>, outcomes: seq<Outcome>)
      returns (answers: seq<Answer<V>>, ghost owner: map<array<byte>, nat>)
      requires Valid() && world.join([]) == [] && Truthful(world, table) && Settled(world, table)
      requires Permitted(world, ops, outcomes)
      modifies this, PooledIn(table)
      ensures Valid() && Truthful(world, table) && Settled(world, table)
      ensures |answers| == |ops| && AllAgree(world, ops, outcomes, answers)
      ensures NeverShared(ops, answers)
      ensures Tracks(ops, answers, owner, old(held), held)
      ensures Allocated() == old(Allocated()) + Handed(ops, answers)
    {
      answers, owner := [], map[];
      for k := 0 to |ops|
        invariant Valid() && Truthful(world, table) && Settled(world, table)
        invariant |answers| == k && AllAgree(world, ops, outcomes, answers)
        invariant NeverShared(ops, answers) && Tracks(ops, answers, owner, old(held), held)
        invariant Allocated() == old(Allocated()) + Handed(ops, answers)
        invariant fresh(Handed(ops, answers) - old(PooledIn(table)))
        invariant PooledIn(table) <= old(PooledIn(table)) + Handed(ops, answers)
      {
        var a;
        a, owner := Step(ops, outcomes, answers, old(held), owner);
        answers := answers + [a];
      }
    }

    /** The buffer that the next operation of a run gives back, and its size. */
    method GivenUp(ops: seq<Op>, answers: seq<Answer<V>>, ghost before: map<array<byte>, nat>,
                   ghost owner: map<array<byte>, nat>)
      returns (p: array?<byte>, n: nat)
      requires FreesOnce(ops) && |answers| < |ops| && Tracks(ops, answers, owner, before, held)
      requires forall i | 0 <= i < |answers| && ops[i].AllocOp? :: answers[i].Buffer?
      ensures !ops[|answers|].FreeOp? ==> p == null
      ensures ops[|answers|].FreeOp? ==>
        var i := ops[|answers|].i;
        if p == null then !Outstanding(ops, answers, i, |answers|)
        else Outstanding(ops, answers, i, |answers|) && p == answers[i].p && p in Handed(ops, answers)
             && p in held && held[p] == n
    {
      p, n := null, 0;
      var op := ops[|answers|];
      if op.FreeOp? {
        p, n := answers[op.i].p, ops[op.i].n;
        if p != null {
          GivenBack(ops, answers, |answers|);
          InHanded(ops, answers, op.i);
        }
      }
    }

    /** The next operation of a run. */
    method Step(ops: seq<Op>, outcomes: seq<Outcome>, answers: seq<Answer<V>>, ghost before: map<array<byte>, nat>,
                ghost owner: map<array<byte>, nat>)
      returns (a: Answer<V>, ghost owner': map<array<byte>, nat>)
      requires Valid() && world.join([]) == [] && Truthful(world, table) && Settled(world, table)
      requires Permitted(world, ops, outcomes) && |answers| < |ops| && AllAgree(world, ops, outcomes, answers)
      requires NeverShared(ops, answers) && Tracks(ops, answers, owner, before, held)
      modifies this, PooledIn(table)
      ensures Valid() && Truthful(world, table) && Settled(world, table)
      ensures AllAgree(world, ops, outcomes, answers + [a])
      ensures Handed(ops, answers + [a]) == Handed(ops, answers) + Got(ops[|answers|], a)
      ensures NeverShared(ops, answers + [a]) && Tracks(ops, answers + [a], owner', before, held)
      ensures Allocated() == old(Allocated()) + Got(ops[|answers|], a)
      ensures fresh(Got(ops[|answers|], a) - old(PooledIn(table)))
      ensures PooledIn(table) <= old(PooledIn(table)) + Handed(ops, answers)
    {
      var p, n := GivenUp(ops, answers, before, owner);
      a := RunOne(ops[|answers|], outcomes[|answers|], p, n);
      HandedMore(ops, answers, a);
      AgreeMore(world, ops, outcomes, answers, a);
      StaysUnshared(ops, answers, a, owner, before, old(held));
      owner' := TrackNext(ops, answers, a, owner, before, old(held), p, held);
    }
  }

  /** With a hash code shared by a list and the empty string, a lookup of the
      empty string hands back the entry of the list, which has no string. */
  method ConfusedLookup() returns (found: bool, data: Option<Bytes>)
    ensures found && data == None
  {
    var c := new ConversionCache<int>(World(_ => 0, _ => 0, es => if es == [] then [] else [123, 125], (_, _) => 0));
    var listed, k := c.FindListInCache(StringType, [[]], Enough);
    assert Confused(c.table, k, []);
    found := c.FindInCache(StringType, [], Enough);
    data := c.table[k].value.data;
  }

  /** With such a hash code, joining the empty list between looking a list up and
      joining it records the empty string for that list, and its join comes out wrong. */
  method WrongJoin() returns (s: Bytes, right: Bytes)
    ensures s == [] && right == [123, 125]
  {
    var w: World<int> := World(_ => 0, _ => 0, es => if es == [] then [] else [123, 125], (_, _) => 0);
    var c := new ConversionCache<int>(w);
    var listed, k := c.FindListInCache(StringType, [[]], Enough);
    var empty := c.Joined(StringType, [], Enough);
    s := c.Joined(StringType, [[]], Enough);
    right := w.join([[]]);
  }

  // ----- Size classes

  predicate IsClass(i: nat, n: nat) {
    && i < POOL_CLASSES && n <= ClassSize(i)
    && (i > 0 ==> ClassSize(i - 1) < n)
  }

  /** b is what a request for n bytes gets: a whole size class, or exactly n when
      n is beyond the largest class. */
  ghost predicate SizedFor(b: array<byte>, n: nat) {
    if AtLeastOne(n) > ClassSize(POOL_CLASSES - 1) then b.Length == n
    else forall i: nat | IsClass(i, AtLeastOne(n)) :: b.Length == ClassSize(i)
  }

  /** The size classes double. */
  lemma {:induction false} ClassMonotone(i: nat, j: nat)
    requires i < j
    ensures ClassSize(i) < ClassSize(j)
  {
    if i + 1 < j {
      ClassMonotone(i, j - 1);
    }
  }

  /** A request belongs to at most one class. */
  lemma ClassUnique(i: nat, j: nat, n: nat)
    requires IsClass(i, n) && IsClass(j, n)
    ensures i == j
  {
    if i < j - 1 {
      ClassMonotone(i, j - 1);
    } else if j < i - 1 {
      ClassMonotone(j, i - 1);
    }
  }

  /** The smallest class for n bytes; pooled is false when every class is too small. */
  method BufferClassIndex(n: nat) returns (pooled: bool, i: nat, capacity: nat)
    requires n > 0
    ensures pooled <==> n <= ClassSize(POOL_CLASSES - 1)
    ensures pooled ==> IsClass(i, n) && capacity == ClassSize(i)
    ensures pooled <==> n <= 65536
    ensures pooled ==> i < |CLASS_SIZES| && capacity == CLASS_SIZES[i] && n <= capacity
    ensures pooled && i > 0 ==> CLASS_SIZES[i-1] < n
  {
    capacity, i := 32, 0;
    while capacity < n && i < POOL_CLASSES - 1
      invariant i < POOL_CLASSES && capacity == ClassSize(i)
      invariant i > 0 ==> ClassSize(i - 1) < n
    {
      capacity := capacity * 2;
      i := i + 1;
    }
    pooled := capacity >= n;
    if i < POOL_CLASSES - 1 {
      ClassMonotone(i, POOL_CLASSES - 1);
    }
    ClassSizes(i);
    ClassSizes(POOL_CLASSES - 1);
    if i > 0 {
      ClassSizes(i - 1);
    }
  }

  /** len is what a request for n bytes gets: more than 65536 bytes exactly, and
      otherwise the first of the size classes that is large enough for n bytes and
      for one. */
  predicate RightSize(len: nat, n: nat) {
    if n > 65536 then len == n
    else exists j :: 0 <= j < |CLASS_SIZES| && len == CLASS_SIZES[j] && n <= len && (j > 0 ==> CLASS_SIZES[j-1] < n)
  }

  lemma {:induction false} SizedRight(b: array<byte>, n: nat, m: nat, i: nat)
    requires SizedFor(b, n) && m == AtLeastOne(n) && i < POOL_CLASSES
    requires m <= 65536 ==> m <= ClassSize(i)
    ensures RightSize(b.Length, n)
  {
    ClassSizes(POOL_CLASSES - 1);
    ClassSizes(i);
    if m <= 65536 {
      if i > 0 {
        ClassSizes(i - 1);
      }
      if i > 0 && m <= ClassSize(i - 1) {
        SizedRight(b, n, m, i - 1);
      } else {
        assert IsClass(i, m);
      }
    }
  }

  lemma SizedExactly(b: array<byte>, n: nat)
    requires SizedFor(b, n)
    ensures RightSize(b.Length, n)
  {
    ClassSizes(POOL_CLASSES - 1);
    SizedRight(b, n, AtLeastOne(n), POOL_CLASSES - 1);
  }

  method Zero(p: array<byte>)
    modifies p
    ensures forall i | 0 <= i < p.Length :: p[i] == 0
  {
    forall i | 0 <= i < p.Length {
      p[i] := 0;
    }
  }

  /** The platform's allocator, which zeroes what it returns. */
  method NewBuffer(n: nat, platform: bool) returns (p: array?<byte>)
    ensures p != null <==> platform
    ensures p != null ==> fresh(p) && p.Length == n && forall i | 0 <= i < n :: p[i] == 0
  {
    if !platform {
      return null;
    }
    p := new byte[n](_ => 0);
  }
}
