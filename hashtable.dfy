/**
 * BaseHashTableOA of base.h: an open-addressing hash table with linear
 * probing, tombstone deletion, load-factor-driven rehashing, optional
 * copy/free callbacks for keys and values, and an optional arena from which
 * its bucket arrays are carved.
 *
 * Keys and values are generic; hashing and key equality are the callbacks
 * given at construction. The free callbacks are recorded, in call order, in
 * the ghost logs freedKeys and freedValues.
 */
module HashTableOA {
  import opened Wrappers
  import opened Probing
  import Arenas

  /** BASE_HT_OA_DEFAULT_CAPACITY. */
  const DEFAULT_CAPACITY: nat := 16

  /** sizeof(HashTableEntryOA) on a 64-bit target: two pointers and a 4-byte enum, padded to 8. */
  const ENTRY_SIZE: nat := 24

  /**
   * `(f64)used / (f64)buckets > BASE_HT_OA_MAX_LOAD_FACTOR` with the 0.7f
   * constant: as a float, 0.7f lies just below 7/10, so a ratio of exactly
   * 7/10 already exceeds it (the integer form is exact for fewer than 2^23 buckets).
   */
  predicate LoadExceeded(used: nat, buckets: nat)
  {
    10 * used >= 7 * buckets
  }

  /** The growth test of ht_oa_insert: one more item would fill the table, or the load is too high. */
  predicate InsertMustGrow(items: nat, tombstones: nat, buckets: nat)
  {
    items + 1 >= buckets || LoadExceeded(items + tombstones, buckets)
  }

  /** The growth test of ht_oa_put: the item and the load are counted with the new key only when it is absent. */
  predicate PutMustGrow(items: nat, tombstones: nat, extra: nat, buckets: nat)
  {
    items + extra >= buckets || LoadExceeded(items + tombstones + extra, buckets)
  }

  /** The bucket count ht_oa_rehash settles on for a requested count. */
  function RehashTarget(requested: nat, items: nat): (r: nat)
    ensures r > 0 && r >= items
    ensures requested > 0 && requested >= items ==> r == requested
  {
    var n := if requested == 0 then DEFAULT_CAPACITY else requested;
    if n < items then items * 2 else n
  }

  /**
   * The bucket count after the growth step of ht_oa_insert: a freed table is
   * re-created with the default capacity, a table meeting the growth test doubles.
   */
  function InsertGrowth(buckets: nat, items: nat, tombstones: nat): (r: nat)
  {
    if buckets == 0 then DEFAULT_CAPACITY
    else if InsertMustGrow(items, tombstones, buckets) then 2 * buckets
    else buckets
  }

  /** Same for ht_oa_put, where `present` is the result of ht_oa_contains. */
  function PutGrowth(buckets: nat, items: nat, tombstones: nat, present: bool): (r: nat)
  {
    if buckets == 0 then DEFAULT_CAPACITY
    else if PutMustGrow(items, tombstones, if present then 0 else 1, buckets) then 2 * buckets
    else buckets
  }

  /**
   * The two growth tests differ. For a key that ht_oa_contains reports absent
   * (extra = 1), put counts it in the load while insert does not, so put
   * grows whenever insert would and sometimes earlier: with 16 buckets and 11
   * items, inserting a 12th key keeps the buckets while putting it doubles
   * them. For a key reported present (extra = 0), put does not count the
   * key at all, so it grows only when insert would and sometimes later: with
   * 2 buckets and 1 item, insert doubles them while put keeps them.
   */
  lemma GrowthTestsCompared(items: nat, tombstones: nat, buckets: nat)
    ensures InsertMustGrow(items, tombstones, buckets) ==> PutMustGrow(items, tombstones, 1, buckets)
    ensures !InsertMustGrow(11, 0, 16) && PutMustGrow(11, 0, 1, 16)
    ensures PutMustGrow(items, tombstones, 0, buckets) ==> InsertMustGrow(items, tombstones, buckets)
    ensures InsertMustGrow(1, 0, 2) && !PutMustGrow(1, 0, 0, 2)
  {
  }

  /**
   * The arena offset after a growth step that takes a table from `buckets`
   * to `target` buckets: kept when no rehash is needed, the end of the
   * freshly carved bucket array when the rehash's allocation succeeds, and
   * None when that allocation fails (the offset is then kept as well).
   */
  function GrowthOffset(offset: nat, total: nat, buckets: nat, target: nat): (r: Option<nat>)
    requires offset <= total < Arenas.U64_LIMIT
    ensures r.Some? ==> offset <= r.value <= total
    ensures target == buckets ==> r == Some(offset)
    ensures target != buckets && target * ENTRY_SIZE > total ==> r.None?
  {
    if target == buckets then Some(offset)
    else match Arenas.DefaultOutcome(offset, total, target * ENTRY_SIZE)
      case Some((_, end)) => Some(end)
      case None => None
  }

  /** A key copy callback must produce (when it succeeds) a key equal to its input. */
  ghost predicate KeyCopyCoherent<K(!new)>(keyCopy: Option<K -> Ptr<K>>, eq: (K, K) -> bool)
  {
    keyCopy.Some? ==> forall k :: keyCopy.value(k).Ref? ==> eq(keyCopy.value(k).target, k)
  }

  class HashTable<K(!new, ==), V(==)> {
    var entries: array<Slot<K, V>>
    var bucketCount: nat
    var itemCount: nat
    var tombstoneCount: nat
    const hash: K -> nat
    const eq: (K, K) -> bool
    var keyCopy: Option<K -> Ptr<K>>
    var keyFree: bool
    var valueCopy: Option<Ptr<V> -> Ptr<V>>
    var valueFree: bool
    const arena: Arenas.Arena?
    /** Every key handed to key_free_fn, in order. */
    ghost var freedKeys: seq<K>
    /** Every value handed to value_free_fn, in order. */
    ghost var freedValues: seq<V>

    ghost predicate Valid()
      reads this, entries, arena
    {
      && bucketCount == entries.Length
      && itemCount == Count(entries[..], OccupiedState)
      && tombstoneCount == Count(entries[..], TombstoneState)
      && Coherent(hash, eq)
      && KeyCopyCoherent(keyCopy, eq)
      && ChainsIntact(entries[..], hash)
      && UniqueKeys(entries[..], eq)
      && (arena != null ==> arena.Valid())
    }

    /** The abstract map: what the table holds for keys equal to q. */
    ghost function Lookup(q: K): Option<Ptr<V>>
      reads this, entries
    {
      Find(entries[..], eq, q)
    }

    /** The pointer ht_oa_get returns for q: the stored value, or NULL when absent. */
    ghost function Value(q: K): Ptr<V>
      reads this, entries
    {
      match Lookup(q)
      case Some(v) => v
      case None => Null
    }

    /** The key the table stores for `key`: a copy when a key copy callback is set. */
    ghost function StoredKey(key: K): Ptr<K>
      reads this
    {
      if keyCopy.Some? then keyCopy.value(key) else Ref(key)
    }

    /** The value the table stores for `value`: a copy when a value copy callback is set. */
    ghost function StoredValue(value: Ptr<V>): Ptr<V>
      reads this
    {
      if valueCopy.Some? then valueCopy.value(value) else value
    }

    /** The value copy callback, where set, succeeds on this value. */
    ghost predicate ValueCopySucceeds(value: Ptr<V>)
      reads this
    {
      valueCopy.None? || valueCopy.value(value).Ref?
    }

    /** Both copy callbacks (where set) succeed on this key/value pair. */
    ghost predicate CopiesSucceed(key: K, value: Ptr<V>)
      reads this
    {
      StoredKey(key).Ref? && ValueCopySucceeds(value)
    }

    /** The installed callbacks, which only SetManagedKV changes. */
    ghost function Callbacks(): (Option<K -> Ptr<K>>, bool, Option<Ptr<V> -> Ptr<V>>, bool)
      reads this
    {
      (keyCopy, keyFree, valueCopy, valueFree)
    }

    /** The key copy released when the value copy fails after the key copy succeeded. */
    ghost function FailedCopyRelease(key: K, value: Ptr<V>): seq<K>
      reads this
    {
      if keyCopy.Some? && keyCopy.value(key).Ref? && valueCopy.Some? && valueCopy.value(value).Null?
         && keyFree && keyCopy.value(key).target != key
      then [keyCopy.value(key).target]
      else []
    }

    /**
     * The old value released by ht_oa_put when it replaces `previous` by `value`:
     * not when it is NULL, not when it is the passed pointer itself, and not
     * when it is the pointer the value copy callback returned.
     */
    ghost function ReplacedRelease(previous: Ptr<V>, value: Ptr<V>): seq<V>
      reads this
    {
      if valueFree && previous.Ref? && previous != value && (valueCopy.None? || previous != valueCopy.value(value))
      then [previous.target]
      else []
    }

    /** The growth step towards `target` buckets gets its bucket array: always without an arena. */
    ghost predicate GrowthFits(target: nat)
      requires arena != null ==> arena.Valid()
      reads this, arena
    {
      arena == null || GrowthOffset(arena.currentOffset, arena.totalSize, bucketCount, target).Some?
    }

    /** The arena's current offset once growth towards `target` buckets has been attempted. */
    ghost function OffsetAfterGrowth(target: nat): nat
      requires arena != null && arena.Valid()
      reads this, arena
    {
      var next := GrowthOffset(arena.currentOffset, arena.totalSize, bucketCount, target);
      if next.Some? then next.value else arena.currentOffset
    }

    /**
     * ht_oa_init: a table of `initialBucketCount` Empty slots (the default
     * capacity for 0), from the arena when one is given. A failed allocation
     * is a fatal abort in the source, so the arena must have room.
     */
    constructor Init(initialBucketCount: nat, hash: K -> nat, eq: (K, K) -> bool, arena: Arenas.Arena?)
      requires Coherent(hash, eq)
      requires arena != null ==> arena.Valid() && arena.hasBuffer
      requires arena != null ==>
        Arenas.DefaultOutcome(arena.currentOffset, arena.totalSize,
          (if initialBucketCount == 0 then DEFAULT_CAPACITY else initialBucketCount) * ENTRY_SIZE).Some?
      modifies arena
      ensures Valid() && fresh(entries)
      ensures this.hash == hash && this.eq == eq && this.arena == arena
      ensures bucketCount == (if initialBucketCount == 0 then DEFAULT_CAPACITY else initialBucketCount)
      ensures itemCount == 0 && tombstoneCount == 0
      ensures forall j :: 0 <= j < bucketCount ==> entries[j].Empty?
      ensures forall q :: Lookup(q).None?
      ensures keyCopy.None? && valueCopy.None? && !keyFree && !valueFree
      ensures freedKeys == [] && freedValues == []
      ensures arena != null ==>
        && arena.totalSize == old(arena.totalSize) && arena.prevOffset == old(arena.prevOffset)
        && arena.hasBuffer == old(arena.hasBuffer)
        && Arenas.DefaultOutcome(old(arena.currentOffset), arena.totalSize, bucketCount * ENTRY_SIZE).Some?
        && arena.currentOffset == Arenas.DefaultOutcome(old(arena.currentOffset), arena.totalSize, bucketCount * ENTRY_SIZE).value.1
    {
      var n := if initialBucketCount == 0 then DEFAULT_CAPACITY else initialBucketCount;
      if arena != null {
        var _ := arena.Alloc(n * ENTRY_SIZE);
      }
      var slots := new Slot<K, V>[n](_ => Empty);
      this.hash := hash;
      this.eq := eq;
      this.arena := arena;
      entries := slots;
      bucketCount := n;
      itemCount := 0;
      tombstoneCount := 0;
      keyCopy := None;
      keyFree := false;
      valueCopy := None;
      valueFree := false;
      freedKeys := [];
      freedValues := [];
      new;
      CountNone(entries[..], OccupiedState);
      CountNone(entries[..], TombstoneState);
    }

    /** ht_oa_set_managed_kv: installs the copy/free callbacks; the slots are untouched. */
    method SetManagedKV(keyCopy: Option<K -> Ptr<K>>, keyFree: bool, valueCopy: Option<Ptr<V> -> Ptr<V>>, valueFree: bool)
      requires Valid() && KeyCopyCoherent(keyCopy, eq)
      modifies this
      ensures Valid()
      ensures this.keyCopy == keyCopy && this.keyFree == keyFree
      ensures this.valueCopy == valueCopy && this.valueFree == valueFree
      ensures entries == old(entries) && bucketCount == old(bucketCount)
      ensures itemCount == old(itemCount) && tombstoneCount == old(tombstoneCount)
      ensures freedKeys == old(freedKeys) && freedValues == old(freedValues)
    {
      this.keyCopy := keyCopy;
      this.keyFree := keyFree;
      this.valueCopy := valueCopy;
      this.valueFree := valueFree;
    }

    /**
     * ht_oa_find_slot. When an equal key is stored, its slot with found set.
     * Otherwise the key is absent and the slot is the first non-Occupied one
     * on the probe path (the first Tombstone in preference to the Empty slot
     * that ends the probe), or None when every slot is Occupied.
     */
    method FindSlot(key: K) returns (slot: Option<nat>, found: bool)
      requires Valid()
      ensures found ==> slot.Some? && slot.value < bucketCount && Matches(entries[slot.value], eq, key)
      ensures !found ==> Lookup(key).None?
      ensures !found && slot.Some? ==>
        slot.value < bucketCount && FirstFree(entries[..], Home(hash, key, bucketCount), slot.value)
      ensures !found && slot.None? ==> forall j :: 0 <= j < bucketCount ==> entries[j].Occupied?
    {
      found := false;
      var n := bucketCount;
      if n == 0 {
        return None, false;
      }
      ghost var s := entries[..];
      var start := hash(key) % n;
      var idx := start;
      var firstTombstone: Option<nat> := None;
      ghost var d := 0;
      while true
        invariant d < n && idx == Wrap(start, d, n)
        invariant forall e :: 0 <= e < d ==> !Matches(s[Wrap(start, e, n)], eq, key) && !s[Wrap(start, e, n)].Empty?
        invariant firstTombstone.None? ==> forall e :: 0 <= e < d ==> s[Wrap(start, e, n)].Occupied?
        invariant firstTombstone.Some? ==>
          firstTombstone.value < n && Dist(start, firstTombstone.value, n) < d && FirstFree(s, start, firstTombstone.value)
        decreases n - d
      {
        var entry := entries[idx];
        if entry.Empty? {
          ProbeMiss(s, hash, eq, key, d);
          if firstTombstone.Some? {
            return firstTombstone, false;
          }
          DistOfWrap(start, d, n);
          return Some(idx), false;
        } else if entry.Tombstone? {
          if firstTombstone.None? {
            DistOfWrap(start, d, n);
            firstTombstone := Some(idx);
          }
        } else if eq(entry.key, key) {
          return Some(idx), true;
        }
        NextProbe(start, d, n);
        idx := (idx + 1) % n;
        d := d + 1;
        if idx == start {
          break;
        }
      }
      ProbeMiss(s, hash, eq, key, n);
      if firstTombstone.None? {
        ProbeCoversAll(s, start);
      }
      return firstTombstone, false;
    }

    /**
     * ht_oa_get: the value stored under an equal key, or NULL when there is
     * none (also for a freed or empty table). Nothing changes.
     */
    method Get(key: K) returns (r: Ptr<V>)
      requires Valid()
      ensures r == Value(key)
    {
      var n := bucketCount;
      if n == 0 || itemCount == 0 {
        NothingStored(entries[..], eq);
        return Null;
      }
      var start := hash(key) % n;
      var idx := start;
      ghost var d := 0;
      while true
        invariant d < n && idx == Wrap(start, d, n)
        invariant forall e :: 0 <= e < d ==> !Matches(entries[Wrap(start, e, n)], eq, key)
        decreases n - d
      {
        var entry := entries[idx];
        if entry.Empty? {
          ProbeMiss(entries[..], hash, eq, key, d);
          return Null;
        } else if entry.Occupied? && eq(entry.key, key) {
          FindMatch(entries[..], eq, key, idx);
          return entry.value;
        }
        NextProbe(start, d, n);
        idx := (idx + 1) % n;
        d := d + 1;
        if idx == start {
          break;
        }
      }
      ProbeMiss(entries[..], hash, eq, key, n);
      return Null;
    }

    /** ht_oa_contains: get returned a non-NULL pointer (a key stored with a NULL value counts as absent). */
    method Contains(key: K) returns (r: bool)
      requires Valid()
      ensures r <==> Lookup(key).Some? && Lookup(key).value.Ref?
    {
      var v := Get(key);
      r := v != Null;
    }

    /** The probe loop of ht_oa_rehash: the first Empty slot on key's probe path in a tombstone-free array with room. */
    method ProbeEmpty(a: array<Slot<K, V>>, key: K) returns (e: nat)
      requires a.Length > 0 && Count(a[..], OccupiedState) < a.Length && Count(a[..], TombstoneState) == 0
      ensures e < a.Length && a[e].Empty? && FirstFree(a[..], Home(hash, key, a.Length), e)
    {
      ghost var s := a[..];
      var n := a.Length;
      var start := hash(key) % n;
      var idx := start;
      ghost var d := 0;
      while true
        invariant d < n && idx == Wrap(start, d, n)
        invariant forall e' :: 0 <= e' < d ==> s[Wrap(start, e', n)].Occupied?
        decreases n - d
      {
        if a[idx].Empty? {
          DistOfWrap(start, d, n);
          return idx;
        }
        if a[idx].Tombstone? {
          CountPositive(s, idx, TombstoneState);
          assert false;
        }
        if d + 1 == n {
          // every slot is Occupied, which the count rules out: the source's
          // assertion that rehash always finds a slot holds
          ProbeCoversAll(s, start);
          CountAll(s, OccupiedState);
          assert false;
        }
        NextProbe(start, d, n);
        idx := (idx + 1) % n;
        d := d + 1;
      }
    }

    /** The bucket-array allocation of ht_oa_rehash: from the arena when there is one (heap allocation is not modelled to fail). */
    method AllocBuckets(n: nat) returns (ok: bool)
      requires n > 0 && (arena != null ==> arena.Valid())
      modifies arena
      ensures arena == null ==> ok
      ensures arena != null ==>
        && arena.Valid() && arena.totalSize == old(arena.totalSize) && arena.prevOffset == old(arena.prevOffset)
        && arena.hasBuffer == old(arena.hasBuffer)
        && (ok <==> Arenas.DefaultOutcome(old(arena.currentOffset), arena.totalSize, n * ENTRY_SIZE).Some?)
        && (ok ==> arena.currentOffset == Arenas.DefaultOutcome(old(arena.currentOffset), arena.totalSize, n * ENTRY_SIZE).value.1)
        && (!ok ==> arena.currentOffset == old(arena.currentOffset))
    {
      ok := true;
      if arena != null {
        var p := arena.Alloc(n * ENTRY_SIZE);
        ok := p.Some?;
      }
    }

    /** The reinsertion loop of ht_oa_rehash: every Occupied pair of src, moved into a fresh array of n slots. */
    method Relocate(src: array<Slot<K, V>>, n: nat) returns (dst: array<Slot<K, V>>)
      requires Coherent(hash, eq) && UniqueKeys(src[..], eq) && 0 < n && Count(src[..], OccupiedState) <= n
      ensures fresh(dst) && dst.Length == n
      ensures Count(dst[..], OccupiedState) == Count(src[..], OccupiedState)
      ensures Count(dst[..], TombstoneState) == 0
      ensures ChainsIntact(dst[..], hash) && UniqueKeys(dst[..], eq)
      ensures Pairs(dst[..]) == Pairs(src[..])
    {
      ghost var olds := src[..];
      dst := new Slot<K, V>[n](_ => Empty);
      CountNone(dst[..], OccupiedState);
      CountNone(dst[..], TombstoneState);
      for i := 0 to src.Length
        modifies dst
        invariant Count(dst[..], OccupiedState) == Count(olds[..i], OccupiedState)
        invariant Count(dst[..], TombstoneState) == 0
        invariant ChainsIntact(dst[..], hash) && UniqueKeys(dst[..], eq)
        invariant Pairs(dst[..]) == Pairs(olds[..i])
      {
        CountPrefix(olds, i, OccupiedState);
        PairsPrefix(olds, i);
        if src[i].Occupied? {
          CountPrefixAtMost(olds, i + 1, OccupiedState);
          MoveOne(src, dst, i);
        }
      }
      assert olds[..src.Length] == olds;
    }

    /** One step of the reinsertion loop: src[i] goes to the first Empty slot of its probe path. */
    method MoveOne(src: array<Slot<K, V>>, dst: array<Slot<K, V>>, i: nat)
      requires src != dst
      requires Coherent(hash, eq) && UniqueKeys(src[..], eq) && i < src.Length && src[i].Occupied?
      requires dst.Length > 0 && Count(dst[..], OccupiedState) < dst.Length && Count(dst[..], TombstoneState) == 0
      requires ChainsIntact(dst[..], hash) && UniqueKeys(dst[..], eq) && Pairs(dst[..]) == Pairs(src[..i])
      modifies dst
      ensures Count(dst[..], OccupiedState) == old(Count(dst[..], OccupiedState)) + 1
      ensures Count(dst[..], TombstoneState) == 0
      ensures ChainsIntact(dst[..], hash) && UniqueKeys(dst[..], eq)
      ensures Pairs(dst[..]) == old(Pairs(dst[..])) + PairOf(src[i])
    {
      ghost var olds := src[..];
      var key := src[i].key;
      var value := src[i].value;
      var e := ProbeEmpty(dst, key);
      ghost var ns := dst[..];
      NoMatchOutsidePairs(olds, ns, eq, i);
      PlaceFacts(ns, hash, eq, key, key, value, e);
      CountUpdate(ns, e, Occupied(key, value), OccupiedState);
      CountUpdate(ns, e, Occupied(key, value), TombstoneState);
      PairsUpdate(ns, e, Occupied(key, value));
      dst[e] := Occupied(key, value);
      assert dst[..] == ns[e := Occupied(key, value)];
    }

    /**
     * ht_oa_rehash: a fresh array of RehashTarget(requested, itemCount) Empty
     * slots (carved from the arena when there is one; a failed arena
     * allocation returns false and changes nothing), into which every
     * Occupied pair is moved, uncopied, by probing for an Empty slot.
     * Tombstones are dropped; the lookup is unchanged.
     */
    method Rehash(requested: nat) returns (ok: bool)
      requires Valid()
      modifies this, arena
      ensures Valid()
      ensures Callbacks() == old(Callbacks()) && freedKeys == old(freedKeys) && freedValues == old(freedValues)
      ensures itemCount == old(itemCount)
      ensures forall q :: Lookup(q) == old(Lookup(q))
      ensures arena == null ==> ok
      ensures arena != null ==>
        && arena.totalSize == old(arena.totalSize) && arena.prevOffset == old(arena.prevOffset)
        && arena.hasBuffer == old(arena.hasBuffer)
        && (ok <==> Arenas.DefaultOutcome(old(arena.currentOffset), arena.totalSize, RehashTarget(requested, old(itemCount)) * ENTRY_SIZE).Some?)
        && (ok ==> arena.currentOffset == Arenas.DefaultOutcome(old(arena.currentOffset), arena.totalSize, RehashTarget(requested, old(itemCount)) * ENTRY_SIZE).value.1)
        && (!ok ==> arena.currentOffset == old(arena.currentOffset))
      ensures ok ==>
        && fresh(entries) && bucketCount == RehashTarget(requested, old(itemCount)) && tombstoneCount == 0
        && Pairs(entries[..]) == old(Pairs(entries[..]))
      ensures !ok ==> entries == old(entries) && bucketCount == old(bucketCount) && tombstoneCount == old(tombstoneCount)
    {
      var target := requested;
      if target == 0 {
        target := DEFAULT_CAPACITY;
      }
      if target < itemCount {
        target := itemCount * 2;
      }
      ok := AllocBuckets(target);
      if ok {
        Install(target);
      }
    }

    /** The second half of ht_oa_rehash: relocate every pair into n fresh slots and adopt them. */
    method Install(n: nat)
      requires Valid() && n > 0 && n >= itemCount
      modifies this
      ensures Valid()
      ensures Callbacks() == old(Callbacks()) && freedKeys == old(freedKeys) && freedValues == old(freedValues)
      ensures itemCount == old(itemCount)
      ensures forall q :: Lookup(q) == old(Lookup(q))
      ensures fresh(entries) && bucketCount == n && tombstoneCount == 0
      ensures Pairs(entries[..]) == old(Pairs(entries[..]))
    {
      ghost var olds := entries[..];
      var newEntries := Relocate(entries, n);
      ghost var news := newEntries[..];
      forall q
        ensures Find(news, eq, q) == Find(olds, eq, q)
      {
        FindAgree(news, olds, eq, q);
      }
      entries := newEntries;
      bucketCount := n;
      tombstoneCount := 0;
    }

    /**
     * The placement shared by ht_oa_insert and ht_oa_put for an absent key:
     * copy the key, then the value (releasing the key copy when the value
     * copy fails), then fill the free slot i found by the probe.
     */
    method PlaceNew(key: K, value: Ptr<V>, i: nat) returns (ok: bool)
      requires Valid() && i < bucketCount
      requires FirstFree(entries[..], Home(hash, key, bucketCount), i)
      requires Lookup(key).None?
      modifies this, entries
      ensures Valid()
      ensures entries == old(entries) && bucketCount == old(bucketCount)
      ensures Callbacks() == old(Callbacks()) && freedValues == old(freedValues)
      ensures freedKeys == old(freedKeys) + FailedCopyRelease(key, value)
      ensures ok <==> CopiesSucceed(key, value)
      ensures ok ==> entries[..] == old(entries[..])[i := Occupied(StoredKey(key).target, StoredValue(value))]
      ensures ok ==> itemCount == old(itemCount) + 1
      ensures ok ==> tombstoneCount == old(tombstoneCount) - (if old(entries[i]).Tombstone? then 1 else 0)
      ensures ok ==> forall q :: Lookup(q) == if eq(key, q) then Some(StoredValue(value)) else old(Lookup(q))
      ensures !ok ==> entries[..] == old(entries[..]) && itemCount == old(itemCount) && tombstoneCount == old(tombstoneCount)
    {
      var newKey := key;
      if keyCopy.Some? {
        var copied := keyCopy.value(key);
        if copied.Null? {
          return false;
        }
        newKey := copied.target;
      }
      var newValue := value;
      if valueCopy.Some? {
        newValue := valueCopy.value(value);
        if newValue.Null? {
          if keyCopy.Some? && keyFree && newKey != key {
            freedKeys := freedKeys + [newKey];
          }
          return false;
        }
      }
      Fill(key, newKey, newValue, i);
      ok := true;
    }

    /** The slot write of PlaceNew: k2 (equal to key) with value v goes into the free slot i. */
    method Fill(key: K, k2: K, v: Ptr<V>, i: nat)
      requires Valid() && i < bucketCount && eq(k2, key)
      requires FirstFree(entries[..], Home(hash, key, bucketCount), i)
      requires Lookup(key).None?
      modifies this, entries
      ensures Valid()
      ensures entries == old(entries) && bucketCount == old(bucketCount)
      ensures Callbacks() == old(Callbacks()) && freedKeys == old(freedKeys) && freedValues == old(freedValues)
      ensures entries[..] == old(entries[..])[i := Occupied(k2, v)]
      ensures itemCount == old(itemCount) + 1
      ensures tombstoneCount == old(tombstoneCount) - (if old(entries[i]).Tombstone? then 1 else 0)
      ensures forall q :: Lookup(q) == if eq(key, q) then Some(v) else old(Lookup(q))
    {
      ghost var s := entries[..];
      PlaceFacts(s, hash, eq, key, k2, v, i);
      CountUpdate(s, i, Occupied(k2, v), OccupiedState);
      CountUpdate(s, i, Occupied(k2, v), TombstoneState);
      if entries[i].Tombstone? {
        tombstoneCount := tombstoneCount - 1;
      }
      entries[i] := Occupied(k2, v);
      itemCount := itemCount + 1;
      assert entries[..] == s[i := Occupied(k2, v)];
    }

    /**
     * ht_oa_insert: refuses a key that is already stored (after any growth
     * rehash). Growth: a freed table is re-created with the default
     * capacity; then the table doubles when one more item would fill it or
     * the load (items plus tombstones, without the new item) exceeds 0.7.
     * The source's fallback rehash for a full table is unreachable, since
     * the growth step always leaves a non-Occupied slot.
     */
    method Insert(key: K, value: Ptr<V>) returns (ok: bool)
      requires Valid()
      modifies this, entries, arena
      ensures Valid()
      ensures Callbacks() == old(Callbacks()) && freedValues == old(freedValues)
      ensures ok <==> old(GrowthFits(InsertGrowth(bucketCount, itemCount, tombstoneCount))) && old(Lookup(key)).None? && CopiesSucceed(key, value)
      ensures arena != null ==>
        && arena.totalSize == old(arena.totalSize) && arena.prevOffset == old(arena.prevOffset)
        && arena.hasBuffer == old(arena.hasBuffer)
        && arena.currentOffset == old(OffsetAfterGrowth(InsertGrowth(bucketCount, itemCount, tombstoneCount)))
      ensures itemCount == old(itemCount) + (if ok then 1 else 0)
      ensures ok ==> forall q :: Lookup(q) == if eq(key, q) then Some(StoredValue(value)) else old(Lookup(q))
      ensures !ok ==> forall q :: Lookup(q) == old(Lookup(q))
      ensures bucketCount == if old(GrowthFits(InsertGrowth(bucketCount, itemCount, tombstoneCount)))
        then InsertGrowth(old(bucketCount), old(itemCount), old(tombstoneCount)) else old(bucketCount)
      ensures ok && bucketCount == old(bucketCount) ==>
        && entries == old(entries)
        && exists i :: 0 <= i < bucketCount && !old(entries[i]).Occupied?
             && entries[..] == old(entries[..])[i := Occupied(StoredKey(key).target, StoredValue(value))]
             && tombstoneCount == old(tombstoneCount) - (if old(entries[i]).Tombstone? then 1 else 0)
      ensures ok && bucketCount != old(bucketCount) ==> tombstoneCount == 0
      ensures freedKeys == old(freedKeys) +
        if old(GrowthFits(InsertGrowth(bucketCount, itemCount, tombstoneCount))) && old(Lookup(key)).None?
        then FailedCopyRelease(key, value) else []
    {
      ok := GrowForInsert();
      if !ok {
        return false;
      }
      var slot, found := FindSlot(key);
      if found {
        return false;
      }
      if slot.None? {
        CountAll(entries[..], OccupiedState);
        assert false;
      }
      ok := PlaceNew(key, value, slot.value);
    }

    /**
     * The growth step of ht_oa_insert. On success the table has room for one
     * more item (so the source's fallback rehash is never needed).
     */
    method GrowForInsert() returns (ok: bool)
      requires Valid()
      modifies this, arena
      ensures Valid()
      ensures Callbacks() == old(Callbacks()) && freedKeys == old(freedKeys) && freedValues == old(freedValues)
      ensures itemCount == old(itemCount)
      ensures forall q :: Lookup(q) == old(Lookup(q))
      ensures ok <==> old(GrowthFits(InsertGrowth(bucketCount, itemCount, tombstoneCount)))
      ensures arena != null ==>
        && arena.totalSize == old(arena.totalSize) && arena.prevOffset == old(arena.prevOffset)
        && arena.hasBuffer == old(arena.hasBuffer)
        && arena.currentOffset == old(OffsetAfterGrowth(InsertGrowth(bucketCount, itemCount, tombstoneCount)))
      ensures entries == old(entries) || fresh(entries)
      ensures ok ==> itemCount < bucketCount
      ensures bucketCount == if ok then InsertGrowth(old(bucketCount), old(itemCount), old(tombstoneCount)) else old(bucketCount)
      ensures bucketCount == old(bucketCount) ==> entries == old(entries) && tombstoneCount == old(tombstoneCount)
      ensures bucketCount != old(bucketCount) ==> tombstoneCount == 0
    {
      ok := true;
      if bucketCount == 0 {
        ok := Rehash(DEFAULT_CAPACITY);
        if !ok {
          return;
        }
      }
      if InsertMustGrow(itemCount, tombstoneCount, bucketCount) {
        ok := Rehash(bucketCount * 2);
      }
    }

    /**
     * The update branch of ht_oa_put: slot i holds key; its value is replaced
     * by the (copied) new value, and the old one is released unless it is
     * NULL, the passed pointer, or the copy.
     */
    method Replace(key: K, value: Ptr<V>, i: nat) returns (ok: bool)
      requires Valid() && i < bucketCount && Matches(entries[i], eq, key)
      modifies this, entries
      ensures Valid() && entries == old(entries) && bucketCount == old(bucketCount)
      ensures Callbacks() == old(Callbacks()) && freedKeys == old(freedKeys)
      ensures itemCount == old(itemCount) && tombstoneCount == old(tombstoneCount)
      ensures ok <==> ValueCopySucceeds(value)
      ensures ok ==> entries[..] == old(entries[..])[i := Occupied(old(entries[i]).key, StoredValue(value))]
      ensures ok ==> freedValues == old(freedValues) + ReplacedRelease(old(entries[i]).value, value)
      ensures ok ==> forall q :: Lookup(q) == if eq(key, q) then Some(StoredValue(value)) else old(Lookup(q))
      ensures !ok ==> entries[..] == old(entries[..]) && freedValues == old(freedValues)
    {
      var oldValue := entries[i].value;
      var newValue := value;
      if valueCopy.Some? {
        newValue := valueCopy.value(value);
        if newValue.Null? {
          return false;
        }
      }
      ghost var s := entries[..];
      ValueUpdateFacts(s, hash, eq, key, i, newValue);
      CountUpdate(s, i, Occupied(s[i].key, newValue), OccupiedState);
      CountUpdate(s, i, Occupied(s[i].key, newValue), TombstoneState);
      entries[i] := Occupied(entries[i].key, newValue);
      if valueFree && oldValue.Ref? && oldValue != value {
        if valueCopy.None? || oldValue != newValue {
          freedValues := freedValues + [oldValue.target];
        }
      }
      ok := true;
    }

    /**
     * ht_oa_put (upsert). The growth test counts the new key only when
     * ht_oa_contains says it is absent, so a key stored with a NULL value
     * counts as absent there. A stored key has its value replaced; an
     * absent one is placed exactly as ht_oa_insert does.
     */
    method Put(key: K, value: Ptr<V>) returns (ok: bool)
      requires Valid()
      modifies this, entries, arena
      ensures Valid()
      ensures Callbacks() == old(Callbacks())
      ensures ok ==> forall q :: Lookup(q) == if eq(key, q) then Some(StoredValue(value)) else old(Lookup(q))
      ensures !ok ==> forall q :: Lookup(q) == old(Lookup(q))
      ensures ok ==> ValueCopySucceeds(value)
      ensures old(Lookup(key)).Some? ==> itemCount == old(itemCount) && freedKeys == old(freedKeys)
      ensures old(Lookup(key)).Some? && ok ==> freedValues == old(freedValues) + ReplacedRelease(old(Lookup(key)).value, value)
      ensures old(Lookup(key)).None? || !ok ==> freedValues == old(freedValues)
      ensures old(Lookup(key)).None? ==> itemCount == old(itemCount) + (if ok then 1 else 0)
      ensures old(Lookup(key)).None? && ok ==> CopiesSucceed(key, value)
      ensures ok <==> (old(GrowthFits(PutGrowth(bucketCount, itemCount, tombstoneCount, Value(key).Ref?)))
                       && if old(Lookup(key)).Some? then ValueCopySucceeds(value) else CopiesSucceed(key, value))
      ensures arena != null ==>
        && arena.totalSize == old(arena.totalSize) && arena.prevOffset == old(arena.prevOffset)
        && arena.hasBuffer == old(arena.hasBuffer)
        && arena.currentOffset == old(OffsetAfterGrowth(PutGrowth(bucketCount, itemCount, tombstoneCount, Value(key).Ref?)))
      ensures bucketCount == if old(GrowthFits(PutGrowth(bucketCount, itemCount, tombstoneCount, Value(key).Ref?)))
        then PutGrowth(old(bucketCount), old(itemCount), old(tombstoneCount), old(Value(key)).Ref?) else old(bucketCount)
      ensures freedKeys == old(freedKeys) +
        if old(GrowthFits(PutGrowth(bucketCount, itemCount, tombstoneCount, Value(key).Ref?))) && old(Lookup(key)).None?
        then FailedCopyRelease(key, value) else []
    {
      ok := GrowForPut(key);
      if !ok {
        return false;
      }
      ok := Store(key, value);
    }

    /** The probe-and-write part of ht_oa_put, on a table with room for an absent key. */
    method Store(key: K, value: Ptr<V>) returns (ok: bool)
      requires Valid() && (Lookup(key).None? ==> itemCount < bucketCount)
      modifies this, entries
      ensures Valid() && entries == old(entries) && bucketCount == old(bucketCount)
      ensures Callbacks() == old(Callbacks())
      ensures ok ==> forall q :: Lookup(q) == if eq(key, q) then Some(StoredValue(value)) else old(Lookup(q))
      ensures !ok ==> forall q :: Lookup(q) == old(Lookup(q))
      ensures old(Lookup(key)).Some? ==>
        && itemCount == old(itemCount) && freedKeys == old(freedKeys)
        && (ok <==> ValueCopySucceeds(value))
        && freedValues == old(freedValues) + (if ok then ReplacedRelease(old(Lookup(key)).value, value) else [])
      ensures old(Lookup(key)).None? ==>
        && itemCount == old(itemCount) + (if ok then 1 else 0) && freedValues == old(freedValues)
        && (ok <==> CopiesSucceed(key, value))
        && freedKeys == old(freedKeys) + FailedCopyRelease(key, value)
    {
      var slot, found := FindSlot(key);
      if found {
        FindMatch(entries[..], eq, key, slot.value);
        ok := Replace(key, value, slot.value);
        return;
      }
      if slot.None? {
        CountAll(entries[..], OccupiedState);
        assert false;
      }
      ok := PlaceNew(key, value, slot.value);
    }

    /**
     * The growth step of ht_oa_put, which counts the new key only when
     * ht_oa_contains reports it absent. On success an absent key has room.
     */
    method GrowForPut(key: K) returns (ok: bool)
      requires Valid()
      modifies this, arena
      ensures Valid()
      ensures Callbacks() == old(Callbacks()) && freedKeys == old(freedKeys) && freedValues == old(freedValues)
      ensures itemCount == old(itemCount)
      ensures forall q :: Lookup(q) == old(Lookup(q))
      ensures ok <==> old(GrowthFits(PutGrowth(bucketCount, itemCount, tombstoneCount, Value(key).Ref?)))
      ensures arena != null ==>
        && arena.totalSize == old(arena.totalSize) && arena.prevOffset == old(arena.prevOffset)
        && arena.hasBuffer == old(arena.hasBuffer)
        && arena.currentOffset == old(OffsetAfterGrowth(PutGrowth(bucketCount, itemCount, tombstoneCount, Value(key).Ref?)))
      ensures entries == old(entries) || fresh(entries)
      ensures ok && Lookup(key).None? ==> itemCount < bucketCount
      ensures bucketCount == if ok then PutGrowth(old(bucketCount), old(itemCount), old(tombstoneCount), old(Value(key)).Ref?) else old(bucketCount)
    {
      ok := true;
      if bucketCount == 0 {
        ok := Rehash(DEFAULT_CAPACITY);
        if !ok {
          return;
        }
      }
      ok := GrowIfLoaded(key);
    }

    /** The load test of ht_oa_put on a table that has buckets: double them when the put could overload it. */
    method GrowIfLoaded(key: K) returns (ok: bool)
      requires Valid() && bucketCount > 0
      modifies this, arena
      ensures Valid()
      ensures Callbacks() == old(Callbacks()) && freedKeys == old(freedKeys) && freedValues == old(freedValues)
      ensures itemCount == old(itemCount)
      ensures forall q :: Lookup(q) == old(Lookup(q))
      ensures var target := if old(PutMustGrow(itemCount, tombstoneCount, if Value(key).Ref? then 0 else 1, bucketCount))
                            then 2 * old(bucketCount) else old(bucketCount);
        && (ok <==> old(GrowthFits(target)))
        && (arena != null ==> arena.currentOffset == old(OffsetAfterGrowth(target)))
        && bucketCount == if ok then target else old(bucketCount)
      ensures arena != null ==>
        && arena.totalSize == old(arena.totalSize) && arena.prevOffset == old(arena.prevOffset)
        && arena.hasBuffer == old(arena.hasBuffer)
      ensures entries == old(entries) || fresh(entries)
      ensures ok && Lookup(key).None? ==> itemCount < bucketCount
    {
      ghost var target := if PutMustGrow(itemCount, tombstoneCount, if Value(key).Ref? then 0 else 1, bucketCount)
                          then 2 * bucketCount else bucketCount;
      ok := true;
      var present := Contains(key);
      var extra := if present then 0 else 1;
      if itemCount + extra >= bucketCount || LoadExceeded(itemCount + tombstoneCount + extra, bucketCount) {
        assert target == bucketCount * 2;
        ok := Rehash(bucketCount * 2);
      } else {
        assert target == bucketCount && GrowthFits(target);
      }
    }

    /**
     * ht_oa_remove: the slot holding an equal key becomes a Tombstone after
     * its key and (non-NULL) value are handed to the free callbacks; false
     * and no change when the key is absent or the table is empty.
     */
    method Remove(key: K) returns (ok: bool)
      requires Valid()
      modifies this, entries
      ensures Valid() && entries == old(entries) && bucketCount == old(bucketCount) && Callbacks() == old(Callbacks())
      ensures ok <==> old(Lookup(key)).Some?
      ensures ok ==> itemCount == old(itemCount) - 1 && tombstoneCount == old(tombstoneCount) + 1
      ensures ok ==> forall q :: Lookup(q) == if eq(key, q) then None else old(Lookup(q))
      ensures ok ==> exists i :: (
        && 0 <= i < bucketCount && old(Matches(entries[i], eq, key))
        && entries[..] == old(entries[..])[i := Tombstone]
        && freedKeys == old(freedKeys) + (if keyFree then [old(entries[i]).key] else [])
        && freedValues == old(freedValues) + (if valueFree && old(entries[i]).value.Ref? then [old(entries[i]).value.target] else []))
      ensures !ok ==> entries[..] == old(entries[..]) && itemCount == old(itemCount) && tombstoneCount == old(tombstoneCount)
      ensures !ok ==> freedKeys == old(freedKeys) && freedValues == old(freedValues)
    {
      if bucketCount == 0 || itemCount == 0 {
        NothingStored(entries[..], eq);
        return false;
      }
      var slot, found := FindSlot(key);
      if found && slot.Some? && entries[slot.value].Occupied? {
        Vacate(key, slot.value);
        return true;
      }
      return false;
    }

    /** The slot write of ht_oa_remove: release the key and value of slot i, then mark it a Tombstone. */
    method Vacate(key: K, i: nat)
      requires Valid() && i < bucketCount && Matches(entries[i], eq, key)
      modifies this, entries
      ensures Valid() && entries == old(entries) && bucketCount == old(bucketCount) && Callbacks() == old(Callbacks())
      ensures itemCount == old(itemCount) - 1 && tombstoneCount == old(tombstoneCount) + 1
      ensures forall q :: Lookup(q) == if eq(key, q) then None else old(Lookup(q))
      ensures entries[..] == old(entries[..])[i := Tombstone]
      ensures freedKeys == old(freedKeys) + (if keyFree then [old(entries[i]).key] else [])
      ensures freedValues == old(freedValues) + (if valueFree && old(entries[i]).value.Ref? then [old(entries[i]).value.target] else [])
    {
      var k := entries[i].key;
      var v := entries[i].value;
      Bury(key, i);
      if keyFree {
        freedKeys := freedKeys + [k];
      }
      if valueFree && v.Ref? {
        freedValues := freedValues + [v.target];
      }
    }

    /** Marks the Occupied slot i, which holds key, a Tombstone. */
    method Bury(key: K, i: nat)
      requires Valid() && i < bucketCount && Matches(entries[i], eq, key)
      modifies this, entries
      ensures Valid() && entries == old(entries) && bucketCount == old(bucketCount) && Callbacks() == old(Callbacks())
      ensures freedKeys == old(freedKeys) && freedValues == old(freedValues)
      ensures itemCount == old(itemCount) - 1 && tombstoneCount == old(tombstoneCount) + 1
      ensures forall q :: Lookup(q) == if eq(key, q) then None else old(Lookup(q))
      ensures entries[..] == old(entries[..])[i := Tombstone]
    {
      ghost var s := entries[..];
      TombstoneFacts(s, hash, eq, key, i);
      CountUpdate(s, i, Tombstone, OccupiedState);
      CountUpdate(s, i, Tombstone, TombstoneState);
      CountPositive(s, i, OccupiedState);
      entries[i] := Tombstone;
      itemCount := itemCount - 1;
      tombstoneCount := tombstoneCount + 1;
      assert entries[..] == s[i := Tombstone];
    }

    /**
     * ht_oa_clear: every slot becomes Empty (not Tombstone) and both counters
     * drop to zero; the bucket array is kept. Occupied keys and non-NULL
     * values go to the free callbacks in index order.
     */
    method Clear()
      requires Valid()
      modifies this, entries
      ensures Valid() && entries == old(entries) && bucketCount == old(bucketCount) && Callbacks() == old(Callbacks())
      ensures itemCount == 0 && tombstoneCount == 0
      ensures forall j :: 0 <= j < bucketCount ==> entries[j].Empty?
      ensures forall q :: Lookup(q).None?
      ensures freedKeys == old(freedKeys) + (if keyFree then old(KeysOf(entries[..])) else [])
      ensures freedValues == old(freedValues) + (if valueFree then old(ValuesOf(entries[..])) else [])
    {
      ghost var s := entries[..];
      EmptyAll();
      itemCount := 0;
      tombstoneCount := 0;
      CountNone(entries[..], OccupiedState);
      CountNone(entries[..], TombstoneState);
      NothingStored(entries[..], eq);
    }

    /** The release loop of ht_oa_clear: every slot in index order is released (when Occupied) and emptied. */
    method EmptyAll()
      modifies this, entries
      ensures entries == old(entries) && bucketCount == old(bucketCount) && Callbacks() == old(Callbacks())
      ensures itemCount == old(itemCount) && tombstoneCount == old(tombstoneCount)
      ensures forall j :: 0 <= j < entries.Length ==> entries[j].Empty?
      ensures freedKeys == old(freedKeys) + (if keyFree then old(KeysOf(entries[..])) else [])
      ensures freedValues == old(freedValues) + (if valueFree then old(ValuesOf(entries[..])) else [])
    {
      ghost var s := entries[..];
      ghost var keys0 := freedKeys;
      ghost var values0 := freedValues;
      for i := 0 to entries.Length
        invariant entries == old(entries) && bucketCount == old(bucketCount) && Callbacks() == old(Callbacks())
        invariant itemCount == old(itemCount) && tombstoneCount == old(tombstoneCount)
        invariant ReleasedUpTo(s, keys0, values0, i)
      {
        ReleaseNext(s, keys0, values0, i);
      }
      assert s[..entries.Length] == s;
    }

    /**
     * The release loop's invariant after i iterations, against the slots s it
     * started from: slots below i are Empty, the rest untouched, and the free
     * logs hold the keys and values of the occupied slots below i.
     */
    ghost predicate ReleasedUpTo(s: seq<Slot<K, V>>, keys0: seq<K>, values0: seq<V>, i: nat)
      reads this, entries
    {
      && |s| == entries.Length && i <= |s|
      && (forall j :: 0 <= j < i ==> entries[j].Empty?)
      && (forall j :: i <= j < |s| ==> entries[j] == s[j])
      && freedKeys == keys0 + (if keyFree then KeysOf(s[..i]) else [])
      && freedValues == values0 + (if valueFree then ValuesOf(s[..i]) else [])
    }

    /** One iteration of the release loop, as a step of its invariant. */
    method ReleaseNext(ghost s: seq<Slot<K, V>>, ghost keys0: seq<K>, ghost values0: seq<V>, i: nat)
      requires i < entries.Length && ReleasedUpTo(s, keys0, values0, i)
      modifies this, entries
      ensures entries == old(entries) && bucketCount == old(bucketCount) && Callbacks() == old(Callbacks())
      ensures itemCount == old(itemCount) && tombstoneCount == old(tombstoneCount)
      ensures ReleasedUpTo(s, keys0, values0, i + 1)
    {
      KeysValuesPrefix(s, i);
      Release(i);
    }

    /** One iteration of the release loop: slot i's key and value go to the free callbacks, and the slot is emptied. */
    method Release(i: nat)
      requires i < entries.Length
      modifies this, entries
      ensures entries == old(entries) && bucketCount == old(bucketCount) && Callbacks() == old(Callbacks())
      ensures itemCount == old(itemCount) && tombstoneCount == old(tombstoneCount)
      ensures entries[..] == old(entries[..])[i := Empty]
      ensures freedKeys == old(freedKeys) + (if keyFree && old(entries[i]).Occupied? then [old(entries[i]).key] else [])
      ensures freedValues == old(freedValues) +
        (if valueFree && old(entries[i]).Occupied? && old(entries[i]).value.Ref? then [old(entries[i]).value.target] else [])
    {
      if entries[i].Occupied? {
        if keyFree {
          freedKeys := freedKeys + [entries[i].key];
        }
        if valueFree && entries[i].value.Ref? {
          freedValues := freedValues + [entries[i].value.target];
        }
      }
      entries[i] := Empty;
    }

    /**
     * ht_oa_free: clear, then drop the bucket array (the model's stand-in for
     * NULL is an array of no slots). A later insert or put re-creates it.
     */
    method Free()
      requires Valid()
      modifies this, entries
      ensures Valid() && bucketCount == 0 && itemCount == 0 && tombstoneCount == 0 && Callbacks() == old(Callbacks())
      ensures forall q :: Lookup(q).None?
      ensures freedKeys == old(freedKeys) + (if keyFree then old(KeysOf(entries[..])) else [])
      ensures freedValues == old(freedValues) + (if valueFree then old(ValuesOf(entries[..])) else [])
    {
      Clear();
      entries := new Slot<K, V>[0](_ => Empty);
      bucketCount := 0;
    }

    /** ht_oa_size: the number of stored key/value pairs. */
    function Size(): (r: nat)
      reads this, entries, arena
      requires Valid()
      ensures r == |Pairs(entries[..])| && r <= bucketCount
    {
      itemCount
    }

    /**
     * The advancing loop of the iterator functions: the first Occupied slot
     * at or after `from`, or bucket_count when there is none. The slots
     * skipped over add nothing to the Occupied indices below the result.
     */
    method SkipToOccupied(from: nat) returns (j: nat)
      requires Valid() && from <= bucketCount
      ensures j == NextOccupied(entries[..], from)
      ensures OccupiedBelow(entries[..], j) == OccupiedBelow(entries[..], from)
    {
      j := from;
      while j < bucketCount && !entries[j].Occupied?
        invariant from <= j <= bucketCount
        invariant NextOccupied(entries[..], j) == NextOccupied(entries[..], from)
        invariant forall t :: from <= t < j ==> !entries[t].Occupied?
      {
        j := j + 1;
      }
      OccupiedBelowSkip(entries[..], from, j);
    }

    /** Slot accounting: the stored items and the tombstones together never exceed the buckets. */
    lemma SlotAccounting()
      requires Valid()
      ensures itemCount + tombstoneCount <= bucketCount
      ensures bucketCount - itemCount - tombstoneCount == Count(entries[..], EmptyState)
    {
      CountsPartition(entries[..]);
    }

    /** ht_oa_is_empty: true exactly when no key has a stored value. */
    function IsEmpty(): (r: bool)
      reads this, entries, arena
      requires Valid()
      ensures r <==> forall q :: Lookup(q).None?
    {
      EmptinessMeaning(entries[..], eq);
      assert forall q :: Lookup(q) == Find(entries[..], eq, q);
      itemCount == 0
    }
  }

  /**
   * HashTableIteratorOA: walks the bucket array in index order, stopping on
   * Occupied slots only. currentIdx is always an Occupied slot or the end;
   * the ghost `yielded` records the slots handed out so far.
   */
  class TableIterator<K(!new, ==), V(==)> {
    const table: HashTable<K, V>
    var currentIdx: nat
    ghost var yielded: seq<nat>

    ghost predicate Valid()
      reads this, table, table.entries, table.arena
    {
      && table.Valid()
      && currentIdx <= table.bucketCount
      && (currentIdx < table.bucketCount ==> table.entries[currentIdx].Occupied?)
      && yielded == OccupiedBelow(table.entries[..], currentIdx)
    }

    /** ht_oa_iterator_begin: positioned on the first Occupied slot, nothing yielded yet. */
    constructor Begin(table: HashTable<K, V>)
      requires table.Valid()
      ensures Valid() && this.table == table && yielded == []
      ensures currentIdx == NextOccupied(table.entries[..], 0)
    {
      var first := table.SkipToOccupied(0);
      this.table := table;
      currentIdx := first;
      yielded := [];
    }

    /**
     * ht_oa_iterator_next: false once past the end; otherwise the key and
     * value of the current slot, and the iterator moves on to the next
     * Occupied slot. The table is not changed.
     */
    method Next() returns (r: Option<(K, Ptr<V>)>)
      requires Valid()
      modifies this
      ensures Valid()
      ensures r.None? <==> old(currentIdx) >= table.bucketCount
      ensures r.None? ==> currentIdx == old(currentIdx) && yielded == old(yielded)
      ensures r.Some? ==>
        && table.entries[old(currentIdx)] == Occupied(r.value.0, r.value.1)
        && yielded == old(yielded) + [old(currentIdx)]
        && currentIdx == NextOccupied(table.entries[..], old(currentIdx) + 1)
    {
      if currentIdx >= table.bucketCount {
        return None;
      }
      var i := currentIdx;
      r := Some((table.entries[i].key, table.entries[i].value));
      var j := table.SkipToOccupied(i + 1);
      assert OccupiedBelow(table.entries[..], i + 1) == yielded + [i];
      currentIdx, yielded := j, yielded + [i];
    }

    /** Once past the end, every Occupied slot has been yielded, each once, in index order. */
    lemma Complete()
      requires Valid() && currentIdx >= table.bucketCount
      ensures |yielded| == table.itemCount
      ensures forall j :: 0 <= j < table.bucketCount && table.entries[j].Occupied? ==> j in yielded
      ensures forall t, u :: 0 <= t < u < |yielded| ==> yielded[t] < yielded[u]
    {
      var s := table.entries[..];
      OccupiedBelowCount(s, |s|);
      assert s[..|s|] == s;
    }
  }
}
