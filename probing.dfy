/**
 * Value-level specification of the open-addressing table of base.h:
 * the slot array, linear-probe positions, the abstract lookup a table
 * denotes, and the invariants the table operations keep.
 */
module Probing {
  import opened Wrappers
  import opened Bits

  /** A possibly-NULL `void *`; pointer identity is modelled as equality of the target. */
  datatype Ptr<T> = Null | Ref(target: T)

  /** HashTableEntryStateOA. */
  datatype EntryState = EmptyState | OccupiedState | TombstoneState

  /**
   * HashTableEntryOA: an Empty slot has always been empty, an Occupied one
   * holds a key/value pair, a Tombstone previously held one. Empty and
   * Tombstone slots carry NULL key and value in the source.
   */
  datatype Slot<K, V> = Empty | Occupied(key: K, value: Ptr<V>) | Tombstone

  function StateOf<K, V>(x: Slot<K, V>): EntryState
  {
    match x
    case Empty => EmptyState
    case Occupied(_, _) => OccupiedState
    case Tombstone => TombstoneState
  }

  // ---------------------------------------------------------------------------
  // Key equality and hashing
  // ---------------------------------------------------------------------------

  /** The key equality callback is an equivalence relation. */
  ghost predicate Equivalence<K(!new)>(eq: (K, K) -> bool)
  {
    && (forall a :: eq(a, a))
    && (forall a, b :: eq(a, b) ==> eq(b, a))
    && (forall a, b, c :: eq(a, b) && eq(b, c) ==> eq(a, c))
  }

  /** Equal keys hash equally: what the table demands of its two callbacks. */
  ghost predicate Coherent<K(!new)>(hash: K -> nat, eq: (K, K) -> bool)
  {
    Equivalence(eq) && forall a, b :: eq(a, b) ==> hash(a) == hash(b)
  }

  /** The slot holds a key equal to q (the source calls key_equal_fn(entry->key, key)). */
  predicate Matches<K, V>(x: Slot<K, V>, eq: (K, K) -> bool, q: K)
  {
    x.Occupied? && eq(x.key, q)
  }

  // ---------------------------------------------------------------------------
  // Counting slot states
  // ---------------------------------------------------------------------------

  /** Number of slots of s in state st. */
  function Count<K, V>(s: seq<Slot<K, V>>, st: EntryState): (r: nat)
    ensures r <= |s|
  {
    if s == [] then 0
    else Count(s[..|s| - 1], st) + (if StateOf(s[|s| - 1]) == st then 1 else 0)
  }

  lemma CountPrefix<K, V>(s: seq<Slot<K, V>>, i: nat, st: EntryState)
    requires i < |s|
    ensures Count(s[..i + 1], st) == Count(s[..i], st) + (if StateOf(s[i]) == st then 1 else 0)
  {
    assert s[..i + 1][..i] == s[..i];
  }

  /** Overwriting one slot changes each state's count by at most one, as expected. */
  lemma {:induction false} CountUpdate<K, V>(s: seq<Slot<K, V>>, i: nat, x: Slot<K, V>, st: EntryState)
    requires i < |s|
    ensures Count(s[i := x], st) ==
      Count(s, st) - (if StateOf(s[i]) == st then 1 else 0) + (if StateOf(x) == st then 1 else 0)
    decreases |s|
  {
    var t := s[i := x];
    var m := |s| - 1;
    if i == m {
      assert t[..m] == s[..m];
    } else {
      assert t[..m] == s[..m][i := x];
      CountUpdate(s[..m], i, x, st);
    }
  }

  lemma {:induction false} CountPrefixAtMost<K, V>(s: seq<Slot<K, V>>, i: nat, st: EntryState)
    requires i <= |s|
    ensures Count(s[..i], st) <= Count(s, st)
    decreases |s| - i
  {
    if i == |s| {
      assert s[..i] == s;
    } else {
      CountPrefixAtMost(s, i + 1, st);
      CountPrefix(s, i, st);
    }
  }

  /** When every slot is in state st, all of them are counted. */
  lemma {:induction false} CountAll<K, V>(s: seq<Slot<K, V>>, st: EntryState)
    requires forall j :: 0 <= j < |s| ==> StateOf(s[j]) == st
    ensures Count(s, st) == |s|
    decreases |s|
  {
    if s != [] {
      CountAll(s[..|s| - 1], st);
    }
  }

  /** When no slot is in state st, the count is zero. */
  lemma {:induction false} CountNone<K, V>(s: seq<Slot<K, V>>, st: EntryState)
    requires forall j :: 0 <= j < |s| ==> StateOf(s[j]) != st
    ensures Count(s, st) == 0
    decreases |s|
  {
    if s != [] {
      CountNone(s[..|s| - 1], st);
    }
  }

  /** Every slot is in exactly one state, so the three counts add up to the number of slots. */
  lemma {:induction false} CountsPartition<K, V>(s: seq<Slot<K, V>>)
    ensures Count(s, EmptyState) + Count(s, OccupiedState) + Count(s, TombstoneState) == |s|
    decreases |s|
  {
    if s != [] {
      CountsPartition(s[..|s| - 1]);
    }
  }

  /** A slot in state st is counted. */
  lemma {:induction false} CountPositive<K, V>(s: seq<Slot<K, V>>, j: nat, st: EntryState)
    requires j < |s| && StateOf(s[j]) == st
    ensures Count(s, st) >= 1
    decreases |s|
  {
    if j < |s| - 1 {
      CountPositive(s[..|s| - 1], j, st);
    }
  }

  // ---------------------------------------------------------------------------
  // The abstract lookup: the first Occupied slot (in index order) with an
  // equal key. Under unique keys this is the only one, and the probe finds it.
  // ---------------------------------------------------------------------------

  /** The first index at or after i whose slot matches q, or |s|. */
  function IndexFrom<K, V>(s: seq<Slot<K, V>>, eq: (K, K) -> bool, q: K, i: nat): (r: nat)
    requires i <= |s|
    ensures i <= r <= |s|
    ensures r < |s| ==> Matches(s[r], eq, q)
    ensures forall j :: i <= j < r ==> !Matches(s[j], eq, q)
    decreases |s| - i
  {
    if i == |s| then |s|
    else if Matches(s[i], eq, q) then i
    else IndexFrom(s, eq, q, i + 1)
  }

  /** The value stored under a key equal to q, if any. */
  function Find<K, V>(s: seq<Slot<K, V>>, eq: (K, K) -> bool, q: K): (r: Option<Ptr<V>>)
    ensures r.Some? <==> exists j :: 0 <= j < |s| && Matches(s[j], eq, q)
    ensures r.Some? ==> exists j :: 0 <= j < |s| && s[j].Occupied? && eq(s[j].key, q) && s[j].value == r.value
  {
    var i := IndexFrom(s, eq, q, 0);
    if i < |s| then Some(s[i].value) else None
  }

  /** No two Occupied slots hold equal keys. */
  ghost predicate UniqueKeys<K, V>(s: seq<Slot<K, V>>, eq: (K, K) -> bool)
  {
    forall i, j :: 0 <= i < |s| && 0 <= j < |s| && s[i].Occupied? && s[j].Occupied? && eq(s[i].key, s[j].key) ==> i == j
  }

  /** With unique keys, a matching slot is the one Find reports. */
  lemma FindMatch<K(!new), V>(s: seq<Slot<K, V>>, eq: (K, K) -> bool, q: K, i: nat)
    requires Equivalence(eq) && UniqueKeys(s, eq)
    requires i < |s| && Matches(s[i], eq, q)
    ensures Find(s, eq, q) == Some(s[i].value)
  {
    var r := IndexFrom(s, eq, q, 0);
    assert r <= i;
    assert eq(s[r].key, s[i].key) by {
      assert eq(q, s[i].key);
    }
  }

  /** Two tables whose slots match q at the same places, with the same values there, agree on q. */
  lemma {:induction false} IndexFromSame<K, V>(s: seq<Slot<K, V>>, t: seq<Slot<K, V>>, eq: (K, K) -> bool, q: K, i: nat)
    requires |s| == |t| && i <= |s|
    requires forall j :: 0 <= j < |s| ==> (Matches(s[j], eq, q) <==> Matches(t[j], eq, q))
    ensures IndexFrom(s, eq, q, i) == IndexFrom(t, eq, q, i)
    decreases |s| - i
  {
    if i < |s| && !Matches(s[i], eq, q) {
      IndexFromSame(s, t, eq, q, i + 1);
    }
  }

  lemma FindSame<K, V>(s: seq<Slot<K, V>>, t: seq<Slot<K, V>>, eq: (K, K) -> bool, q: K)
    requires |s| == |t|
    requires forall j :: 0 <= j < |s| ==> (Matches(s[j], eq, q) <==> Matches(t[j], eq, q))
    requires forall j :: 0 <= j < |s| && s[j].Occupied? && t[j].Occupied? && eq(s[j].key, q) ==> s[j].value == t[j].value
    ensures Find(s, eq, q) == Find(t, eq, q)
  {
    IndexFromSame(s, t, eq, q, 0);
  }

  /** With no Occupied slot, no key is stored. */
  lemma NothingStored<K, V>(s: seq<Slot<K, V>>, eq: (K, K) -> bool)
    requires Count(s, OccupiedState) == 0
    ensures forall j :: 0 <= j < |s| ==> !s[j].Occupied?
    ensures forall q :: Find(s, eq, q).None?
  {
    forall j | 0 <= j < |s|
      ensures !s[j].Occupied?
    {
      if s[j].Occupied? {
        CountPositive(s, j, OccupiedState);
      }
    }
  }

  /** A table stores nothing exactly when it has no Occupied slot. */
  lemma EmptinessMeaning<K(!new), V>(s: seq<Slot<K, V>>, eq: (K, K) -> bool)
    requires Equivalence(eq)
    ensures Count(s, OccupiedState) == 0 <==> forall q :: Find(s, eq, q).None?
  {
    if Count(s, OccupiedState) == 0 {
      NothingStored(s, eq);
    } else {
      assert exists j :: 0 <= j < |s| && s[j].Occupied? by {
        if forall j :: 0 <= j < |s| ==> !s[j].Occupied? {
          CountNone(s, OccupiedState);
        }
      }
      var j :| 0 <= j < |s| && s[j].Occupied?;
      assert Matches(s[j], eq, s[j].key);
      assert Find(s, eq, s[j].key).Some?;
    }
  }

  // ---------------------------------------------------------------------------
  // The key/value pairs a slot array holds (what a rehash must carry over)
  // ---------------------------------------------------------------------------

  ghost function PairOf<K, V>(x: Slot<K, V>): multiset<(K, Ptr<V>)>
  {
    if x.Occupied? then multiset{(x.key, x.value)} else multiset{}
  }

  /** The multiset of key/value pairs held in Occupied slots. */
  ghost function Pairs<K, V>(s: seq<Slot<K, V>>): (r: multiset<(K, Ptr<V>)>)
    ensures |r| == Count(s, OccupiedState)
  {
    if s == [] then multiset{} else Pairs(s[..|s| - 1]) + PairOf(s[|s| - 1])
  }

  lemma PairsPrefix<K, V>(s: seq<Slot<K, V>>, i: nat)
    requires i < |s|
    ensures Pairs(s[..i + 1]) == Pairs(s[..i]) + PairOf(s[i])
  {
    assert s[..i + 1][..i] == s[..i];
  }

  lemma {:induction false} PairsUpdate<K, V>(s: seq<Slot<K, V>>, i: nat, x: Slot<K, V>)
    requires i < |s|
    ensures Pairs(s[i := x]) == Pairs(s) - PairOf(s[i]) + PairOf(x)
    decreases |s|
  {
    var t := s[i := x];
    var m := |s| - 1;
    if i == m {
      assert t[..m] == s[..m];
    } else {
      var front := s[..m];
      assert t[..m] == front[i := x];
      assert Pairs(t) == Pairs(front[i := x]) + PairOf(s[m]);
      PairsUpdate(front, i, x);
      PairsHas(front, i);
      assert front[i] == s[i];
      MultisetSwap(Pairs(front), PairOf(s[i]), PairOf(x), PairOf(s[m]));
    }
  }

  lemma MultisetSwap<T>(a: multiset<T>, out: multiset<T>, in_: multiset<T>, c: multiset<T>)
    requires out <= a
    ensures a - out + in_ + c == a + c - out + in_
  {
  }

  /** Every Occupied slot contributes its pair. */
  lemma {:induction false} PairsHas<K, V>(s: seq<Slot<K, V>>, j: nat)
    requires j < |s|
    ensures PairOf(s[j]) <= Pairs(s)
    decreases |s|
  {
    if j < |s| - 1 {
      PairsHas(s[..|s| - 1], j);
    }
  }

  /** Every pair comes from an Occupied slot. */
  lemma {:induction false} PairsMember<K, V>(s: seq<Slot<K, V>>, p: (K, Ptr<V>))
    requires p in Pairs(s)
    ensures exists j :: 0 <= j < |s| && s[j] == Occupied(p.0, p.1)
    decreases |s|
  {
    var m := |s| - 1;
    if p in Pairs(s[..m]) {
      PairsMember(s[..m], p);
      var j :| 0 <= j < m && s[..m][j] == Occupied(p.0, p.1);
      assert s[j] == Occupied(p.0, p.1);
    } else {
      assert s[m] == Occupied(p.0, p.1);
    }
  }

  lemma FindAgreeOneWay<K(!new), V>(s: seq<Slot<K, V>>, t: seq<Slot<K, V>>, eq: (K, K) -> bool, q: K)
    requires Equivalence(eq) && UniqueKeys(s, eq) && UniqueKeys(t, eq) && Pairs(s) == Pairs(t)
    ensures Find(s, eq, q).Some? ==> Find(t, eq, q) == Find(s, eq, q)
  {
    var i := IndexFrom(s, eq, q, 0);
    if i < |s| {
      PairsHas(s, i);
      PairsMember(t, (s[i].key, s[i].value));
      var j :| 0 <= j < |t| && t[j] == s[i];
      FindMatch(t, eq, q, j);
    }
  }

  /** Slot arrays holding the same pairs under unique keys denote the same lookup. */
  lemma FindAgree<K(!new), V>(s: seq<Slot<K, V>>, t: seq<Slot<K, V>>, eq: (K, K) -> bool, q: K)
    requires Equivalence(eq) && UniqueKeys(s, eq) && UniqueKeys(t, eq) && Pairs(s) == Pairs(t)
    ensures Find(s, eq, q) == Find(t, eq, q)
  {
    FindAgreeOneWay(s, t, eq, q);
    FindAgreeOneWay(t, s, eq, q);
  }

  /** A slot array holding a pair with key k has no room for another key equal to k. */
  lemma NoMatchOutsidePairs<K(!new), V>(s: seq<Slot<K, V>>, t: seq<Slot<K, V>>, eq: (K, K) -> bool, i: nat)
    requires Equivalence(eq) && UniqueKeys(s, eq)
    requires i < |s| && s[i].Occupied? && Pairs(t) == Pairs(s[..i])
    ensures forall j :: 0 <= j < |t| ==> !Matches(t[j], eq, s[i].key)
  {
    forall j | 0 <= j < |t|
      ensures !Matches(t[j], eq, s[i].key)
    {
      NoMatchAt(s, t, eq, i, j);
    }
  }

  lemma NoMatchAt<K(!new), V>(s: seq<Slot<K, V>>, t: seq<Slot<K, V>>, eq: (K, K) -> bool, i: nat, j: nat)
    requires UniqueKeys(s, eq)
    requires i < |s| && s[i].Occupied? && Pairs(t) == Pairs(s[..i]) && j < |t|
    ensures !Matches(t[j], eq, s[i].key)
  {
    if t[j].Occupied? {
      PairsHas(t, j);
      assert (t[j].key, t[j].value) in Pairs(s[..i]);
      PairsMember(s[..i], (t[j].key, t[j].value));
      var u :| 0 <= u < i && s[..i][u] == Occupied(t[j].key, t[j].value);
      assert s[u] == t[j] && u != i;
    }
  }

  // ---------------------------------------------------------------------------
  // Linear probing
  // ---------------------------------------------------------------------------

  /** The d-th probe position from h: (h + d) % n. */
  function Wrap(h: nat, d: nat, n: nat): (r: nat)
    requires h < n && d < n
    ensures r < n && r == (h + d) % n
  {
    if h + d < n then
      ModOfDecomposition(h + d, n, 0, h + d);
      h + d
    else
      ModOfDecomposition(h + d, n, 1, h + d - n);
      h + d - n
  }

  /** How many probe steps lead from h to j. */
  function Dist(h: nat, j: nat, n: nat): (r: nat)
    requires h < n && j < n
    ensures r < n && Wrap(h, r, n) == j
  {
    if h <= j then j - h else j + n - h
  }

  lemma DistOfWrap(h: nat, d: nat, n: nat)
    requires h < n && d < n
    ensures Dist(h, Wrap(h, d, n), n) == d
  {
  }

  /** Advancing the probe index with `(idx + 1) % n`. */
  lemma NextProbe(h: nat, d: nat, n: nat)
    requires h < n && d < n
    ensures (Wrap(h, d, n) + 1) % n == if d + 1 < n then Wrap(h, d + 1, n) else h
  {
    var x := Wrap(h, d, n);
    if x + 1 < n {
      ModOfDecomposition(x + 1, n, 0, x + 1);
    } else {
      ModOfDecomposition(x + 1, n, 1, 0);
    }
  }

  /** The start index `hash % bucket_count`. */
  function Home<K>(hash: K -> nat, k: K, n: nat): (r: nat)
    requires n > 0
    ensures r < n
  {
    hash(k) % n
  }

  /**
   * The probe chain of the Occupied slot i is intact: no slot from its key's
   * start index up to (but excluding) i is Empty.
   */
  ghost predicate ChainIntact<K, V>(s: seq<Slot<K, V>>, hash: K -> nat, i: nat)
    requires i < |s| && s[i].Occupied?
  {
    var h := Home(hash, s[i].key, |s|);
    forall d :: 0 <= d < Dist(h, i, |s|) ==> !s[Wrap(h, d, |s|)].Empty?
  }

  ghost predicate ChainsIntact<K, V>(s: seq<Slot<K, V>>, hash: K -> nat)
  {
    forall i :: 0 <= i < |s| && s[i].Occupied? ==> ChainIntact(s, hash, i)
  }

  /** i is the first non-Occupied slot met when probing from h. */
  ghost predicate FirstFree<K, V>(s: seq<Slot<K, V>>, h: nat, i: nat)
    requires h < |s| && i < |s|
  {
    !s[i].Occupied? && forall d :: 0 <= d < Dist(h, i, |s|) ==> s[Wrap(h, d, |s|)].Occupied?
  }

  /** A full probe round visits every slot. */
  lemma ProbeCoversAll<K, V>(s: seq<Slot<K, V>>, h: nat)
    requires h < |s|
    requires forall d :: 0 <= d < |s| ==> s[Wrap(h, d, |s|)].Occupied?
    ensures forall j :: 0 <= j < |s| ==> s[j].Occupied?
  {
    forall j | 0 <= j < |s|
      ensures s[j].Occupied?
    {
      assert Wrap(h, Dist(h, j, |s|), |s|) == j;
    }
  }

  /**
   * A probe for q that met no equal key and then either an Empty slot
   * (at step d) or the end of a full round (d == n) proves q absent.
   */
  lemma ProbeMiss<K(!new), V>(s: seq<Slot<K, V>>, hash: K -> nat, eq: (K, K) -> bool, q: K, d: nat)
    requires |s| > 0 && d <= |s| && Coherent(hash, eq) && ChainsIntact(s, hash)
    requires forall e :: 0 <= e < d ==> !Matches(s[Wrap(Home(hash, q, |s|), e, |s|)], eq, q)
    requires d < |s| ==> s[Wrap(Home(hash, q, |s|), d, |s|)].Empty?
    ensures forall j :: 0 <= j < |s| ==> !Matches(s[j], eq, q)
  {
    var n := |s|;
    var h := Home(hash, q, n);
    forall j | 0 <= j < n
      ensures !Matches(s[j], eq, q)
    {
      var dj := Dist(h, j, n);
      if dj < d {
        assert !Matches(s[Wrap(h, dj, n)], eq, q);
      } else if d < dj {
        assert s[j].Occupied? ==> ChainIntact(s, hash, j);
      }
    }
  }

  // ---------------------------------------------------------------------------
  // What each kind of slot write does to the invariants and to the lookup
  // ---------------------------------------------------------------------------

  /**
   * Placing a key k2 (equal to the probed key k, which is absent) in the first
   * non-Occupied slot of k's probe keeps the invariants and adds exactly the
   * mapping of k's equivalence class.
   */
  lemma PlaceFacts<K(!new), V>(s: seq<Slot<K, V>>, hash: K -> nat, eq: (K, K) -> bool, k: K, k2: K, v: Ptr<V>, i: nat)
    requires Coherent(hash, eq) && ChainsIntact(s, hash) && UniqueKeys(s, eq)
    requires i < |s| && FirstFree(s, Home(hash, k, |s|), i) && eq(k2, k)
    requires forall j :: 0 <= j < |s| ==> !Matches(s[j], eq, k)
    ensures ChainsIntact(s[i := Occupied(k2, v)], hash)
    ensures UniqueKeys(s[i := Occupied(k2, v)], eq)
    ensures forall q :: Find(s[i := Occupied(k2, v)], eq, q) == if eq(k, q) then Some(v) else Find(s, eq, q)
  {
    var t := s[i := Occupied(k2, v)];
    var n := |s|;
    var h := Home(hash, k, n);
    assert Home(hash, k2, n) == h;
    forall j | 0 <= j < n && t[j].Occupied?
      ensures ChainIntact(t, hash, j)
    {
      if j == i {
        forall d | 0 <= d < Dist(h, i, n)
          ensures !t[Wrap(h, d, n)].Empty?
        {
          DistOfWrap(h, d, n);
        }
      } else {
        assert ChainIntact(s, hash, j);
      }
    }
    forall a, b | 0 <= a < n && 0 <= b < n && t[a].Occupied? && t[b].Occupied? && eq(t[a].key, t[b].key)
      ensures a == b
    {
    }
    forall q
      ensures Find(t, eq, q) == if eq(k, q) then Some(v) else Find(s, eq, q)
    {
      if eq(k, q) {
        FindMatch(t, eq, q, i);
      } else {
        FindSame(s, t, eq, q);
      }
    }
  }

  /** Turning the slot holding k into a Tombstone keeps the invariants and removes k's class. */
  lemma TombstoneFacts<K(!new), V>(s: seq<Slot<K, V>>, hash: K -> nat, eq: (K, K) -> bool, k: K, i: nat)
    requires Coherent(hash, eq) && ChainsIntact(s, hash) && UniqueKeys(s, eq)
    requires i < |s| && Matches(s[i], eq, k)
    ensures ChainsIntact(s[i := Tombstone], hash)
    ensures UniqueKeys(s[i := Tombstone], eq)
    ensures forall q :: Find(s[i := Tombstone], eq, q) == if eq(k, q) then None else Find(s, eq, q)
  {
    var t := s[i := Tombstone];
    forall j | 0 <= j < |t| && t[j].Occupied?
      ensures ChainIntact(t, hash, j)
    {
      assert ChainIntact(s, hash, j);
    }
    forall q
      ensures Find(t, eq, q) == if eq(k, q) then None else Find(s, eq, q)
    {
      if eq(k, q) {
        forall j | 0 <= j < |t|
          ensures !Matches(t[j], eq, q)
        {
        }
      } else {
        FindSame(s, t, eq, q);
      }
    }
  }

  /** Replacing the value in the slot holding k keeps the invariants and rebinds k's class. */
  lemma ValueUpdateFacts<K(!new), V>(s: seq<Slot<K, V>>, hash: K -> nat, eq: (K, K) -> bool, k: K, i: nat, v: Ptr<V>)
    requires Coherent(hash, eq) && ChainsIntact(s, hash) && UniqueKeys(s, eq)
    requires i < |s| && Matches(s[i], eq, k)
    ensures ChainsIntact(s[i := Occupied(s[i].key, v)], hash)
    ensures UniqueKeys(s[i := Occupied(s[i].key, v)], eq)
    ensures forall q :: Find(s[i := Occupied(s[i].key, v)], eq, q) == if eq(k, q) then Some(v) else Find(s, eq, q)
  {
    var t := s[i := Occupied(s[i].key, v)];
    forall j | 0 <= j < |t| && t[j].Occupied?
      ensures ChainIntact(t, hash, j)
    {
      assert ChainIntact(s, hash, j);
    }
    forall q
      ensures Find(t, eq, q) == if eq(k, q) then Some(v) else Find(s, eq, q)
    {
      if eq(k, q) {
        FindMatch(t, eq, q, i);
      } else {
        FindSame(s, t, eq, q);
      }
    }
  }

  // ---------------------------------------------------------------------------
  // Iteration order and the contents handed to the free callbacks
  // ---------------------------------------------------------------------------

  /** The first Occupied index at or after i, or |s|. */
  function NextOccupied<K, V>(s: seq<Slot<K, V>>, i: nat): (r: nat)
    requires i <= |s|
    ensures i <= r <= |s|
    ensures r < |s| ==> s[r].Occupied?
    ensures forall j :: i <= j < r ==> !s[j].Occupied?
    decreases |s| - i
  {
    if i == |s| || s[i].Occupied? then i else NextOccupied(s, i + 1)
  }

  /** The Occupied indices below b, ascending. */
  function OccupiedBelow<K, V>(s: seq<Slot<K, V>>, b: nat): (r: seq<nat>)
    requires b <= |s|
    ensures forall t :: 0 <= t < |r| ==> r[t] < b && s[r[t]].Occupied?
    ensures forall j :: 0 <= j < b && s[j].Occupied? ==> j in r
    ensures forall t, u :: 0 <= t < u < |r| ==> r[t] < r[u]
  {
    if b == 0 then [] else OccupiedBelow(s, b - 1) + (if s[b - 1].Occupied? then [b - 1] else [])
  }

  lemma {:induction false} OccupiedBelowSkip<K, V>(s: seq<Slot<K, V>>, a: nat, b: nat)
    requires a <= b <= |s|
    requires forall j :: a <= j < b ==> !s[j].Occupied?
    ensures OccupiedBelow(s, b) == OccupiedBelow(s, a)
    decreases b - a
  {
    if a < b {
      OccupiedBelowSkip(s, a, b - 1);
    }
  }

  /** The Occupied indices below b are as many as the Occupied slots of s[..b]. */
  lemma {:induction false} OccupiedBelowCount<K, V>(s: seq<Slot<K, V>>, b: nat)
    requires b <= |s|
    ensures |OccupiedBelow(s, b)| == Count(s[..b], OccupiedState)
  {
    if b > 0 {
      OccupiedBelowCount(s, b - 1);
      assert s[..b][..b - 1] == s[..b - 1];
    }
  }

  /** The keys of the Occupied slots, in index order. */
  function KeysOf<K, V>(s: seq<Slot<K, V>>): (r: seq<K>)
    ensures |r| == Count(s, OccupiedState)
  {
    if s == [] then []
    else KeysOf(s[..|s| - 1]) + (if s[|s| - 1].Occupied? then [s[|s| - 1].key] else [])
  }

  /** The non-NULL values of the Occupied slots, in index order. */
  function ValuesOf<K, V>(s: seq<Slot<K, V>>): (r: seq<V>)
    ensures |r| <= Count(s, OccupiedState)
  {
    if s == [] then []
    else ValuesOf(s[..|s| - 1]) + (if s[|s| - 1].Occupied? && s[|s| - 1].value.Ref? then [s[|s| - 1].value.target] else [])
  }

  lemma KeysValuesPrefix<K, V>(s: seq<Slot<K, V>>, i: nat)
    requires i < |s|
    ensures KeysOf(s[..i + 1]) == KeysOf(s[..i]) + (if s[i].Occupied? then [s[i].key] else [])
    ensures ValuesOf(s[..i + 1]) == ValuesOf(s[..i]) + (if s[i].Occupied? && s[i].value.Ref? then [s[i].value.target] else [])
  {
    assert s[..i + 1][..i] == s[..i];
  }
}
