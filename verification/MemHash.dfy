/**
 The in-memory hash table of a transaction: open addressing with triangular probing, keys and values of 0 meaning unset.
 */
module MemHash {
  import opened Words
  import opened Arithmetic
  import opened Primes
  import opened Probing

  datatype Item = Item(k: u32, v: u32)

  const MAX_SIZE: nat := 6420683

  // ---- a table as a value

  /** The item that probe i of hash h looks at. */
  function At(es: seq<Item>, h: u32, i: nat): Item
    requires es != []
  {
    es[ProbeSlot(h, i, |es|)]
  }

  /** The first n probes of k meet other keys only. */
  ghost predicate Path(es: seq<Item>, h: u32, k: u32, n: nat)
    requires es != []
  {
    forall i :: 0 <= i < n ==> At(es, h, i).k != 0 && At(es, h, i).k != k
  }

  ghost predicate Found(es: seq<Item>, h: u32, k: u32) {
    es != [] && exists n: nat :: Path(es, h, k, n) && At(es, h, n).k == k
  }

  /**
   The table holds exactly the map m: each key in one slot with its value, every slot on its probe path before
   that one taken by another key, and nothing in the empty slots.
   */
  ghost predicate Stores(es: seq<Item>, hash: u32 -> u32, m: map<u32, u32>) {
    && 0 !in m
    && (forall s :: 0 <= s < |es| && es[s].k == 0 ==> es[s].v == 0)
    && (forall s :: 0 <= s < |es| && es[s].k != 0 ==> es[s].k in m && m[es[s].k] == es[s].v)
    && (forall s, s' :: 0 <= s < s' < |es| && es[s].k != 0 ==> es[s].k != es[s'].k)
    && (forall k :: k in m ==> Found(es, hash(k), k))
  }

  ghost function Occupied(es: seq<Item>): set<nat> {
    set s | 0 <= s < |es| && es[s].k != 0
  }

  lemma KeysOfSlots(es: seq<Item>, d: set<nat>)
    requires forall s :: s in d ==> s < |es|
    requires forall s, s' :: s in d && s' in d && s != s' ==> es[s].k != es[s'].k
    ensures |set s | s in d :: es[s].k| == |d|
    decreases |d|
  {
    if d != {} {
      var s :| s in d;
      KeysOfSlots(es, d - {s});
      assert (set x | x in d :: es[x].k) == (set x | x in d - {s} :: es[x].k) + {es[s].k};
    }
  }

  /** The number of keys is the number of occupied slots. */
  lemma CountIsOccupied(es: seq<Item>, hash: u32 -> u32, m: map<u32, u32>)
    requires Stores(es, hash, m)
    ensures |m| == |Occupied(es)|
  {
    KeysOfSlots(es, Occupied(es));
    forall k | k in m
      ensures k in set s | s in Occupied(es) :: es[s].k
    {
      var n: nat :| Path(es, hash(k), k, n) && At(es, hash(k), n).k == k;
      assert ProbeSlot(hash(k), n, |es|) in Occupied(es);
    }
    assert (set s | s in Occupied(es) :: es[s].k) == m.Keys;
  }

  /** The probe loop for k stops at n: at k itself, or at the first empty slot. */
  ghost predicate Stops(es: seq<Item>, h: u32, k: u32, n: nat)
    requires es != []
  {
    Path(es, h, k, n) && (At(es, h, n).k == 0 || At(es, h, n).k == k)
  }

  /** Where the loop stops decides whether k is stored, and the item there has its value or 0. */
  lemma StopDecides(es: seq<Item>, hash: u32 -> u32, m: map<u32, u32>, k: u32, n: nat)
    requires es != [] && Stores(es, hash, m) && Stops(es, hash(k), k, n)
    ensures k in m <==> At(es, hash(k), n).k == k != 0
    ensures At(es, hash(k), n).v == if k in m then m[k] else 0
  {
    if k in m {
      var n': nat :| Path(es, hash(k), k, n') && At(es, hash(k), n').k == k;
      StopUnique(es, hash(k), k, n, n');
    }
  }

  lemma StopUnique(es: seq<Item>, h: u32, k: u32, n: nat, n': nat)
    requires es != [] && Stops(es, h, k, n) && Stops(es, h, k, n')
    ensures n == n'
  {
  }

  /** Writing the pair where the loop stops keeps the table and binds k. */
  lemma PutStores(es: seq<Item>, hash: u32 -> u32, m: map<u32, u32>, k: u32, v: u32, n: nat)
    requires es != [] && k != 0 && Stores(es, hash, m) && Stops(es, hash(k), k, n)
    ensures Stores(es[ProbeSlot(hash(k), n, |es|) := Item(k, v)], hash, m[k := v])
    ensures |m[k := v]| == |m| + if At(es, hash(k), n).k == 0 then 1 else 0
  {
    StopDecides(es, hash, m, k, n);
    assert m[k := v].Keys == m.Keys + {k};
    PutSlots(es, hash, m, k, v, n);
    forall k' | k' in m[k := v]
      ensures Found(es[ProbeSlot(hash(k), n, |es|) := Item(k, v)], hash(k'), k')
    {
      PutFound(es, hash, m, k, v, n, k');
    }
  }

  lemma PutSlots(es: seq<Item>, hash: u32 -> u32, m: map<u32, u32>, k: u32, v: u32, n: nat)
    requires es != [] && k != 0 && Stores(es, hash, m) && (k in m <==> At(es, hash(k), n).k == k)
    requires At(es, hash(k), n).k == 0 || At(es, hash(k), n).k == k
    ensures var es' := es[ProbeSlot(hash(k), n, |es|) := Item(k, v)];
            && (forall s :: 0 <= s < |es'| && es'[s].k == 0 ==> es'[s].v == 0)
            && (forall s :: 0 <= s < |es'| && es'[s].k != 0 ==>
                  es'[s].k in m[k := v] && m[k := v][es'[s].k] == es'[s].v)
            && (forall s, s' :: 0 <= s < s' < |es'| && es'[s].k != 0 ==> es'[s].k != es'[s'].k)
  {
    hide Found, ProbeSlot;
  }

  lemma PutFound(es: seq<Item>, hash: u32 -> u32, m: map<u32, u32>, k: u32, v: u32, n: nat, k': u32)
    requires es != [] && k != 0 && Stores(es, hash, m) && Stops(es, hash(k), k, n) && k' in m[k := v]
    ensures Found(es[ProbeSlot(hash(k), n, |es|) := Item(k, v)], hash(k'), k')
  {
    var n': nat := n;
    if k' != k {
      n' :| Path(es, hash(k'), k', n') && At(es, hash(k'), n').k == k';
    }
    hide Stores, Found, ProbeSlot;
    PathKept(es, hash(k'), k', n', ProbeSlot(hash(k), n, |es|), Item(k, v));
  }

  lemma PathKept(es: seq<Item>, h: u32, k: u32, n: nat, s: nat, e: Item)
    requires s < |es| && Path(es, h, k, n) && e.k != 0
    requires if e.k == k then ProbeSlot(h, n, |es|) == s && (es[s].k == 0 || es[s].k == k)
             else At(es, h, n).k == k && es[s].k != k
    ensures Found(es[s := e], h, k)
  {
    var es' := es[s := e];
    forall i | 0 <= i < n
      ensures At(es', h, i).k != 0 && At(es', h, i).k != k
    {
      assert At(es, h, i).k != 0 && At(es, h, i).k != k;
    }
    assert Path(es', h, k, n) && At(es', h, n).k == k;
  }

  lemma HasEmptySlot(es: seq<Item>, hash: u32 -> u32, m: map<u32, u32>) returns (s: nat)
    requires Stores(es, hash, m) && |m| < |es|
    ensures s < |es| && es[s].k == 0
  {
    CountIsOccupied(es, hash, m);
    hide Stores;
    if forall s :: 0 <= s < |es| ==> es[s].k != 0 {
      SubsetSize(Below(|es|), Occupied(es));
      assert false;
    }
    s :| 0 <= s < |es| && es[s].k == 0;
  }

  /** In a table that is not full every probe sequence meets an empty slot, so every probe loop ends. */
  lemma FreeProbe(es: seq<Item>, hash: u32 -> u32, m: map<u32, u32>, h: u32) returns (n: nat)
    requires Stores(es, hash, m) && |m| < |es| <= 0x4000_0000
    ensures n < HALF_LIMIT && At(es, h, n).k == 0
  {
    var s := HasEmptySlot(es, hash, m);
    n := ProbesCover(h, |es|, s);
  }

  /**
   In a table at most half full, of odd prime size, a probe loop ends within (p + 1) / 2 probes if none of those
   wraps around, neither its square nor its sum.
   */
  lemma FreeProbeSoon(es: seq<Item>, hash: u32 -> u32, m: map<u32, u32>, h: u32) returns (n: nat)
    requires Stores(es, hash, m) && 2 * |m| + 1 <= |es|
    requires Prime(|es|) && |es| % 2 == 1 && Turns(h, |es| / 2) == 0
    ensures n < (|es| + 1) / 2 && At(es, h, n).k == 0
  {
    CountIsOccupied(es, hash, m);
    var p := |es|;
    hide Stores, ProbeSlot;
    var f := seq((p + 1) / 2, r requires 0 <= r < (p + 1) / 2 => ProbeSlot(h, r, p));
    if forall i :: 0 <= i < (p + 1) / 2 ==> At(es, h, i).k != 0 {
      AllDifferent(h, p, f);
      forall r | 0 <= r < |f|
        ensures f[r] in Occupied(es)
      {
        assert At(es, h, r).k != 0;
      }
      DistinctIn(f, Occupied(es));
      assert false;
    }
    n :| n < (p + 1) / 2 && At(es, h, n).k == 0;
  }

  lemma AllDifferent(h: u32, p: nat, f: seq<nat>)
    requires Prime(p) && p % 2 == 1 && Turns(h, p / 2) == 0
    requires |f| == (p + 1) / 2 && forall r :: 0 <= r < |f| ==> f[r] == ProbeSlot(h, r, p)
    ensures forall r, s :: 0 <= r < s < |f| ==> f[r] != f[s]
  {
    hide ProbeSlot, Prime;
    forall r, s | 0 <= r < s < |f|
      ensures f[r] != f[s]
    {
      NoTurnBefore(h, r, p / 2);
      NoTurnBefore(h, s, p / 2);
      FirstProbesDistinct(h, p, r, s);
    }
  }

  // ---- the two-thirds table

  /** The three-slot table after keys 1 and 2 were set, for a hash that sends everything to 0. */
  const TWO_OF_THREE: seq<Item> := [Item(1, 1), Item(2, 2), Item(0, 0)]

  lemma TwoOfThreeStores()
    ensures Stores(TWO_OF_THREE, _ => 0, map[1 := 1, 2 := 2])
  {
    assert At(TWO_OF_THREE, 0, 0).k == 1;
    assert At(TWO_OF_THREE, 0, 1).k == 2;
    assert Path(TWO_OF_THREE, 0, 1, 0) && Path(TWO_OF_THREE, 0, 2, 1);
  }

  /**
   Right after an insert a table may be more than half full, and then a lookup of a missing key can be long: in
   this table no probe below 65536 meets the empty slot. No triangular number is 2 modulo 3, so it is the wrap-around
   of the square that ends the lookup, at probe 65536.
   */
  lemma MissingKeyProbesOn(i: nat)
    requires i < 0x1_0000
    ensures Stores(TWO_OF_THREE, _ => 0, map[1 := 1, 2 := 2])
    ensures At(TWO_OF_THREE, 0, i).k in {1, 2} && At(TWO_OF_THREE, 0, 0x1_0000).k == 0
  {
    TwoOfThreeStores();
    SmallOffset(i);
    TriangleModThree(i);
    assert Offset(0x1_0000) == 32768;
  }

  lemma SmallOffset(i: nat)
    requires i < 0x1_0000
    ensures Offset(i) == Triangle(i)
  {
    TriangleGrows(i, 0xFFFF);
    OffsetIsTriangle(i);
  }

  lemma TriangleModThree(i: nat)
    ensures Triangle(i) % 3 < 2
  {
    TwiceTriangle(i);
    hide Triangle;
    PairModThree(i / 3, i % 3);
    HalfModThree(Triangle(i), i * i + i);
  }

  lemma HalfModThree(t: nat, z: nat)
    requires z == 2 * t && z % 3 != 1
    ensures t % 3 < 2
  {
  }

  /** No i * (i + 1) is 1 modulo 3. */
  lemma PairModThree(q: nat, r: nat)
    requires r < 3
    ensures var i := 3 * q + r; (i * i + i) % 3 != 1
  {
    SquareOfSum(q, r);
    var z := 3 * (q * q) + 2 * (q * r) + q;
    assert r * r + r == 0 || r * r + r == 2 || r * r + r == 6 by {
      assert r == 0 || r == 1 || r == 2;
    }
  }

  lemma SquareOfSum(q: int, r: int)
    ensures (3 * q + r) * (3 * q + r) == 3 * (3 * (q * q) + 2 * (q * r)) + r * r
  {
  }

  // ---- the table object

  /** The place of the first capacity in the list, from i on, that is at least n. */
  ghost function NextIndex(sizes: seq<nat>, n: nat, i: nat): (j: nat)
    requires i < |sizes| && n <= sizes[|sizes| - 1]
    ensures i <= j < |sizes| && n <= sizes[j]
    ensures forall m :: i <= m < j ==> sizes[m] < n
    decreases |sizes| - i
  {
    if n <= sizes[i] then i else NextIndex(sizes, n, i + 1)
  }

  predicate Listed(c: nat) {
    c in HASH_SIZES
  }

  /** No listed capacity of at least n is smaller than c. */
  ghost predicate NoLarger(c: nat, n: nat) {
    forall x :: Listed(x) && n <= x ==> c <= x
  }

  lemma ListedBounds(c: nat)
    requires Listed(c)
    ensures 3 <= c <= MAX_SIZE
  {
  }

  ghost function NextSize(n: nat): (c: nat)
    requires n <= MAX_SIZE
    ensures Listed(c) && n <= c
    ensures NoLarger(c, n)
  {
    SizesIncrease();
    FirstIsLeast(HASH_SIZES, n);
    HASH_SIZES[NextIndex(HASH_SIZES, n, 0)]
  }

  /** In an increasing list the first element that is large enough is the least one. */
  lemma FirstIsLeast(sizes: seq<nat>, n: nat)
    requires sizes != [] && n <= sizes[|sizes| - 1]
    requires forall i, j :: 0 <= i < j < |sizes| ==> sizes[i] < sizes[j]
    ensures sizes[NextIndex(sizes, n, 0)] in sizes
    ensures forall x :: x in sizes && n <= x ==> sizes[NextIndex(sizes, n, 0)] <= x
  {
  }

  lemma SizesIncrease()
    ensures forall i, j :: 0 <= i < j < |HASH_SIZES| ==> HASH_SIZES[i] < HASH_SIZES[j]
  {
  }

  class Table {
    var count: nat
    var capacity: nat
    var entries: array<Item>
    /** The hash function; nothing is assumed about it. */
    const hash: u32 -> u32
    ghost var contents: map<u32, u32>

    /** The table stores its contents and is at most one key more than half full. */
    ghost predicate Sound()
      reads this, entries
    {
      && capacity == entries.Length && (capacity == 0 || Listed(capacity))
      && count == |contents| && 2 * count <= capacity + 1
      && Stores(entries[..], hash, contents)
    }

    /** Besides, it is no larger than a resize at its number of keys would make it. */
    ghost predicate Valid()
      reads this, entries
    {
      Sound() && NoLarger(capacity, 2 * count + 1)
    }

    constructor (hash: u32 -> u32)
      ensures Valid() && fresh(entries) && this.hash == hash && contents == map[] && capacity == 0
    {
      this.hash := hash;
      count, capacity, contents := 0, 0, map[];
      entries := new Item[0];
    }

    /** A table that is not empty has an empty slot, and every probe loop ends there at the latest. */
    lemma ProbesEnd(h: u32) returns (n: nat)
      requires Sound() && capacity != 0
      ensures n < HALF_LIMIT && At(entries[..], h, n).k == 0
    {
      ListedBounds(capacity);
      n := FreeProbe(entries[..], hash, contents, h);
    }

    /** The value bound to k, or 0. */
    method Get(k: u32) returns (v: u32)
      requires Sound()
      ensures v == if k in contents then contents[k] else 0
    {
      hide Listed, Found;
      if capacity == 0 {
        NothingStored(entries[..], hash, contents);
        return 0;
      }
      ghost var last := ProbesEnd(hash(k));
      var i := Probe(k, last);
      StopDecides(entries[..], hash, contents, k, i);
      v := entries[ProbeSlot(hash(k), i, capacity)].v;
    }

    /** The probe loop: from probe 0 on, to k or to the first empty slot. */
    method Probe(k: u32, ghost last: nat) returns (i: nat)
      requires capacity == entries.Length != 0
      requires At(entries[..], hash(k), last).k == 0 || At(entries[..], hash(k), last).k == k
      ensures Stops(entries[..], hash(k), k, i)
    {
      var h := hash(k);
      i := 0;
      var e := entries[ProbeSlot(h, i, capacity)];
      while e.k != 0 && e.k != k
        invariant e == At(entries[..], h, i)
        invariant Path(entries[..], h, k, i) && i <= last
        decreases last - i
      {
        i := i + 1;
        e := entries[ProbeSlot(h, i, capacity)];
      }
    }

    /**
     Binds k to v; a table more than half full moves to the next larger capacity first. The sets of a resize start
     from a table that is larger than its keys need; every other set keeps the table valid.
     */
    method Set(k: u32, v: u32)
      requires Sound() && k != 0
      requires 2 * count + 1 <= capacity || (Valid() && 2 * count + 1 <= MAX_SIZE)
      modifies this, entries
      ensures Sound() && (old(Valid()) ==> Valid()) && contents == old(contents)[k := v]
      ensures capacity == if 2 * old(count) + 1 <= old(capacity) then old(capacity) else NextSize(2 * old(count) + 1)
      ensures if 2 * old(count) + 1 <= old(capacity) then entries == old(entries) else fresh(entries)
      decreases if 2 * count + 1 <= capacity then 0 else 2, 0
    {
      hide Listed, NextSize, Found;
      if count * 2 + 1 > capacity {
        Resize();
      }
      ghost var es := entries[..];
      ghost var last := ProbesEnd(hash(k));
      var i := Probe(k, last);
      PutStores(es, hash, contents, k, v, i);
      var s := ProbeSlot(hash(k), i, capacity);
      if entries[s].k == 0 {
        count := count + 1;
      }
      entries[s] := Item(k, v);
      contents := contents[k := v];
      assert entries[..] == es[s := Item(k, v)];
    }

    /** Moves to the first listed capacity that is at least 2 * count + 1; a valid table never shrinks by that. */
    method Resize()
      requires Valid() && 2 * count + 1 <= MAX_SIZE
      modifies this
      ensures Valid() && 2 * count + 1 <= capacity == NextSize(2 * old(count) + 1)
      ensures contents == old(contents) && count == old(count) && old(capacity) <= capacity
      ensures if old(capacity) < capacity then fresh(entries)
              else entries == old(entries) && entries[..] == old(entries[..])
      decreases 1, 2
    {
      hide Stores, Listed, NextSize;
      var was := capacity;
      capacity := NextCapacity(count * 2 + 1);
      if was < capacity {
        Move();
      }
    }

    /** Replaces the entries by an empty table of the new capacity and sets every pair again. */
    method Move()
      requires 2 * count + 1 <= capacity && entries.Length < capacity && Listed(capacity)
      requires count == |contents| && Stores(entries[..], hash, contents)
      modifies this
      ensures Sound() && contents == old(contents) && count == old(count) && capacity == old(capacity)
      ensures fresh(entries)
      decreases 1, 1
    {
      hide Stores, Listed;
      var olds := entries;
      ghost var m := contents;
      entries := new Item[capacity](_ => Item(0, 0));
      count, contents := 0, map[];
      EmptyStores(entries[..], hash);
      Rehash(olds, m);
    }

    static method NextCapacity(n: nat) returns (c: nat)
      requires n <= MAX_SIZE
      ensures c == NextSize(n)
    {
      c := FirstFit(HASH_SIZES, n);
    }

    /** The search through the list of capacities. */
    static method FirstFit(sizes: seq<nat>, n: nat) returns (c: nat)
      requires sizes != [] && n <= sizes[|sizes| - 1]
      ensures c == sizes[NextIndex(sizes, n, 0)]
    {
      c := n;
      for i := 0 to |sizes|
        invariant i <= NextIndex(sizes, n, 0)
      {
        if sizes[i] >= n {
          return sizes[i];
        }
      }
    }

    /** Sets every pair of the old entries in the new, larger table; none of these sets resizes again. */
    method Rehash(olds: array<Item>, ghost m: map<u32, u32>)
      requires Sound() && contents == map[] && 2 * |m| + 1 <= capacity
      requires olds != entries && Stores(olds[..], hash, m)
      modifies this, entries
      ensures Sound() && contents == m && capacity == old(capacity) && entries == old(entries)
      decreases 1, 0
    {
      hide Stores, Listed;
      for i := 0 to olds.Length
        invariant Sound() && capacity == old(capacity) && entries == old(entries)
        invariant contents.Keys <= m.Keys
        invariant forall k :: k in contents ==> contents[k] == m[k]
        invariant forall s :: 0 <= s < i && olds[s].k != 0 ==> olds[s].k in contents
      {
        KeysBound(contents, m);
        var e := olds[i];
        if e.k != 0 {
          SlotStored(olds[..], hash, m, i);
          Set(e.k, e.v);
        }
      }
      AllMoved(olds[..], hash, m, contents);
    }
  }

  lemma NothingStored(es: seq<Item>, hash: u32 -> u32, m: map<u32, u32>)
    requires es == [] && Stores(es, hash, m)
    ensures m == map[]
  {
  }

  lemma EmptyStores(es: seq<Item>, hash: u32 -> u32)
    requires forall s :: 0 <= s < |es| ==> es[s] == Item(0, 0)
    ensures Stores(es, hash, map[])
  {
  }

  lemma SlotStored(es: seq<Item>, hash: u32 -> u32, m: map<u32, u32>, s: nat)
    requires Stores(es, hash, m) && s < |es| && es[s].k != 0
    ensures es[s].k in m && m[es[s].k] == es[s].v
  {
  }

  lemma KeysBound(a: map<u32, u32>, b: map<u32, u32>)
    requires a.Keys <= b.Keys
    ensures |a| <= |b|
  {
    SubsetSize(a.Keys, b.Keys);
  }

  /** Once every occupied slot was copied, the copy is the whole map. */
  lemma AllMoved(es: seq<Item>, hash: u32 -> u32, m: map<u32, u32>, c: map<u32, u32>)
    requires Stores(es, hash, m) && c.Keys <= m.Keys
    requires forall k :: k in c ==> c[k] == m[k]
    requires forall s :: 0 <= s < |es| && es[s].k != 0 ==> es[s].k in c
    ensures c == m
  {
    forall k | k in m
      ensures k in c
    {
      var n: nat :| Path(es, hash(k), k, n) && At(es, hash(k), n).k == k;
    }
  }
}
