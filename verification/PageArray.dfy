/**
 The array object: length, get, set, push, pop and resize over the blocks of a store. Its items are a sequence,
 whether they lie in the root block or in the data blocks of a page table.
 */
module PageArray {
  import opened Words
  import opened Arithmetic
  import opened BlockBytes
  import opened PageModel
  import opened PageStore
  import opened ArrayModel

  /** Between two memories only the root and blocks of the two tables were written. */
  ghost predicate Confined(m: Mem, m': Mem, root: nat, t: Table, u: Table) {
    && SameShape(m, m')
    && forall b :: b in m && b != root && b !in t.data && b !in t.index && b !in u.data && b !in u.index ==>
         m'[b] == m[b]
  }

  lemma ConfinedThrough(m: Mem, m1: Mem, m2: Mem, root: nat, t: Table, u: Table)
    requires Confined(m, m1, root, t, u) && Confined(m1, m2, root, u, u)
    ensures Confined(m, m2, root, t, u)
  {
  }

  lemma TouchedConfined(m: Mem, m1: Mem, root: nat, t: Table, u: Table)
    requires Touched(m, m1, root, t, u, SLOTS)
    ensures Confined(m, m1, root, t, u) && root in m1 && |m1[root]| == BLOCK_SIZE
  {
  }

  lemma PutSavedConfined(m: Mem, m1: Mem, root: nat, t: Table, u: Table, x: nat, saved: seq<byte>)
    requires Confined(m, m1, root, t, u) && (x == root || x in u.data) && x in m1 && |saved| <= |m1[x]|
    ensures Confined(m, PutSaved(m1, x, saved), root, t, u)
  {
  }

  lemma PutBytesConfined(m: Mem, root: nat, t: Table, s: seq<byte>)
    requires root in m && |s| <= |m[root]|
    ensures Confined(m, PutBlock(m, root, PutBytes(m[root], 0, s)), root, t, t)
  {
  }

  lemma ConfinedLater(m: Mem, m1: Mem, m2: Mem, root: nat, t: Table, u: Table)
    requires Confined(m, m1, root, t, t) && Confined(m1, m2, root, t, u)
    ensures Confined(m, m2, root, t, u)
  {
  }

  lemma BodyShows(m: Mem, root: nat, t: Table, size: nat, len: nat)
    requires ArrayBody(m, root, t, size, len)
    ensures root in m && |m[root]| == BLOCK_SIZE && m[root][AREA] == size
  {
  }

  class Array {
    const store: Store
    const root: nat
    ghost const size: nat
    ghost var table: Table
    ghost var items: seq<Item>

    ghost predicate Valid()
      reads this, store
    {
      store.free == table.free && ArrayRep(store.mem, root, table, size, items)
    }

    /** Of the blocks outside this array none was written since memory m and table t. */
    ghost predicate OnlyOwn(m: Mem, t: Table)
      reads this, store
    {
      Confined(m, store.mem, root, t, table)
    }

    ghost function Capacity(): nat
      requires 0 < size
      reads this
    {
      CapacityOf(|table.data|, size)
    }

    /** Clears a block and makes it the root of an empty array. */
    constructor (store: Store, root: nat, size: byte)
      requires root in store.mem && 0 < size && Named(store.mem, store.free) && Apart(Table([], [], store.free), root)
      modifies store
      ensures Valid() && items == [] && table == Table([], [], old(store.free))
      ensures this.store == store && this.root == root && this.size == size
    {
      this.store, this.root, this.size := store, root, size;
      table, items := Table([], [], store.free), [];
      new;
      store.Init(root, SLOTS);
      store.mem := PutBlock(store.mem, root, store.mem[root][AREA := size]);
      EmptyArray(store.mem, root, store.free, size);
    }

    /** What the header of the root shows. */
    lemma Shown()
      requires Valid()
      ensures 0 < size < 256 && root in store.mem && |store.mem[root]| == BLOCK_SIZE
      ensures store.mem[root][AREA] == size && Word(store.mem[root], LENGTH_WORD) == |items|
      ensures store.Count(root) == |table.data| && |items| <= Capacity()
      ensures Shaped(table) && (table.data != [] ==> store.Holds(root, table, SLOTS))
    {
    }

    method Length() returns (n: nat)
      requires Valid()
      ensures n == |items|
    {
      Shown();
      n := Word(store.mem[root], LENGTH_WORD);
    }

    method CapacityNow() returns (n: nat)
      requires Valid()
      ensures 0 < size && n == Capacity()
      ensures table.data == [] ==> n * size <= 4084 < (n + 1) * size
      ensures table.data != [] ==> n == |table.data| * (4096 / size)
    {
      Shown();
      CapacityIs(|table.data|, size);
      var size := store.mem[root][AREA];
      var blocks := store.Count(root);
      n := if blocks == 0 then AREA / size else blocks * (BLOCK_SIZE / size);
    }

    /** The block and the place of item i. */
    method Locate(i: nat) returns (code: Code, b: nat, place: nat)
      requires Valid()
      ensures i >= |items| ==> code == OutOfBounds && b == 0 && place == 0
      ensures i < |items| ==> code == Ok && 0 < size < 256 && (b, place) == Home(table, root, i, size)
      ensures code == Ok && table.data == [] ==> b == root && place == i
      ensures code == Ok && table.data != [] ==>
                && i / (4096 / size) < |table.data|
                && b == table.data[i / (4096 / size)] && place == i % (4096 / size)
    {
      Shown();
      if i >= Word(store.mem[root], LENGTH_WORD) {
        return OutOfBounds, 0, 0;
      }
      if store.Count(root) == 0 {
        return Ok, root, i;
      }
      HomeFits(table, root, i, size);
      hide ArrayRep, Rep, CapacityOf;
      var size := store.mem[root][AREA];
      var host;
      code, host := store.ReadHostIndex(root, BlockNo(i, size), table, SLOTS);
      b, place := host, PlaceNo(i, size);
    }

    method Get(i: nat) returns (code: Code, item: Item)
      requires Valid()
      ensures if i < |items| then code == Ok && item == items[i] else code == OutOfBounds && item == []
    {
      var b, place;
      code, b, place := Locate(i);
      if code != Ok {
        return OutOfBounds, [];
      }
      Shown();
      assert Lies(store.mem, Home(table, root, i, size), size, items[i]);
      var size := store.mem[root][AREA] as nat;
      item := ItemAt(store.mem[b], place, size);
    }

    /** Replaces one item; all others stay. */
    method Set(i: nat, item: Item) returns (code: Code)
      requires Valid() && |item| == size
      modifies this`items, store`mem
      ensures Valid()
      ensures if i < |old(items)| then code == Ok && items == old(items)[i := item]
              else code == OutOfBounds && items == old(items)
      ensures OnlyOwn(old(store.mem), table)
    {
      var b, place;
      code, b, place := Locate(i);
      if code != Ok {
        return;
      }
      Shown();
      OneItem(store.mem, root, table, size, items, i, item);
      hide ArrayRep, Home;
      var size := store.mem[root][AREA] as nat;
      store.mem := PutItem(store.mem, (b, place), size, item);
      items := items[i := item];
    }

    /** The capacities an array can be resized to: the page table has room for the blocks, and the stack has them. */
    ghost predicate CanResize(capacity: nat)
      reads this
    {
      0 < size < 256 && (capacity <= SmallCapacity(size) ||
        (BlocksFor(capacity, size) <= LEVEL_ONE + SLOTS * INDEX_SIZE && Enough(table, BlocksFor(capacity, size))))
    }

    /** Makes room for at least the given number of items; items beyond the new capacity are dropped. */
    method Resize(capacity: nat) returns (code: Code)
      requires Valid() && CanResize(capacity)
      modifies this`items, this`table, store
      ensures Valid() && code == Ok && 0 < size
      ensures capacity <= Capacity() == NewCapacity(capacity, old(Capacity()), size)
      ensures if capacity == old(Capacity()) then table == old(table) else Smallest(|table.data|, capacity, size)
      ensures OnlyOwn(old(store.mem), old(table))
      ensures Shaped(old(table)) && Enough(old(table), |table.data|) && table == Resized(old(table), |table.data|)
      ensures items == if |old(items)| <= Capacity() then old(items) else old(items)[..Capacity()]
    {
      Shown();
      var current := CapacityNow();
      if capacity == current {
        return Ok;
      }
      var size := store.mem[root][AREA];
      if capacity <= AREA / size {
        Times(capacity, AREA / size, size);
        Multiple(AREA, size);
        code := ToInline();
      } else {
        BlocksForIs(capacity, size);
        Outgrown(capacity, size);
        var n := BlocksFor(capacity, size);
        if store.Count(root) == n {
          return Ok;
        }
        if store.Count(root) == 0 {
          code := InlineToBlocks(n);
        } else {
          code := BlocksToBlocks(n);
        }
      }
    }

    /** Back to the root block, with the items that fit there; an inline array is there already. */
    method ToInline() returns (code: Code)
      requires Valid()
      modifies this`items, this`table, store
      ensures Valid() && code == Ok && 0 < size && table.data == []
      ensures OnlyOwn(old(store.mem), old(table))
      ensures Shaped(old(table)) && Enough(old(table), |table.data|) && table == Resized(old(table), |table.data|)
      ensures items == if |old(items)| <= Capacity() then old(items) else old(items)[..Capacity()]
    {
      Shown();
      if store.Count(root) == 0 {
        code := Ok;
      } else {
        code := BlocksToInline();
      }
    }

    method BlocksToInline() returns (code: Code)
      requires Valid() && table.data != []
      modifies this`items, this`table, store
      ensures Valid() && code == Ok && 0 < size && table.data == []
      ensures OnlyOwn(old(store.mem), old(table))
      ensures Shaped(old(table)) && Enough(old(table), |table.data|) && table == Resized(old(table), |table.data|)
      ensures items == if |old(items)| <= Capacity() then old(items) else old(items)[..Capacity()]
    {
      hide Resized, Rep, ArrayRep, ArrayBody, Stored, ArrayModel.Saved, PutSaved, Touched, Confined;
      Shown();
      ghost var t, m, keep := table, store.mem, Kept(|items|, SmallCapacity(size));
      var saved := SavedFirst();
      code := store.Resize(root, 0, table, SLOTS);
      ghost var m1 := store.mem;
      MovedInline(m, m1, t, keep);
      store.mem := PutSaved(store.mem, root, saved);
      table := Resized(t, 0);
      ghost var m2 := store.mem;
      var size := store.mem[root][AREA];
      Clip(AREA / size, |items|, keep);
      ConfinedThrough(m, m2, store.mem, root, t, table);
    }

    /** The bytes of the first data block that the root has room for. */
    method SavedFirst() returns (saved: seq<byte>)
      requires Valid() && table.data != []
      ensures 0 < size < 256 && table.data[0] in store.mem && |store.mem[table.data[0]]| == BLOCK_SIZE
      ensures saved == ArrayModel.Saved(store.mem[table.data[0]], size)
    {
      Shown();
      var code, first := store.ReadHostIndex(root, 0, table, SLOTS);
      var size := store.mem[root][AREA];
      FirstData(store.mem, root, table);
      saved := ArrayModel.Saved(store.mem[first], size);
    }

    /** The page table is gone; what the root is given is an inline array with the items that fit. */
    lemma MovedInline(m: Mem, m1: Mem, t: Table, keep: nat)
      requires ArrayRep(m, root, t, size, items) && t.data != [] && Shaped(t) && Enough(t, 0)
      requires Rep(m1, root, Resized(t, 0), SLOTS) && Touched(m, m1, root, t, Resized(t, 0), SLOTS)
      requires 0 < size < 256 && keep == Kept(|items|, SmallCapacity(size))
      ensures t.data[0] in m && |m[t.data[0]]| == BLOCK_SIZE && root in m1
      ensures var u, saved := Resized(t, 0), ArrayModel.Saved(m[t.data[0]], size);
              && |saved| <= |m1[root]| && u.data == []
              && var m2 := PutSaved(m1, root, saved);
              && ArrayBody(m2, root, u, size, |items|) && Stored(m2, root, u, size, items[..keep])
              && root in m2 && |m2[root]| == BLOCK_SIZE && m2[root][AREA] == size
              && Confined(m, m2, root, t, u)
    {
      PagedToInline(m, m1, root, t, size, items, keep);
      hide Resized, Rep, ArrayRep, Stored, ArrayModel.Saved, PutSaved, Confined, Touched;
      var u, saved := Resized(t, 0), ArrayModel.Saved(m[t.data[0]], size);
      TouchedConfined(m, m1, root, t, u);
      PutSavedConfined(m, m1, root, t, u, root, saved);
      BodyShows(PutSaved(m1, root, saved), root, u, size, |items|);
    }

    /** What remains of n items when there is room for m. */
    static ghost function Kept(n: nat, m: nat): nat {
      if n <= m then n else m
    }

    /** Cuts the length down to the capacity. */
    method Clip(capacity: nat, ghost len: nat, ghost keep: nat)
      requires ArrayBody(store.mem, root, table, size, len) && store.free == table.free
      requires len == |items| && keep == Kept(len, capacity) && capacity == Capacity() < WORD_LIMIT
      requires Stored(store.mem, root, table, size, items[..keep])
      modifies this`items, store`mem
      ensures Valid() && items == old(items)[..keep] && OnlyOwn(old(store.mem), table)
    {
      NewLength(store.mem, root, table, size, len, items[..keep]);
      hide Rep, InlineRoot, Stored, PutLength;
      if Word(store.mem[root], LENGTH_WORD) > capacity {
        store.mem := PutLength(store.mem, root, capacity);
      } else {
        assert items[..keep] == items;
      }
      items := items[..keep];
    }

    /** From the root block to n data blocks. */
    method InlineToBlocks(n: nat) returns (code: Code)
      requires Valid() && table.data == [] && 0 < n <= LEVEL_ONE + SLOTS * INDEX_SIZE && Enough(table, n)
      modifies this`items, this`table, store
      ensures Valid() && code == Ok && |table.data| == n && items == old(items)
      ensures OnlyOwn(old(store.mem), old(table)) && Shaped(old(table)) && table == Resized(old(table), n)
    {
      hide Resized, Rep, ArrayBody, Stored, ArrayModel.Saved, PutSaved, Touched, Confined;
      Shown();
      ghost var t, m := table, store.mem;
      var size := store.mem[root][AREA];
      var saved := ArrayModel.Saved(store.mem[root], size);
      ClearedRoot(m, root, t, size, |items|);
      store.mem := PutBlock(store.mem, root, PutBytes(store.mem[root], 0, seq((AREA / size) * size, _ => 0)));
      PutBytesConfined(m, root, t, seq((AREA / size) * size, _ => 0));
      ghost var m1 := store.mem;
      code := store.Resize(root, n, t, SLOTS);
      ghost var m2 := store.mem;
      var first;
      code, first := store.ReadHostIndex(root, 0, Resized(t, n), SLOTS);
      MovedToBlocks(m, m1, m2, t, n);
      store.mem := PutSaved(store.mem, first, saved);
      table := Resized(t, n);
      Roomier(n, |items|, size);
    }

    /** The items moved to the first block of a page table of n blocks. */
    lemma MovedToBlocks(m: Mem, m1: Mem, m2: Mem, t: Table, n: nat)
      requires ArrayRep(m, root, t, size, items) && t.data == [] && 0 < n && Shaped(t) && Enough(t, n)
      requires 0 < size < 256 && root in m && |m[root]| == BLOCK_SIZE
      requires Confined(m, m1, root, t, t) && root in m1 && Header(m1[root], size, |items|)
      requires Rep(m2, root, Resized(t, n), SLOTS) && Touched(m1, m2, root, t, Resized(t, n), SLOTS)
      ensures |Resized(t, n).data| == n
      ensures var u, saved := Resized(t, n), ArrayModel.Saved(m[root], size);
              && u.data[0] in m2 && |saved| <= |m2[u.data[0]]|
              && var m3 := PutSaved(m2, u.data[0], saved);
              ArrayBody(m3, root, u, size, |items|) && Stored(m3, root, u, size, items) && Confined(m, m3, root, t, u)
    {
      ResizeKeeps(t, n);
      InlineToPaged(m, m1, m2, root, t, n, size, items);
      hide Resized, Rep, ArrayRep, Stored, ArrayBody, ArrayModel.Saved, PutSaved, Confined, Touched;
      var u, saved := Resized(t, n), ArrayModel.Saved(m[root], size);
      TouchedConfined(m1, m2, root, t, u);
      ConfinedLater(m, m1, m2, root, t, u);
      PutSavedConfined(m, m2, root, t, u, u.data[0], saved);
    }

    /** From some data blocks to n of them. */
    method BlocksToBlocks(n: nat) returns (code: Code)
      requires Valid() && table.data != [] && 0 < n <= LEVEL_ONE + SLOTS * INDEX_SIZE && Enough(table, n)
      modifies this`items, this`table, store
      ensures Valid() && code == Ok && 0 < size && |table.data| == n
      ensures OnlyOwn(old(store.mem), old(table)) && Shaped(old(table)) && table == Resized(old(table), n)
      ensures items == if |old(items)| <= Capacity() then old(items) else old(items)[..Capacity()]
    {
      Shown();
      ghost var t, m := table, store.mem;
      var size := store.mem[root][AREA];
      ghost var keep := Kept(|items|, CapacityOf(n, size));
      code := store.Resize(root, n, t, SLOTS);
      PagedToPaged(m, store.mem, root, t, n, size, items, keep);
      ResizeKeeps(t, n);
      hide Resized, ArrayBody, Stored, Rep;
      table := Resized(t, n);
      CapacityBound(n, size);
      Clip(n * (BLOCK_SIZE / size), |items|, keep);
    }

    /** Writes a new length over items that already lie where they should. */
    method SetLength(n: u32, ghost news: seq<Item>)
      requires Valid() && |news| == n <= Capacity() && Stored(store.mem, root, table, size, news)
      modifies this`items, store`mem
      ensures Valid() && items == news && OnlyOwn(old(store.mem), table)
    {
      NewLength(store.mem, root, table, size, |items|, news);
      Shown();
      hide ArrayRep, Stored, PutLength;
      store.mem := PutLength(store.mem, root, n);
      items := news;
    }

    /** Appends an item; a full array is resized for it first. */
    method Push(item: Item) returns (code: Code)
      requires Valid() && |item| == size && (|items| < Capacity() || CanResize(|items| + 1))
      modifies this`items, this`table, store
      ensures Valid() && code == Ok && items == old(items) + [item]
      ensures OnlyOwn(old(store.mem), old(table))
      ensures if |old(items)| < old(Capacity()) then table == old(table)
              else 0 < size && Smallest(|table.data|, |old(items)| + 1, size)
    {
      var capacity := CapacityNow();
      var len := Length();
      if len + 1 > capacity {
        code := Resize(len + 1);
        if code != Ok {
          return;
        }
      }
      ghost var was := items;
      NextItem(store.mem, root, table, size, items);
      Bounded();
      ghost var g: Item :| Stored(store.mem, root, table, size, items + [g]);
      SetLength(len + 1, items + [g]);
      code := Set(len, item);
      assert items == was + [item];
    }

    lemma Bounded()
      requires Valid()
      ensures 0 < size && Capacity() < WORD_LIMIT
    {
      if table.data == [] {
        Multiple(AREA, size);
        Times(1, size, SmallCapacity(size));
      } else {
        CapacityBound(|table.data|, size);
      }
    }

    /** Takes the last item; with no items the index wraps around and is out of bounds. */
    method Pop() returns (code: Code, item: Item)
      requires Valid()
      modifies this`items, store`mem
      ensures Valid()
      ensures old(items) == [] ==> code == OutOfBounds && item == [] && items == []
      ensures old(items) != [] ==>
                code == Ok && old(items) == items + [item]
      ensures OnlyOwn(old(store.mem), table)
    {
      var len := Length();
      Bounded();
      Shown();
      hide ArrayRep, CapacityOf;
      var last := if len == 0 then WORD_LIMIT - 1 else len - 1;
      code, item := Get(last);
      if code != Ok {
        return;
      }
      StoredPrefix(store.mem, root, table, size, items, last);
      SetLength(last, items[..last]);
    }
  }

  /** What a resize to the given capacity makes of the current one. */
  function NewCapacity(capacity: nat, current: nat, size: nat): nat
    requires 0 < size < 256
  {
    if capacity == current then current
    else if capacity <= SmallCapacity(size) then SmallCapacity(size)
    else BlocksFor(capacity, size) * PerBlock(size)
  }

  /** The data blocks that hold the given number of items. */
  function BlocksFor(capacity: nat, size: nat): nat
    requires 0 < size < 256
  {
    Sizes(size);
    (capacity + PerBlock(size) - 1) / PerBlock(size)
  }

  /** They are enough, and at least one when there are items; one block less would be too few. */
  lemma BlocksForIs(capacity: nat, size: nat)
    requires 0 < size < 256
    ensures capacity <= BlocksFor(capacity, size) * PerBlock(size)
    ensures 0 < capacity ==> 0 < BlocksFor(capacity, size)
    ensures 0 < capacity ==> (BlocksFor(capacity, size) - 1) * PerBlock(size) < capacity
  {
    Sizes(size);
    var p := PerBlock(size);
    DivMod(capacity + p - 1, p);
    if 0 < capacity {
      AtLeast(capacity + p - 1, p, 1);
      OneLess(BlocksFor(capacity, size), p);
    }
  }

  lemma OneLess(n: nat, p: nat)
    ensures (n - 1) * p == p * n - p
  {
  }

  /**
   Of the root alone, for n == 0, and the tables of n blocks it is the smallest one with room for the given number of
   items of the given size.
   */
  ghost predicate Smallest(n: nat, capacity: nat, size: nat)
    requires 0 < size
  {
    if n == 0 then capacity * size <= 4084
    else 4084 < capacity * size && (n - 1) * (4096 / size) < capacity <= n * (4096 / size)
  }

  /** More items than the root has room for take more than its bytes. */
  lemma Outgrown(capacity: nat, size: nat)
    requires 0 < size && SmallCapacity(size) < capacity
    ensures 4084 < capacity * size
  {
    Quotient(AREA, size);
    Times(AREA / size + 1, capacity, size);
  }

  /** Any number of blocks holds what the root holds. */
  lemma Roomier(n: nat, len: nat, size: nat)
    requires 0 < size < 256 && 0 < n && len <= SmallCapacity(size)
    ensures len <= CapacityOf(n, size)
  {
    Sizes(size);
    Times(1, n, PerBlock(size));
  }

  lemma CapacityBound(n: nat, size: nat)
    requires 0 < size < 256 && n <= LEVEL_ONE + SLOTS * INDEX_SIZE
    ensures n * PerBlock(size) < WORD_LIMIT
  {
    Multiple(BLOCK_SIZE, size);
    Times(1, size, PerBlock(size));
    Times(n, LEVEL_ONE + SLOTS * INDEX_SIZE, PerBlock(size));
  }

  lemma EmptyArray(m: Mem, root: nat, free: seq<nat>, size: byte)
    requires root in m && 0 < size && m[root] == Zeros()[AREA := size]
    requires Named(m, free) && Apart(Table([], [], free), root)
    ensures ArrayRep(m, root, Table([], [], free), size, [])
  {
    SameWord(m[root], Zeros(), LENGTH_WORD);
    SameWord(m[root], Zeros(), COUNT_WORD);
    ZeroWord(Zeros(), LENGTH_WORD);
    ZeroWord(Zeros(), COUNT_WORD);
  }
}
