/**
 An array of fixed-size items as it lies in blocks: inside its root block while it is small, and in the data blocks
 of the page table that shares the root block once it is not.
 */
module ArrayModel {
  import opened Words
  import opened Arithmetic
  import opened BlockBytes
  import opened PageModel
  import opened PageStore

  /** Bytes of the root in front of the array header, and where the header keeps item size and length. */
  const AREA: nat := 4084
  const LENGTH_WORD: nat := 1022

  /** Index places in front of the array header. */
  const SLOTS: nat := 509

  type Item = seq<byte>

  function SmallCapacity(size: nat): nat
    requires 0 < size
  {
    AREA / size
  }

  function PerBlock(size: nat): nat
    requires 0 < size
  {
    BLOCK_SIZE / size
  }

  function CapacityOf(n: nat, size: nat): nat
    requires 0 < size
  {
    if n == 0 then SmallCapacity(size) else n * PerBlock(size)
  }

  function ItemAt(b: seq<byte>, k: nat, size: nat): Item
    requires k * size + size <= |b|
  {
    b[k * size..k * size + size]
  }

  /** Item k of m bytes' worth of items lies inside those bytes. */
  lemma Fits(k: nat, m: nat, size: nat)
    requires 0 < size && k < m / size
    ensures k * size + size <= m
  {
    var q := m / size;
    assert m == size * q + m % size;
    Times(k + 1, q, size);
  }

  lemma Times(a: nat, b: nat, size: nat)
    requires a <= b
    ensures a * size <= b * size
  {
  }

  lemma Sizes(size: nat)
    requires 0 < size < 256
    ensures 16 <= SmallCapacity(size) <= PerBlock(size)
    ensures SmallCapacity(size) * size <= AREA
  {
    assert 16 * size <= AREA;
    AtLeast(AREA, size, 16);
    Multiple(AREA, size);
    AtLeast(BLOCK_SIZE, size, SmallCapacity(size));
  }

  lemma Multiple(a: nat, size: nat)
    requires 0 < size
    ensures (a / size) * size <= a
  {
    assert a == size * (a / size) + a % size;
  }

  lemma AtLeast(a: nat, size: nat, n: nat)
    requires 0 < size && n * size <= a
    ensures n <= a / size
  {
    var q := a / size;
    assert a == size * q + a % size;
    assert n * size < (q + 1) * size;
    Smaller(n, q + 1, size);
  }

  lemma Smaller(a: nat, b: nat, size: nat)
    requires a * size < b * size
    ensures a < b
  {
    if b <= a {
      Times(b, a, size);
    }
  }

  /** The root holds as many items as fit into 4084 bytes, and each data block as many as fit into 4096. */
  lemma CapacityIs(n: nat, size: nat)
    requires 0 < size
    ensures CapacityOf(0, size) * size <= 4084 < (CapacityOf(0, size) + 1) * size
    ensures PerBlock(size) * size <= 4096 < (PerBlock(size) + 1) * size
    ensures 0 < n ==> CapacityOf(n, size) == n * (4096 / size)
  {
    Quotient(AREA, size);
    Quotient(BLOCK_SIZE, size);
  }

  lemma Quotient(a: nat, size: nat)
    requires 0 < size
    ensures (a / size) * size <= a < (a / size + 1) * size
  {
    assert a == size * (a / size) + a % size;
  }

  /** The data block of item k, and its place in that block. */
  function BlockNo(k: nat, size: nat): nat
    requires 0 < size < 256
  {
    Sizes(size);
    k / PerBlock(size)
  }

  function PlaceNo(k: nat, size: nat): nat
    requires 0 < size < 256
  {
    Sizes(size);
    k % PerBlock(size)
  }

  /** Where item k lies: a block, and a place in it. */
  function Home(t: Table, root: nat, k: nat, size: nat): (nat, nat)
    requires 0 < size < 256
  {
    if t.data == [] then (root, k)
    else if BlockNo(k, size) < |t.data| then (t.data[BlockNo(k, size)], PlaceNo(k, size))
    else (root, 0)
  }

  /** The header of the root: item size, number of items. */
  ghost predicate Header(b: seq<byte>, size: nat, len: nat) {
    |b| == BLOCK_SIZE && b[AREA] == size && Word(b, LENGTH_WORD) == len
  }

  /** The items of a list lie one after the other from their homes on. */
  ghost predicate Stored(m: Mem, root: nat, t: Table, size: nat, items: seq<Item>)
    requires 0 < size < 256
  {
    forall k :: 0 <= k < |items| ==> Lies(m, Home(t, root, k, size), size, items[k])
  }

  ghost predicate Lies(m: Mem, home: (nat, nat), size: nat, item: Item) {
    && home.0 in m && |m[home.0]| == BLOCK_SIZE && home.1 * size + size <= BLOCK_SIZE
    && ItemAt(m[home.0], home.1, size) == item
  }

  /** A root whose area holds items: no table, and nothing behind the last item the area has room for. */
  ghost predicate InlineRoot(m: Mem, root: nat, t: Table, size: nat)
    requires 0 < size < 256
  {
    && t.index == [] && AllNamed(m, t) && Apart(t, root)
    && root in m && |m[root]| == BLOCK_SIZE && Word(m[root], COUNT_WORD) == 0
    && forall i :: SmallCapacity(size) * size <= i < AREA ==> m[root][i] == 0
  }

  /** The root of an array and its page table t, which has no data blocks while the array is inline. */
  ghost predicate ArrayBody(m: Mem, root: nat, t: Table, size: nat, len: nat) {
    && 0 < size < 256
    && root in m && Header(m[root], size, len)
    && if t.data == [] then InlineRoot(m, root, t, size) else Rep(m, root, t, SLOTS)
  }

  /** The array at root holds the items. */
  ghost predicate ArrayRep(m: Mem, root: nat, t: Table, size: nat, items: seq<Item>) {
    && ArrayBody(m, root, t, size, |items|)
    && |items| <= CapacityOf(|t.data|, size)
    && Stored(m, root, t, size, items)
  }

  lemma HomeFits(t: Table, root: nat, k: nat, size: nat)
    requires 0 < size < 256 && k < CapacityOf(|t.data|, size)
    ensures var h := Home(t, root, k, size);
            && h.1 * size + size <= (if t.data == [] then AREA else BLOCK_SIZE)
            && (t.data == [] ==> h == (root, k))
            && (t.data != [] ==> BlockNo(k, size) < |t.data| && h == (t.data[BlockNo(k, size)], PlaceNo(k, size)))
  {
    Sizes(size);
    var p := PerBlock(size);
    if t.data == [] {
      Fits(k, AREA, size);
    } else {
      BlockOf(k, p, |t.data|);
      Fits(k % p, BLOCK_SIZE, size);
    }
  }

  lemma BlockOf(k: nat, p: nat, n: nat)
    requires 0 < p && k < n * p
    ensures k / p < n && k % p < p
  {
    var q := k / p;
    assert k == p * q + k % p;
    if n <= q {
      Times(n, q, p);
    }
  }

  /** Two items have different homes. */
  lemma HomesDiffer(t: Table, root: nat, j: nat, k: nat, size: nat)
    requires 0 < size < 256 && j != k && j < CapacityOf(|t.data|, size) && k < CapacityOf(|t.data|, size)
    requires Distinct(t.data)
    ensures Home(t, root, j, size).0 == Home(t, root, k, size).0 ==>
              Home(t, root, j, size).1 != Home(t, root, k, size).1
  {
    HomeFits(t, root, j, size);
    HomeFits(t, root, k, size);
    hide Home, CapacityOf, BlockNo, PlaceNo;
    PlaceDiffers(j, k, size);
  }

  lemma PlaceDiffers(j: nat, k: nat, size: nat)
    requires 0 < size < 256 && j != k
    ensures BlockNo(j, size) == BlockNo(k, size) ==> PlaceNo(j, size) != PlaceNo(k, size)
  {
    Sizes(size);
    DivMod(j, PerBlock(size));
    DivMod(k, PerBlock(size));
  }

  /** Items in different places of one block do not overlap. */
  lemma PlacesApart(b: seq<byte>, j: nat, k: nat, size: nat, item: Item)
    requires 0 < size && j != k && j * size + size <= |b| && k * size + size <= |b| && |item| == size
    ensures ItemAt(PutBytes(b, k * size, item), j, size) == ItemAt(b, j, size)
  {
    hide PutBytes;
    PlaceEnds(j, k, size);
    PlaceEnds(k, j, size);
    BytesApart(b, j * size, k * size, size, item);
  }

  lemma PlaceEnds(j: nat, k: nat, size: nat)
    ensures j < k ==> j * size + size <= k * size
  {
    if j < k {
      Times(j + 1, k, size);
    }
  }

  lemma BytesApart(b: seq<byte>, x: nat, y: nat, size: nat, item: Item)
    requires x + size <= |b| && y + size <= |b| && |item| == size && (x + size <= y || y + size <= x)
    ensures PutBytes(b, y, item)[x..x + size] == b[x..x + size]
  {
    PutBytesIs(b, y, item);
  }

  lemma PlaceHolds(b: seq<byte>, k: nat, size: nat, item: Item)
    requires 0 < size && k * size + size <= |b| && |item| == size
    ensures ItemAt(PutBytes(b, k * size, item), k, size) == item
  {
    PutBytesIs(b, k * size, item);
  }

  // ---- writes that leave the page table alone

  /** A block that lists nothing for the table may change its content. */
  lemma RepKept(m: Mem, root: nat, t: Table, x: nat, c: seq<byte>)
    requires Rep(m, root, t, SLOTS) && x in m && |c| == |m[x]|
    requires x !in t.index && (x == root ==> RootReads(c, t, SLOTS))
    ensures Rep(PutBlock(m, x, c), root, t, SLOTS)
  {
    NamedSame(m, x, c, t.data);
    NamedSame(m, x, c, t.index);
    NamedSame(m, x, c, t.free);
    IndexSame(m, x, c, t);
    hide Apart, IndexReads, Named;
  }

  lemma NamedSame(m: Mem, x: nat, c: seq<byte>, ids: seq<nat>)
    requires Named(m, ids) && x in m && |c| == |m[x]|
    ensures Named(PutBlock(m, x, c), ids)
  {
  }

  lemma IndexSame(m: Mem, x: nat, c: seq<byte>, t: Table)
    requires Shaped(t) && IndexReads(m, t) && x !in t.index && x in m
    ensures IndexReads(PutBlock(m, x, c), t)
  {
    forall n | LEVEL_ONE <= n < |t.data|
      ensures t.index[Index0(n)] != x
    {
      assert Index0(n) < |t.index|;
    }
  }

  lemma InlineKept(m: Mem, root: nat, t: Table, size: nat, c: seq<byte>)
    requires 0 < size < 256 && InlineRoot(m, root, t, size) && |c| == BLOCK_SIZE && Word(c, COUNT_WORD) == 0
    requires forall i :: SmallCapacity(size) * size <= i < AREA ==> c[i] == 0
    ensures InlineRoot(PutBlock(m, root, c), root, t, size)
  {
    NamedSame(m, root, c, t.data);
    NamedSame(m, root, c, t.index);
    NamedSame(m, root, c, t.free);
    hide Apart, Named;
  }

  // ---- one item

  /** What a write of item k does to the block it lies in. */
  function PutItem(m: Mem, home: (nat, nat), size: nat, item: Item): Mem
    requires home.0 in m && |item| == size && home.1 * size + size <= |m[home.0]|
  {
    PutBlock(m, home.0, PutBytes(m[home.0], home.1 * size, item))
  }

  lemma HomeKnown(m: Mem, root: nat, t: Table, size: nat, items: seq<Item>, k: nat)
    requires ArrayRep(m, root, t, size, items) && k < CapacityOf(|t.data|, size)
    ensures var h := Home(t, root, k, size);
            && h.0 in m && |m[h.0]| == BLOCK_SIZE && h.1 * size + size <= BLOCK_SIZE
            && h.0 !in t.index && (h.0 == root <==> t.data == [])
  {
    HomeFits(t, root, k, size);
    ApartMeans(t, root);
    hide Home, CapacityOf, BlockNo, PlaceNo;
    if t.data != [] {
      assert Named(m, t.data);
    }
  }

  lemma OneItem(m: Mem, root: nat, t: Table, size: nat, items: seq<Item>, k: nat, item: Item)
    requires ArrayRep(m, root, t, size, items) && k < |items| && |item| == size
    ensures var h := Home(t, root, k, size);
            && h.0 in m && |m[h.0]| == BLOCK_SIZE && h.1 * size + size <= BLOCK_SIZE
            && ArrayRep(PutItem(m, h, size, item), root, t, size, items[k := item])
  {
    var h := Home(t, root, k, size);
    HomeKnown(m, root, t, size, items, k);
    HomeFits(t, root, k, size);
    ItemsAfter(m, root, t, size, items, k, item);
    var c := PutBytes(m[h.0], h.1 * size, item);
    if t.data == [] {
      InlineItem(m, root, t, size, items, k, item);
    } else {
      RepKept(m, root, t, h.0, c);
    }
    hide Rep, InlineRoot, Home, Stored, CapacityOf;
  }

  lemma ItemsAfter(m: Mem, root: nat, t: Table, size: nat, items: seq<Item>, k: nat, item: Item)
    requires ArrayRep(m, root, t, size, items) && k < |items| && |item| == size
    requires var h := Home(t, root, k, size); h.0 in m && |m[h.0]| == BLOCK_SIZE && h.1 * size + size <= BLOCK_SIZE
    ensures Stored(PutItem(m, Home(t, root, k, size), size, item), root, t, size, items[k := item])
  {
    var h := Home(t, root, k, size);
    var m' := PutItem(m, h, size, item);
    ApartMeans(t, root);
    forall j | 0 <= j < |items|
      ensures Lies(m', Home(t, root, j, size), size, items[k := item][j])
    {
      assert Lies(m, Home(t, root, j, size), size, items[j]);
      if j == k {
        PlaceHolds(m[h.0], h.1, size, item);
      } else {
        HomesDiffer(t, root, j, k, size);
        if Home(t, root, j, size).0 == h.0 {
          PlacesApart(m[h.0], Home(t, root, j, size).1, h.1, size, item);
        }
      }
    }
  }

  lemma InlineItem(m: Mem, root: nat, t: Table, size: nat, items: seq<Item>, k: nat, item: Item)
    requires ArrayRep(m, root, t, size, items) && k < |items| && |item| == size && t.data == []
    requires k * size + size <= AREA
    ensures var c := PutBytes(m[root], k * size, item);
            InlineRoot(PutBlock(m, root, c), root, t, size) && Header(c, size, |items|)
  {
    Fits(k, AREA, size);
    Times(k + 1, SmallCapacity(size), size);
    Multiple(AREA, size);
    PutBytesIs(m[root], k * size, item);
    var c := PutBytes(m[root], k * size, item);
    SameWord(c, m[root], COUNT_WORD);
    SameWord(c, m[root], LENGTH_WORD);
    InlineKept(m, root, t, size, c);
  }

  // ---- the length

  function PutLength(m: Mem, root: nat, n: u32): Mem
    requires root in m && |m[root]| == BLOCK_SIZE
  {
    PutBlock(m, root, PutWord(m[root], LENGTH_WORD, n))
  }

  /** A new length, over items that already lie where they should. */
  lemma NewLength(m: Mem, root: nat, t: Table, size: nat, len: nat, news: seq<Item>)
    requires ArrayBody(m, root, t, size, len)
    requires Stored(m, root, t, size, news) && |news| <= CapacityOf(|t.data|, size) && |news| < WORD_LIMIT
    ensures ArrayRep(PutLength(m, root, |news|), root, t, size, news)
  {
    ApartMeans(t, root);
    LengthBytes(m[root], size, len, |news|);
    hide Word, PutWord, Stored, Apart, CapacityOf;
    var c := PutWord(m[root], LENGTH_WORD, |news|);
    ItemsUnderLength(m, root, t, size, news, c);
    if t.data == [] {
      InlineLength(m, root, t, size, |news|);
    } else {
      PagedLength(m, root, t, |news|);
    }
    hide Rep, InlineRoot;
  }

  lemma LengthBytes(b: seq<byte>, size: nat, n: nat, k: u32)
    requires Header(b, size, n)
    ensures var c := PutWord(b, LENGTH_WORD, k);
            Header(c, size, k) && forall i :: 0 <= i < AREA ==> c[i] == b[i]
  {
    PutWordIs(b, LENGTH_WORD, k);
  }

  lemma PagedLength(m: Mem, root: nat, t: Table, k: u32)
    requires Rep(m, root, t, SLOTS)
    ensures Rep(PutLength(m, root, k), root, t, SLOTS)
  {
    PutWordIs(m[root], LENGTH_WORD, k);
    ApartMeans(t, root);
    var c := PutWord(m[root], LENGTH_WORD, k);
    hide PutWord, Word;
    RootSame(m[root], c, t);
    RepKept(m, root, t, root, c);
  }

  lemma RootSame(b: seq<byte>, c: seq<byte>, t: Table)
    requires RootReads(b, t, SLOTS) && |c| == BLOCK_SIZE
    requires forall i :: 0 <= i <= COUNT_WORD && i != LENGTH_WORD ==> Word(c, i) == Word(b, i)
    ensures RootReads(c, t, SLOTS)
  {
    hide Word;
  }

  lemma InlineLength(m: Mem, root: nat, t: Table, size: nat, n: u32)
    requires 0 < size < 256 && InlineRoot(m, root, t, size)
    ensures InlineRoot(PutLength(m, root, n), root, t, size)
  {
    PutWordIs(m[root], LENGTH_WORD, n);
    InlineKept(m, root, t, size, PutWord(m[root], LENGTH_WORD, n));
  }

  lemma ItemsUnderLength(m: Mem, root: nat, t: Table, size: nat, items: seq<Item>, c: seq<byte>)
    requires 0 < size < 256 && Stored(m, root, t, size, items) && |items| <= CapacityOf(|t.data|, size)
    requires root in m && |m[root]| == |c| == BLOCK_SIZE && forall i :: 0 <= i < AREA ==> c[i] == m[root][i]
    requires root !in t.data
    ensures Stored(PutBlock(m, root, c), root, t, size, items)
  {
    forall k | 0 <= k < |items|
      ensures Lies(PutBlock(m, root, c), Home(t, root, k, size), size, items[k])
    {
      assert Lies(m, Home(t, root, k, size), size, items[k]);
      HomeFits(t, root, k, size);
      hide CapacityOf, BlockNo, PlaceNo;
      LiesUnderLength(m, root, c, Home(t, root, k, size), size, items[k]);
    }
  }

  lemma LiesUnderLength(m: Mem, root: nat, c: seq<byte>, home: (nat, nat), size: nat, item: Item)
    requires Lies(m, home, size, item) && (home.0 == root ==> home.1 * size + size <= AREA)
    requires root in m && |m[root]| == |c| == BLOCK_SIZE && forall i :: 0 <= i < AREA ==> c[i] == m[root][i]
    ensures Lies(PutBlock(m, root, c), home, size, item)
  {
  }

  lemma StoredPrefix(m: Mem, root: nat, t: Table, size: nat, items: seq<Item>, n: nat)
    requires ArrayRep(m, root, t, size, items) && n <= |items|
    ensures Stored(m, root, t, size, items[..n])
  {
    hide Home;
  }

  /** The bytes at the home of the next item, whatever they are, are an item. */
  lemma NextItem(m: Mem, root: nat, t: Table, size: nat, items: seq<Item>)
    requires ArrayRep(m, root, t, size, items) && |items| < CapacityOf(|t.data|, size)
    ensures exists g: Item :: Stored(m, root, t, size, items + [g])
  {
    var k := |items|;
    HomeKnown(m, root, t, size, items, k);
    var h := Home(t, root, k, size);
    var g := ItemAt(m[h.0], h.1, size);
    forall j | 0 <= j <= k
      ensures Lies(m, Home(t, root, j, size), size, (items + [g])[j])
    {
      if j < k {
        assert Lies(m, Home(t, root, j, size), size, items[j]);
      }
    }
    assert Stored(m, root, t, size, items + [g]);
  }

  // ---- moves between the forms

  /** The bytes that are saved when the array moves: as many items as fit inline. */
  function Saved(b: seq<byte>, size: nat): (s: seq<byte>)
    requires 0 < size && |b| == BLOCK_SIZE
    ensures |s| == SmallCapacity(size) * size <= AREA
  {
    Multiple(AREA, size);
    b[..SmallCapacity(size) * size]
  }

  /** Block x with the saved bytes in front. */
  function PutSaved(m: Mem, x: nat, saved: seq<byte>): Mem
    requires x in m && |saved| <= |m[x]|
  {
    PutBlock(m, x, PutBytes(m[x], 0, saved))
  }

  /** The items that the first bytes of a block hold lie in a copy of those bytes as well. */
  lemma CopiedItem(b: seq<byte>, c: seq<byte>, k: nat, n: nat, size: nat)
    requires 0 < size && k < n && n * size <= |b| && n * size <= |c|
    ensures k * size + size <= n * size
    ensures ItemAt(PutBytes(c, 0, b[..n * size]), k, size) == ItemAt(b, k, size)
  {
    Times(k + 1, n, size);
    PutBytesIs(c, 0, b[..n * size]);
  }

  /** The header does not change when the page table does. */
  lemma HeaderKept(b: seq<byte>, c: seq<byte>, size: nat, len: nat)
    requires Header(b, size, len) && SameHeader(b, c, SLOTS)
    ensures Header(c, size, len)
  {
    SameWord(c, b, LENGTH_WORD);
  }

  /** Paged to paged: the items that still have a data block are where they were. */
  lemma PagedToPaged(m: Mem, m': Mem, root: nat, t: Table, n: nat, size: nat, items: seq<Item>, keep: nat)
    requires ArrayRep(m, root, t, size, items) && t.data != [] && 0 < n && Shaped(t) && Enough(t, n)
    requires Rep(m', root, Resized(t, n), SLOTS) && Touched(m, m', root, t, Resized(t, n), SLOTS)
    requires keep <= |items| && keep <= CapacityOf(n, size)
    ensures ArrayBody(m', root, Resized(t, n), size, |items|) && Stored(m', root, Resized(t, n), size, items[..keep])
  {
    var u := Resized(t, n);
    ResizeKeeps(t, n);
    HeaderKept(m[root], m'[root], size, |items|);
    ApartMeans(t, root);
    ApartMeans(u, root);
    hide Resized, Rep, Header, Apart;
    forall k | 0 <= k < keep
      ensures Lies(m', Home(u, root, k, size), size, items[..keep][k])
    {
      assert Lies(m, Home(t, root, k, size), size, items[k]);
      HomeFits(t, root, k, size);
      HomeFits(u, root, k, size);
      hide CapacityOf, BlockNo, PlaceNo, Home;
      SameData(t, u, BlockNo(k, size));
    }
  }

  lemma SameData(t: Table, u: Table, i: nat)
    requires i < |t.data| && i < |u.data| && (Extends(t, u) || Extends(u, t))
    ensures t.data[i] == u.data[i] && t.data[i] in t.data && u.data[i] in u.data
  {
  }

  /** Inline to paged, first step: without its items the root lists the empty table. */
  lemma ClearedRoot(m: Mem, root: nat, t: Table, size: nat, len: nat)
    requires ArrayBody(m, root, t, size, len) && t.data == []
    ensures SmallCapacity(size) * size <= AREA
    ensures var c := PutBytes(m[root], 0, seq(SmallCapacity(size) * size, _ => 0));
            Rep(PutBlock(m, root, c), root, t, SLOTS) && Header(c, size, len)
  {
    Multiple(AREA, size);
    var zeros := seq(SmallCapacity(size) * size, _ => 0);
    var c := PutBytes(m[root], 0, zeros);
    PutBytesIs(m[root], 0, zeros);
    SameWord(c, m[root], COUNT_WORD);
    SameWord(c, m[root], LENGTH_WORD);
    forall i | 0 <= i < LEVEL_ONE + SLOTS
      ensures Word(c, i) == 0
    {
      ZeroWord(c, i);
    }
    NamedSame(m, root, c, t.data);
    NamedSame(m, root, c, t.index);
    NamedSame(m, root, c, t.free);
    NoIndexReads(PutBlock(m, root, c), t);
    hide Apart, Named, IndexReads, Word;
  }

  /** The items that fit inline all lie in the first data block of a table. */
  lemma FirstHome(t: Table, root: nat, k: nat, size: nat)
    requires 0 < size < 256 && k < SmallCapacity(size) && t.data != []
    ensures Home(t, root, k, size) == (t.data[0], k)
  {
    Sizes(size);
    DivSmall(k, PerBlock(size));
  }

  lemma DivSmall(k: nat, p: nat)
    requires k < p
    ensures k / p == 0 && k % p == k
  {
  }

  /** Inline to paged, last step: the saved items go to the first data block. */
  lemma InlineToPaged(m: Mem, m1: Mem, m2: Mem, root: nat, t: Table, n: nat, size: nat, items: seq<Item>)
    requires ArrayRep(m, root, t, size, items) && t.data == [] && 0 < n && Shaped(t) && Enough(t, n)
    requires root in m1 && Header(m1[root], size, |items|)
    requires Rep(m2, root, Resized(t, n), SLOTS) && Touched(m1, m2, root, t, Resized(t, n), SLOTS)
    ensures var first := Resized(t, n).data[0];
            && first in m2 && |m2[first]| == BLOCK_SIZE
            && var m3 := PutSaved(m2, first, Saved(m[root], size));
               ArrayBody(m3, root, Resized(t, n), size, |items|) && Stored(m3, root, Resized(t, n), size, items)
  {
    var u := Resized(t, n);
    var first := u.data[0];
    Multiple(AREA, size);
    HeaderKept(m1[root], m2[root], size, |items|);
    ApartMeans(u, root);
    assert Named(m2, u.data) && first in u.data;
    var saved := m[root][..SmallCapacity(size) * size];
    var c := PutBytes(m2[first], 0, saved);
    RepKept(m2, root, u, first, c);
    forall k | 0 <= k < |items|
      ensures Lies(PutBlock(m2, first, c), Home(u, root, k, size), size, items[k])
    {
      assert Lies(m, Home(t, root, k, size), size, items[k]);
      FirstHome(u, root, k, size);
      CopiedItem(m[root], m2[first], k, SmallCapacity(size), size);
      Times(k + 1, SmallCapacity(size), size);
    }
    hide Rep, Header, Resized, Stored, Lies;
  }

  /** Paged to inline: the first items of the first data block go to the root, where the table was. */
  lemma PagedToInline(m: Mem, m1: Mem, root: nat, t: Table, size: nat, items: seq<Item>, keep: nat)
    requires ArrayRep(m, root, t, size, items) && t.data != [] && Shaped(t) && Enough(t, 0)
    requires Rep(m1, root, Resized(t, 0), SLOTS) && Touched(m, m1, root, t, Resized(t, 0), SLOTS)
    requires keep <= |items| && keep <= SmallCapacity(size)
    ensures t.data[0] in m && |m[t.data[0]]| == BLOCK_SIZE
    ensures var u := Resized(t, 0);
            var m2 := PutSaved(m1, root, Saved(m[t.data[0]], size));
            u.data == [] && ArrayBody(m2, root, u, size, |items|) && Stored(m2, root, u, size, items[..keep])
  {
    EmptyResized(t);
    FirstData(m, root, t);
    HeaderKept(m[root], m1[root], size, |items|);
    hide Rep, Header, Resized, InlineRoot, SameHeader, Enough, Shaped, Word, Saved, PutSaved, Stored;
    var u, first := Resized(t, 0), t.data[0];
    InlineAgain(m1, root, u, size, |items|, Saved(m[first], size));
    FirstItemsInline(m, m1, root, t, u, size, items, keep);
  }

  lemma EmptyResized(t: Table)
    requires Shaped(t) && Enough(t, 0)
    ensures Resized(t, 0).data == [] && Resized(t, 0).index == []
  {
    ResizeKeeps(t, 0);
  }

  lemma FirstData(m: Mem, root: nat, t: Table)
    requires Rep(m, root, t, SLOTS) && t.data != []
    ensures t.data[0] in m && |m[t.data[0]]| == BLOCK_SIZE
  {
  }

  lemma FirstItemsInline(m: Mem, m1: Mem, root: nat, t: Table, u: Table, size: nat, items: seq<Item>, keep: nat)
    requires 0 < size < 256 && Stored(m, root, t, size, items) && t.data != [] && u.data == []
    requires t.data[0] in m && |m[t.data[0]]| == BLOCK_SIZE && root in m1 && |m1[root]| == BLOCK_SIZE
    requires keep <= |items| && keep <= SmallCapacity(size)
    ensures Stored(PutSaved(m1, root, Saved(m[t.data[0]], size)), root, u, size, items[..keep])
  {
    Multiple(AREA, size);
    var first := t.data[0];
    var c := PutBytes(m1[root], 0, m[first][..SmallCapacity(size) * size]);
    forall k | 0 <= k < keep
      ensures Lies(PutBlock(m1, root, c), Home(u, root, k, size), size, items[..keep][k])
    {
      assert Lies(m, Home(t, root, k, size), size, items[k]);
      FirstHome(t, root, k, size);
      CopiedItem(m[first], m1[root], k, SmallCapacity(size), size);
      Times(k + 1, SmallCapacity(size), size);
    }
  }

  lemma InlineAgain(m: Mem, root: nat, t: Table, size: nat, len: nat, saved: seq<byte>)
    requires 0 < size < 256 && t.data == [] && t.index == []
    requires Rep(m, root, t, SLOTS) && Header(m[root], size, len) && |saved| == SmallCapacity(size) * size <= AREA
    ensures ArrayBody(PutSaved(m, root, saved), root, t, size, len)
  {
    var c := PutBytes(m[root], 0, saved);
    PutBytesIs(m[root], 0, saved);
    SameWord(c, m[root], COUNT_WORD);
    SameWord(c, m[root], LENGTH_WORD);
    forall i | |saved| <= i < AREA
      ensures c[i] == 0
    {
      ZeroWord(m[root], i / 4);
    }
    NamedSame(m, root, c, t.data);
    NamedSame(m, root, c, t.index);
    NamedSame(m, root, c, t.free);
    hide Apart, Named, Word;
  }
}
