/**
 The page table in its blocks: a root block that lists the first 512 data blocks and the index blocks, index blocks
 of 1024 words, and the stack of free blocks. Every block is already writable, as over the unit tests' block device.
 */
module PageStore {
  import opened Words
  import opened BlockBytes
  import opened PageModel

  type Mem = map<nat, seq<byte>>

  function PutBlock(m: Mem, b: nat, s: seq<byte>): Mem {
    m[b := s]
  }

  lemma PutOther(m: Mem, b: nat, s: seq<byte>, x: nat)
    requires x in m && x != b
    ensures x in PutBlock(m, b, s) && PutBlock(m, b, s)[x] == m[x]
  {
  }

  /** The word of the root that holds the number of data blocks. */
  const COUNT_WORD: nat := 1023

  datatype Code = Ok | OutOfBounds | OutOfBlocks

  // ---- a table in memory

  /** The root block lists the table; unused places are zero. A root has room for the given number of index blocks. */
  ghost predicate RootReads(b: seq<byte>, t: Table, slots: nat)
    requires slots <= 511
  {
    && |b| == BLOCK_SIZE
    && Word(b, COUNT_WORD) == |t.data|
    && (forall i :: 0 <= i < LEVEL_ONE ==> Word(b, i) == if i < |t.data| then t.data[i] else 0)
    && (forall i :: LEVEL_ONE <= i < LEVEL_ONE + slots ==>
          Word(b, i) == if i - LEVEL_ONE < |t.index| then t.index[i - LEVEL_ONE] else 0)
  }

  /** The index blocks list the data blocks beyond the first level; what lies after the last entry is stale. */
  ghost predicate IndexReads(m: Mem, t: Table)
    requires Shaped(t)
  {
    forall n :: LEVEL_ONE <= n < |t.data| ==>
      && Index0(n) < |t.index| && t.index[Index0(n)] in m && |m[t.index[Index0(n)]]| == BLOCK_SIZE
      && Word(m[t.index[Index0(n)]], Index1(n)) == t.data[n]
  }

  /** Block ids are words other than 0, and name blocks of the memory. */
  ghost predicate Named(m: Mem, ids: seq<nat>) {
    forall i :: 0 <= i < |ids| ==> 0 < ids[i] < WORD_LIMIT && ids[i] in m && |m[ids[i]]| == BLOCK_SIZE
  }

  ghost predicate AllNamed(m: Mem, t: Table) {
    Named(m, t.data) && Named(m, t.index) && Named(m, t.free)
  }

  /** No block went away or changed its length. */
  ghost predicate SameShape(m: Mem, m': Mem) {
    m.Keys == m'.Keys && forall b :: b in m ==> |m'[b]| == |m[b]|
  }

  lemma NamedGrows(m: Mem, m': Mem, t: Table)
    requires AllNamed(m, t) && SameShape(m, m') && Need(|t.data|) <= |t.free|
    ensures AllNamed(m', GrowTable(t)) && Named(m, GrowTable(t).index)
  {
  }

  lemma NamedShrinks(m: Mem, m': Mem, t: Table)
    requires AllNamed(m, t) && SameShape(m, m') && Shaped(t) && t.data != []
    ensures AllNamed(m', ShrinkTable(t))
  {
    IndexCounts(|t.data| - 1);
  }

  ghost predicate Rep(m: Mem, root: nat, t: Table, slots: nat) {
    && slots <= 511 && |t.data| <= LEVEL_ONE + slots * INDEX_SIZE
    && Shaped(t) && Apart(t, root)
    && AllNamed(m, t)
    && root in m && RootReads(m[root], t, slots)
    && IndexReads(m, t)
  }

  /** The bytes of the root that a page table of that many slots never touches. */
  ghost predicate SameHeader(b: seq<byte>, c: seq<byte>, slots: nat) {
    && |b| == |c| == BLOCK_SIZE
    && forall k :: 4 * (LEVEL_ONE + slots) <= k < 4 * COUNT_WORD ==> c[k] == b[k]
  }

  // ---- the root block

  /** One place of the root and the count were rewritten. */
  function RootPut(b: seq<byte>, i: nat, w: u32, n: u32): (r: seq<byte>)
    requires |b| == BLOCK_SIZE && i < COUNT_WORD
    ensures |r| == BLOCK_SIZE
  {
    PutWord(PutWord(b, i, w), COUNT_WORD, n)
  }

  lemma RootPutIs(b: seq<byte>, i: nat, w: u32, n: u32)
    requires |b| == BLOCK_SIZE && i < COUNT_WORD
    ensures Word(RootPut(b, i, w, n), COUNT_WORD) == n && Word(RootPut(b, i, w, n), i) == w
    ensures forall j :: 0 <= j < COUNT_WORD && j != i ==> Word(RootPut(b, i, w, n), j) == Word(b, j)
    ensures forall k :: 0 <= k < 4 * COUNT_WORD && !(4 * i <= k < 4 * i + 4) ==> RootPut(b, i, w, n)[k] == b[k]
  {
    PutWordIs(b, i, w);
    PutWordIs(PutWord(b, i, w), COUNT_WORD, n);
    hide Word, PutWord;
  }

  lemma RootGrowsDirect(b: seq<byte>, t: Table, slots: nat, x: u32)
    requires slots <= 511 && RootReads(b, t, slots) && Shaped(t) && |t.data| < LEVEL_ONE
    requires t.free != [] && x == t.free[|t.free| - 1]
    ensures RootReads(RootPut(b, |t.data|, x, |t.data| + 1), GrowTable(t), slots)
    ensures SameHeader(b, RootPut(b, |t.data|, x, |t.data| + 1), slots)
  {
    RootPutIs(b, |t.data|, x, |t.data| + 1);
    hide Word, RootPut;
  }

  /** The root when data block n comes in, listed in index block ib. */
  function LinkedRoot(b: seq<byte>, n: u32, ib: u32): (r: seq<byte>)
    requires |b| == BLOCK_SIZE && LEVEL_ONE <= n < WORD_LIMIT - 1 && LEVEL_ONE + Index0(n) < COUNT_WORD
    ensures |r| == BLOCK_SIZE
  {
    RootPut(b, LEVEL_ONE + Index0(n), ib, n + 1)
  }

  /** The table g differs from t in its last index block i, listed as x, and beyond the blocks listed in the root. */
  predicate Relisted(t: Table, g: Table, i: nat, x: u32) {
    && LEVEL_ONE <= |t.data| && LEVEL_ONE <= |g.data| && g.data[..LEVEL_ONE] == t.data[..LEVEL_ONE]
    && |t.index| <= i + 1 && |g.index| <= i + 1 && i <= |t.index| && i <= |g.index| && g.index[..i] == t.index[..i]
    && x == if i < |g.index| then g.index[i] else 0
  }

  lemma RootRelisted(b: seq<byte>, t: Table, g: Table, slots: nat, i: nat, x: u32)
    requires i < slots <= 511 && RootReads(b, t, slots) && Relisted(t, g, i, x) && |g.data| < WORD_LIMIT
    ensures var r := RootPut(b, LEVEL_ONE + i, x, |g.data|); RootReads(r, g, slots) && SameHeader(b, r, slots)
  {
    hide Word, RootPut;
    RootPutIs(b, LEVEL_ONE + i, x, |g.data|);
    assert forall j :: 0 <= j < LEVEL_ONE ==> g.data[j] == g.data[..LEVEL_ONE][j] == t.data[j];
    assert forall j :: 0 <= j < i ==> g.index[j] == g.index[..i][j] == t.index[j];
  }

  lemma RootGrowsIndexed(b: seq<byte>, t: Table, slots: nat, x: u32)
    requires slots <= 511 && RootReads(b, t, slots) && Shaped(t)
    requires LEVEL_ONE <= |t.data| < LEVEL_ONE + slots * INDEX_SIZE
    requires Need(|t.data|) <= |t.free| && GrowTable(t).index[|GrowTable(t).index| - 1..] == [x]
    ensures Index0(|t.data|) < slots
    ensures var r := LinkedRoot(b, |t.data|, x);
            RootReads(r, GrowTable(t), slots) && SameHeader(b, r, slots)
  {
    IndexCounts(|t.data|);
    GrownRelists(t, x);
    hide RootReads, SameHeader, Relisted, RootPut, GrowTable, IndexCount;
    RootRelisted(b, t, GrowTable(t), slots, Index0(|t.data|), x);
  }

  lemma GrownRelists(t: Table, x: u32)
    requires Shaped(t) && LEVEL_ONE <= |t.data| && Need(|t.data|) <= |t.free|
    requires GrowTable(t).index[|GrowTable(t).index| - 1..] == [x]
    ensures Relisted(t, GrowTable(t), Index0(|t.data|), x) && |GrowTable(t).data| == |t.data| + 1
  {
    IndexCounts(|t.data|);
    hide IndexCount, Index0;
  }

  lemma RootShrinksDirect(b: seq<byte>, t: Table, slots: nat)
    requires slots <= 511 && RootReads(b, t, slots) && Shaped(t) && 0 < |t.data| <= LEVEL_ONE
    ensures var r := RootPut(b, |t.data| - 1, 0, |t.data| - 1);
            RootReads(r, ShrinkTable(t), slots) && SameHeader(b, r, slots)
  {
    RootPutIs(b, |t.data| - 1, 0, |t.data| - 1);
    hide Word, RootPut;
  }

  /** The root when its last data block n, listed in index block ib, goes away. */
  function UnlinkedRoot(b: seq<byte>, n: u32, ib: u32): (r: seq<byte>)
    requires |b| == BLOCK_SIZE && LEVEL_ONE <= n && LEVEL_ONE + Index0(n) < COUNT_WORD
    ensures |r| == BLOCK_SIZE
  {
    RootPut(b, LEVEL_ONE + Index0(n), if Index1(n) == 0 then 0 else ib, n)
  }

  lemma RootShrinksIndexed(b: seq<byte>, t: Table, slots: nat, ib: u32)
    requires slots <= 511 && RootReads(b, t, slots) && Shaped(t)
    requires LEVEL_ONE < |t.data| <= LEVEL_ONE + slots * INDEX_SIZE
    requires |t.index| == Index0(|t.data| - 1) + 1 && ib == t.index[|t.index| - 1]
    ensures Index0(|t.data| - 1) < slots
    ensures var r := UnlinkedRoot(b, |t.data| - 1, ib);
            RootReads(r, ShrinkTable(t), slots) && SameHeader(b, r, slots)
  {
    var x := if Index1(|t.data| - 1) == 0 then 0 else ib;
    IndexCounts(|t.data| - 1);
    ShrunkRelists(t, ib);
    hide RootReads, SameHeader, Relisted, RootPut, ShrinkTable, IndexCount;
    RootRelisted(b, t, ShrinkTable(t), slots, Index0(|t.data| - 1), x);
  }

  lemma ShrunkRelists(t: Table, ib: u32)
    requires Shaped(t) && LEVEL_ONE < |t.data| && |t.index| == Index0(|t.data| - 1) + 1 && ib == t.index[|t.index| - 1]
    ensures Relisted(t, ShrinkTable(t), Index0(|t.data| - 1), if Index1(|t.data| - 1) == 0 then 0 else ib)
    ensures |ShrinkTable(t).data| == |t.data| - 1
  {
    hide IndexCount, Index0, Index1;
  }

  // ---- the index blocks

  /** Two different blocks beyond the first level are listed in different places. */
  lemma PlacesDiffer(n: nat, m: nat)
    requires LEVEL_ONE <= n < m
    ensures Index0(n) <= Index0(m)
    ensures Index0(n) == Index0(m) ==> Index1(n) < Index1(m)
    ensures Index0(n) < IndexCount(m)
  {
  }

  lemma IndexGrows(m: Mem, m': Mem, t: Table, ib: nat, x: u32)
    requires Shaped(t) && IndexReads(m, t) && Distinct(t.index) && LEVEL_ONE <= |t.data| && Need(|t.data|) <= |t.free|
    requires var g := GrowTable(t);
             && Shaped(g) && g.data[|t.data|] == x && g.index[|g.index| - 1] == ib
             && (OpensIndex(|t.data|) ==> ib !in t.index)
    requires ib in m && |m[ib]| == BLOCK_SIZE && ib in m' && m'[ib] == PutWord(m[ib], Index1(|t.data|), x)
    requires forall b :: b in t.index && b != ib ==> b in m && b in m' && m'[b] == m[b]
    ensures IndexReads(m', GrowTable(t))
  {
    var n, g := |t.data|, GrowTable(t);
    IndexCounts(n);
    PutWordIs(m[ib], Index1(n), x);
    forall k | LEVEL_ONE <= k < |g.data|
      ensures Index0(k) < |g.index| && g.index[Index0(k)] in m' && |m'[g.index[Index0(k)]]| == BLOCK_SIZE
      ensures Word(m'[g.index[Index0(k)]], Index1(k)) == g.data[k]
    {
      hide IndexCount, Index0, Index1, PutWord, Word;
      if k < n {
        PlacesDiffer(k, n);
        assert g.index[Index0(k)] == t.index[Index0(k)];
      }
    }
  }

  lemma IndexShrinks(m: Mem, m': Mem, t: Table, ib: nat)
    requires Shaped(t) && IndexReads(m, t) && Distinct(t.index) && LEVEL_ONE < |t.data|
    requires t.index != [] && ib == t.index[|t.index| - 1] && ib in m && |m[ib]| == BLOCK_SIZE
    requires ib in m' && m'[ib] == PutWord(m[ib], Index1(|t.data| - 1), 0)
    requires forall b :: b in t.index && b != ib ==> b in m && b in m' && m'[b] == m[b]
    ensures Shaped(ShrinkTable(t)) && IndexReads(m', ShrinkTable(t))
  {
    var n, g := |t.data| - 1, ShrinkTable(t);
    IndexCounts(n);
    PutWordIs(m[ib], Index1(n), 0);
    forall k | LEVEL_ONE <= k < n
      ensures Index0(k) < |g.index| && g.index[Index0(k)] in m' && |m'[g.index[Index0(k)]]| == BLOCK_SIZE
      ensures Word(m'[g.index[Index0(k)]], Index1(k)) == g.data[k]
    {
      hide IndexCount, Index0, Index1, PutWord, Word;
      PlacesDiffer(k, n);
      assert g.index[Index0(k)] == t.index[Index0(k)];
    }
  }

  // ---- the four loop bodies, on the whole memory

  lemma RepGrowsDirect(m: Mem, root: nat, t: Table, slots: nat)
    requires Rep(m, root, t, slots) && |t.data| < LEVEL_ONE && t.free != []
    ensures var n, x := |t.data|, t.free[|t.free| - 1];
            Rep(PutBlock(m, root, RootPut(m[root], n, x, n + 1)), root, GrowTable(t), slots)
  {
    var n, x := |t.data|, t.free[|t.free| - 1];
    var m' := PutBlock(m, root, RootPut(m[root], n, x, n + 1));
    IndexCounts(n);
    GrowConserves(t);
    NamedGrows(m, m', t);
    RootGrowsDirect(m[root], t, slots, x);
    hide AllBlocks, RootReads, IndexReads, RootPut;
    NoIndexReads(m', GrowTable(t));
  }

  lemma NoIndexReads(m: Mem, t: Table)
    requires Shaped(t) && |t.data| <= LEVEL_ONE
    ensures IndexReads(m, t)
  {
  }

  /** The index block that lists the next data block, and that data block, before they are linked in. */
  ghost predicate NextIndexed(t: Table, ib: nat, x: nat) {
    && LEVEL_ONE <= |t.data| && Need(|t.data|) <= |t.free|
    && var g := GrowTable(t);
    && g.index != [] && g.index[|g.index| - 1] == ib && g.data[|t.data|] == x
  }

  /** What is known about that index block. */
  ghost predicate NextKnown(m: Mem, root: nat, t: Table, ib: nat, x: nat) {
    && ib in m && |m[ib]| == BLOCK_SIZE && ib != root && root !in t.index && 0 < x < WORD_LIMIT && 0 < ib < WORD_LIMIT
    && Distinct(t.index) && (OpensIndex(|t.data|) ==> ib !in t.index) && (!OpensIndex(|t.data|) ==> ib in t.index)
    && Need(|t.data|) <= |t.free| && Shaped(GrowTable(t)) && Apart(GrowTable(t), root) && GrowTable(t).index != []
    && GrowTable(t).index[|GrowTable(t).index| - 1..] == [ib] && ib in GrowTable(t).index
  }

  lemma NextIndexedFacts(m: Mem, root: nat, t: Table, slots: nat, ib: nat, x: nat)
    requires NextIndexed(t, ib, x)
    ensures Rep(m, root, t, slots) ==> NextKnown(m, root, t, ib, x)
  {
    if Rep(m, root, t, slots) {
      IndexCounts(|t.data|);
      ApartMeans(t, root);
      GrowConserves(t);
      var f := |t.free|;
      if OpensIndex(|t.data|) {
        assert ib == t.free[f - 1] && x == t.free[f - 2];
      } else {
        assert ib == t.index[|t.index| - 1] && x == t.free[f - 1];
      }
    }
  }

  /** The root and one index block were rewritten. */
  ghost function Rewritten(m: Mem, root: nat, a: seq<byte>, ib: nat, c: seq<byte>): Mem {
    PutBlock(PutBlock(m, ib, c), root, a)
  }

  lemma RewrittenIs(m: Mem, root: nat, a: seq<byte>, ib: nat, c: seq<byte>)
    requires root in m && ib in m && root != ib && |a| == |m[root]| && |c| == |m[ib]|
    ensures var m' := Rewritten(m, root, a, ib, c);
            && SameShape(m, m') && m'[root] == a && m'[ib] == c
            && (forall b :: b in m && b != root && b != ib ==> m'[b] == m[b])
    ensures Rewritten(m, root, a, ib, c) == PutBlock(PutBlock(m, root, a), ib, c)
  {
  }

  lemma GrownMemory(m: Mem, root: nat, t: Table, ib: nat, x: u32, a: seq<byte>)
    requires NextIndexed(t, ib, x) && NextKnown(m, root, t, ib, x) && Shaped(t) && IndexReads(m, t) && AllNamed(m, t)
    requires root in m && |m[root]| == BLOCK_SIZE == |a|
    ensures var m' := Rewritten(m, root, a, ib, PutWord(m[ib], Index1(|t.data|), x));
            IndexReads(m', GrowTable(t)) && AllNamed(m', GrowTable(t)) && root in m' && m'[root] == a
  {
    hide Index0, Index1, PutWord, IndexReads, Distinct, Apart, Rewritten;
    var c := PutWord(m[ib], Index1(|t.data|), x);
    RewrittenIs(m, root, a, ib, c);
    IndexGrows(m, Rewritten(m, root, a, ib, c), t, ib, x);
    NamedGrows(m, Rewritten(m, root, a, ib, c), t);
  }

  lemma NextIs(m: Mem, root: nat, t: Table, ib: nat, x: nat)
    requires NextKnown(m, root, t, ib, x)
    ensures ib in m && |m[ib]| == BLOCK_SIZE && ib != root && ib in GrowTable(t).index
    ensures Shaped(GrowTable(t)) && Apart(GrowTable(t), root) && GrowTable(t).index[|GrowTable(t).index| - 1..] == [ib]
  {
  }

  lemma RepGrowsIndexed(m: Mem, root: nat, t: Table, slots: nat, ib: u32, x: u32)
    requires Rep(m, root, t, slots) && |t.data| < LEVEL_ONE + slots * INDEX_SIZE && NextIndexed(t, ib, x)
    ensures NextKnown(m, root, t, ib, x) && Index0(|t.data|) < slots
    ensures var n := |t.data|;
            var a, c := LinkedRoot(m[root], n, ib), PutWord(m[ib], Index1(n), x);
            && Rep(Rewritten(m, root, a, ib, c), root, GrowTable(t), slots)
            && SameHeader(m[root], a, slots)
  {
    var n := |t.data|;
    NextIndexedFacts(m, root, t, slots, ib, x);
    GrowExtends(t);
    NextIs(m, root, t, ib, x);
    hide GrowTable, Extends, AllBlocks, Distinct, AllNamed, Apart, RootReads, IndexReads, LinkedRoot, PutWord,
      IndexCount,
      Index0, Index1, Rewritten, NextKnown, SameHeader;
    RootGrowsIndexed(m[root], t, slots, ib);
    GrownMemory(m, root, t, ib, x, LinkedRoot(m[root], n, ib));
  }

  lemma RepShrinksDirect(m: Mem, root: nat, t: Table, slots: nat)
    requires Rep(m, root, t, slots) && 0 < |t.data| <= LEVEL_ONE
    ensures var n := |t.data| - 1; Rep(PutBlock(m, root, RootPut(m[root], n, 0, n)), root, ShrinkTable(t), slots)
  {
    var n := |t.data| - 1;
    var m' := PutBlock(m, root, RootPut(m[root], n, 0, n));
    IndexCounts(n);
    ShrinkConserves(t);
    NamedShrinks(m, m', t);
    RootShrinksDirect(m[root], t, slots);
    hide AllBlocks, RootReads, IndexReads, RootPut;
    NoIndexReads(m', ShrinkTable(t));
  }

  ghost predicate LastIndexed(m: Mem, root: nat, t: Table, ib: nat) {
    && ib in m && |m[ib]| == BLOCK_SIZE && ib != root && root !in t.index && Distinct(t.index)
    && LEVEL_ONE < |t.data| && Shaped(t) && |t.index| == Index0(|t.data| - 1) + 1
    && Shaped(ShrinkTable(t)) && Apart(ShrinkTable(t), root)
  }

  lemma LastIndexedFacts(m: Mem, root: nat, t: Table, slots: nat, ib: nat)
    requires LEVEL_ONE < |t.data| && t.index != [] && ib == t.index[|t.index| - 1]
    ensures Rep(m, root, t, slots) ==> Shaped(t) && LastIndexed(m, root, t, ib)
  {
    if Rep(m, root, t, slots) {
      IndexCounts(|t.data| - 1);
      ApartMeans(t, root);
      ShrinkConserves(t);
    }
  }

  lemma ShrunkMemory(m: Mem, root: nat, t: Table, ib: nat, a: seq<byte>)
    requires LastIndexed(m, root, t, ib) && IndexReads(m, t) && AllNamed(m, t) && ib == t.index[|t.index| - 1]
    requires root in m && |m[root]| == BLOCK_SIZE == |a|
    ensures var m' := Rewritten(m, root, a, ib, PutWord(m[ib], Index1(|t.data| - 1), 0));
            IndexReads(m', ShrinkTable(t)) && AllNamed(m', ShrinkTable(t)) && root in m' && m'[root] == a
  {
    hide ShrinkTable, Index0, Index1, PutWord, IndexReads, Distinct, Apart, Rewritten;
    var c := PutWord(m[ib], Index1(|t.data| - 1), 0);
    RewrittenIs(m, root, a, ib, c);
    IndexShrinks(m, Rewritten(m, root, a, ib, c), t, ib);
    NamedShrinks(m, Rewritten(m, root, a, ib, c), t);
  }

  lemma RepShrinksIndexed(m: Mem, root: nat, t: Table, slots: nat, ib: u32)
    requires Rep(m, root, t, slots) && LEVEL_ONE < |t.data|
    requires t.index != [] && ib == t.index[|t.index| - 1]
    ensures LastIndexed(m, root, t, ib) && Index0(|t.data| - 1) < slots
    ensures var n := |t.data| - 1;
            var a, c := UnlinkedRoot(m[root], n, ib), PutWord(m[ib], Index1(n), 0);
            && Rep(Rewritten(m, root, a, ib, c), root, ShrinkTable(t), slots)
            && SameHeader(m[root], a, slots)
  {
    var n := |t.data| - 1;
    LastIndexedFacts(m, root, t, slots, ib);
    ShrinkExtends(t);
    hide ShrinkTable, Extends, AllBlocks, Distinct, AllNamed, Apart, RootReads, IndexReads, UnlinkedRoot, PutWord,
      IndexCount,
      Index0, Index1, Rewritten, LastIndexed, SameHeader;
    RootShrinksIndexed(m[root], t, slots, ib);
    ShrunkMemory(m, root, t, ib, UnlinkedRoot(m[root], n, ib));
  }

  lemma LastIs(m: Mem, root: nat, t: Table, ib: nat)
    requires LastIndexed(m, root, t, ib)
    ensures ib in m && |m[ib]| == BLOCK_SIZE && ib != root
  {
  }

  // ---- the store

  function Zeros(): (b: seq<byte>)
    ensures |b| == BLOCK_SIZE && forall k :: 0 <= k < BLOCK_SIZE ==> b[k] == 0
  {
    seq(BLOCK_SIZE, _ => 0)
  }

  /** A root whose table area and count are zero lists the empty table. */
  lemma ZeroRoot(slots: nat, free: seq<nat>)
    requires slots <= 511
    ensures RootReads(Zeros(), Table([], [], free), slots)
  {
    forall i | 0 <= i <= COUNT_WORD
      ensures Word(Zeros(), i) == 0
    {
      ZeroWord(Zeros(), i);
    }
  }

  /**
   Where the words of a stored table are: the block count in the last word of the root, data blocks 0 to 511 in its
   first words, and each further one in a block of 1024 words that the words from 512 on name.
   */
  lemma DataPlaces(m: Mem, root: nat, t: Table, slots: nat, n: nat)
    requires Rep(m, root, t, slots) && n < |t.data|
    ensures |m[root]| == 4096 && Word(m[root], 1023) == |t.data|
    ensures n < 512 ==> Word(m[root], n) == t.data[n]
    ensures 512 <= n ==>
              var q, r := (n - 512) / 1024, (n - 512) % 1024;
              && q < slots && Word(m[root], 512 + q) in m && |m[Word(m[root], 512 + q)]| == 4096
              && Word(m[Word(m[root], 512 + q)], r) == t.data[n]
  {
  }

  /** Index place j of the root is in use exactly when the table reaches past the first 512 + 1024 * j blocks. */
  lemma IndexPlaces(m: Mem, root: nat, t: Table, slots: nat, j: nat)
    requires Rep(m, root, t, slots) && j < slots
    ensures |m[root]| == BLOCK_SIZE && (Word(m[root], LEVEL_ONE + j) != 0 <==> LEVEL_ONE + INDEX_SIZE * j < |t.data|)
  {
    assert j < |t.index| ==> t.index[j] != 0;
    assert j < IndexCount(|t.data|) <==> LEVEL_ONE + INDEX_SIZE * j < |t.data|;
  }

  /** The words of the root are determined by the table and the header. */
  lemma RootWordsSame(b: seq<byte>, c: seq<byte>, t: Table, slots: nat, i: nat)
    requires slots <= 511 && RootReads(b, t, slots) && RootReads(c, t, slots) && SameHeader(b, c, slots)
    requires i <= COUNT_WORD
    ensures Word(c, i) == Word(b, i)
  {
    if LEVEL_ONE + slots <= i < COUNT_WORD {
      SameWord(c, b, i);
    }
  }

  /** Between two memories only the root and index blocks of the two tables were written, and not the root's header. */
  ghost predicate Touched(m: Mem, m': Mem, root: nat, t: Table, u: Table, slots: nat) {
    && SameShape(m, m')
    && (forall b :: b in m && b != root && b !in t.index && b !in u.index ==> m'[b] == m[b])
    && root in m && SameHeader(m[root], m'[root], slots)
  }

  lemma TouchedRoot(m: Mem, root: nat, a: seq<byte>, t: Table, u: Table, slots: nat)
    requires root in m && SameHeader(m[root], a, slots)
    ensures Touched(m, PutBlock(m, root, a), root, t, u, slots)
  {
  }

  lemma TouchedTwo(m: Mem, root: nat, a: seq<byte>, ib: nat, c: seq<byte>, t: Table, u: Table, slots: nat)
    requires root in m && ib in m && ib != root && SameHeader(m[root], a, slots) && |c| == |m[ib]|
    requires ib in t.index || ib in u.index
    ensures Touched(m, Rewritten(m, root, a, ib, c), root, t, u, slots)
  {
  }

  class Store {
    var mem: Mem
    var free: seq<nat>

    /** A page table with that many index slots is rooted at the block. */
    ghost predicate Holds(root: nat, t: Table, slots: nat)
      reads this
    {
      free == t.free && Rep(mem, root, t, slots)
    }

    function Count(root: nat): nat
      requires root in mem && |mem[root]| == BLOCK_SIZE
      reads this
    {
      Word(mem[root], COUNT_WORD)
    }

    /** Clears a block and makes it the root of an empty table. */
    method Init(root: nat, ghost slots: nat)
      requires root in mem && slots <= 511 && Named(mem, free) && Apart(Table([], [], free), root)
      modifies this`mem
      ensures Holds(root, Table([], [], free), slots)
      ensures mem == PutBlock(old(mem), root, Zeros())
    {
      mem := PutBlock(mem, root, Zeros());
      ZeroRoot(slots, free);
    }

    /** Pops the stack of free blocks. */
    method Allocate() returns (code: Code, b: nat)
      modifies this`free
      ensures if old(free) == [] then code == OutOfBlocks && free == [] && b == 0
              else code == Ok && b == old(free)[|old(free)| - 1] && free == old(free)[..|old(free)| - 1]
    {
      if |free| == 0 {
        return OutOfBlocks, 0;
      }
      code, b := Ok, free[|free| - 1];
      free := free[..|free| - 1];
    }

    method FreeBlock(b: nat)
      modifies this`free
      ensures free == old(free) + [b]
    {
      free := free + [b];
    }

    /** First loop of a resize: one more block in the root's own list. */
    method GrowDirectly(root: nat, ghost t: Table, ghost slots: nat) returns (code: Code)
      requires Holds(root, t, slots) && |t.data| < LEVEL_ONE && t.free != []
      modifies this
      ensures code == Ok && Holds(root, GrowTable(t), slots) && Touched(old(mem), mem, root, t, GrowTable(t), slots)
    {
      Names(root, t, slots);
      ghost var x := t.free[|t.free| - 1];
      RepGrowsDirect(mem, root, t, slots);
      RootGrowsDirect(mem[root], t, slots, x);
      TouchedRoot(mem, root, RootPut(mem[root], |t.data|, x, |t.data| + 1), t, GrowTable(t), slots);
      GrownFree(t);
      hide Rep, RootReads, RootPut, Touched, GrowTable, SameHeader;
      var b, n := 0, Count(root);
      code, b := Allocate();
      if code != Ok {
        return;
      }
      mem := PutBlock(mem, root, RootPut(mem[root], n, b, n + 1));
    }

    /** What a stored table shows in the root block. */
    lemma Names(root: nat, t: Table, slots: nat)
      requires Holds(root, t, slots)
      ensures root in mem && |mem[root]| == BLOCK_SIZE && Count(root) == |t.data| && Shaped(t)
      ensures slots <= 511 && RootReads(mem[root], t, slots)
      ensures forall x :: x in t.free ==> 0 < x < WORD_LIMIT
    {
    }

    /** What the second loop finds: the index word tells whether a new index block is needed. */
    lemma GrowFinds(root: nat, t: Table, slots: nat) returns (ib: u32, x: u32)
      requires Holds(root, t, slots) && LEVEL_ONE <= |t.data| < LEVEL_ONE + slots * INDEX_SIZE
      requires Need(|t.data|) <= |t.free|
      ensures root in mem && |mem[root]| == BLOCK_SIZE && Index0(|t.data|) < slots <= 511 && Count(root) == |t.data|
      ensures var w, f := Word(mem[root], LEVEL_ONE + Index0(|t.data|)), |t.free|;
              && Need(|t.data|) == (if w == 0 then 2 else 1)
              && ib == (if w == 0 then t.free[f - 1] else w) && x == t.free[f - Need(|t.data|)]
      ensures NextIndexed(t, ib, x)
    {
      var n, f := |t.data|, |t.free|;
      IndexCounts(n);
      if OpensIndex(n) {
        ib, x := t.free[f - 1], t.free[f - 2];
      } else {
        ib, x := t.index[|t.index| - 1], t.free[f - 1];
      }
    }

    lemma GrowLinks(root: nat, t: Table, slots: nat, ib: u32, x: u32)
      requires Holds(root, t, slots) && |t.data| < LEVEL_ONE + slots * INDEX_SIZE && NextIndexed(t, ib, x)
      ensures root in mem && |mem[root]| == BLOCK_SIZE && Index0(|t.data|) < slots <= 511
      ensures ib in mem && ib != root && |mem[ib]| == BLOCK_SIZE
      ensures var n := |t.data|;
              var a, c := LinkedRoot(mem[root], n, ib), PutWord(mem[ib], Index1(n), x);
              && Rep(PutBlock(PutBlock(mem, root, a), ib, c), root, GrowTable(t), slots)
              && Touched(mem, PutBlock(PutBlock(mem, root, a), ib, c), root, t, GrowTable(t), slots)
    {
      Names(root, t, slots);
      RepGrowsIndexed(mem, root, t, slots, ib, x);
      NextIs(mem, root, t, ib, x);
      hide Rep, Touched, LinkedRoot, PutWord, Index0, Index1, GrowTable, Rewritten, PutBlock, NextIndexed, NextKnown,
        Holds, SameHeader;
      ghost var a, c := LinkedRoot(mem[root], |t.data|, ib), PutWord(mem[ib], Index1(|t.data|), x);
      RewrittenIs(mem, root, a, ib, c);
      TouchedTwo(mem, root, a, ib, c, t, GrowTable(t), slots);
    }

    /** What the third loop finds: the last index block, and in it the last data block. */
    lemma ShrinkFinds(root: nat, t: Table, slots: nat) returns (ib: u32)
      requires Holds(root, t, slots) && LEVEL_ONE < |t.data|
      ensures t.index != [] && ib == t.index[|t.index| - 1] && Index0(|t.data| - 1) < slots <= 511
      ensures root in mem && |mem[root]| == BLOCK_SIZE && Count(root) == |t.data|
      ensures Word(mem[root], LEVEL_ONE + Index0(|t.data| - 1)) == ib
      ensures ib in mem && |mem[ib]| == BLOCK_SIZE && Word(mem[ib], Index1(|t.data| - 1)) == t.data[|t.data| - 1]
      ensures ShrinkTable(t).free == t.free + [t.data[|t.data| - 1]] + if Index1(|t.data| - 1) == 0 then [ib] else []
    {
      IndexCounts(|t.data| - 1);
      ib := t.index[|t.index| - 1];
      assert t.index[Index0(|t.data| - 1)] == ib;
    }

    lemma ShrinkUnlinks(root: nat, t: Table, slots: nat, ib: u32)
      requires Holds(root, t, slots) && LEVEL_ONE < |t.data| && t.index != [] && ib == t.index[|t.index| - 1]
      ensures root in mem && |mem[root]| == BLOCK_SIZE && Index0(|t.data| - 1) < slots <= 511
      ensures ib in mem && ib != root && |mem[ib]| == BLOCK_SIZE
      ensures var n := |t.data| - 1;
              var a, c := UnlinkedRoot(mem[root], n, ib), PutWord(mem[ib], Index1(n), 0);
              && Rep(PutBlock(PutBlock(mem, ib, c), root, a), root, ShrinkTable(t), slots)
              && Touched(mem, PutBlock(PutBlock(mem, ib, c), root, a), root, t, ShrinkTable(t), slots)
    {
      Names(root, t, slots);
      RepShrinksIndexed(mem, root, t, slots, ib);
      LastIs(mem, root, t, ib);
      hide Rep, Touched, UnlinkedRoot, PutWord, Index0, Index1, ShrinkTable, PutBlock, LastIndexed, Holds, SameHeader;
      TouchedTwo(mem, root, UnlinkedRoot(mem[root], |t.data| - 1, ib), ib, PutWord(mem[ib], Index1(|t.data| - 1), 0), t,
                 ShrinkTable(t), slots);
    }

    /** Second loop: one more block in the last index block, or in a new one. */
    method GrowIndexed(root: nat, ghost t: Table, ghost slots: nat) returns (code: Code)
      requires Holds(root, t, slots) && LEVEL_ONE <= |t.data| < LEVEL_ONE + slots * INDEX_SIZE
      requires Need(|t.data|) <= |t.free|
      modifies this
      ensures code == Ok && Holds(root, GrowTable(t), slots) && Touched(old(mem), mem, root, t, GrowTable(t), slots)
    {
      hide Rep, RootReads, RootPut, Touched, GrowTable, IndexCount, Index0, Index1, NextIndexed, Word, PutWord,
        PutBlock,
        SameHeader, Shaped, OpensIndex;
      ghost var nextIb, nextX := GrowFinds(root, t, slots);
      GrowLinks(root, t, slots, nextIb, nextX);
      Names(root, t, slots);
      GrownFree(t);
      var n := Count(root);
      var b, ib := 0, Word(mem[root], LEVEL_ONE + Index0(n));
      if ib == 0 {
        code, ib := Allocate();
        if code != Ok {
          return;
        }
      }
      code, b := Allocate();
      if code != Ok {
        return;
      }
      assert RootPut(mem[root], LEVEL_ONE + Index0(n), ib, n + 1) == LinkedRoot(mem[root], n, ib);
      hide LinkedRoot;
      PutOther(mem, root, RootPut(mem[root], LEVEL_ONE + Index0(n), ib, n + 1), ib);
      mem := PutBlock(mem, root, RootPut(mem[root], LEVEL_ONE + Index0(n), ib, n + 1));
      mem := PutBlock(mem, ib, PutWord(mem[ib], Index1(n), b));
    }

    /** Third loop: the last data block goes back, and its index block with it when it was the first entry there. */
    method ShrinkIndexed(root: nat, ghost t: Table, ghost slots: nat)
      requires Holds(root, t, slots) && LEVEL_ONE < |t.data|
      modifies this
      ensures Holds(root, ShrinkTable(t), slots) && Touched(old(mem), mem, root, t, ShrinkTable(t), slots)
    {
      ghost var last := ShrinkFinds(root, t, slots);
      ShrinkUnlinks(root, t, slots, last);
      hide Rep, RootPut, Touched, ShrinkTable, IndexCount, Index0, Index1, PutWord, PutBlock;
      Unlink(root, Count(root) - 1, Word(mem[root], LEVEL_ONE + Index0(Count(root) - 1)));
    }

    /** Takes data block n, the last one, out of index block ib. */
    method Unlink(root: nat, n: u32, ib: u32)
      requires root in mem && ib in mem && root != ib && |mem[root]| == |mem[ib]| == BLOCK_SIZE
      requires LEVEL_ONE <= n && LEVEL_ONE + Index0(n) < COUNT_WORD
      modifies this
      ensures free == old(free) + [Word(old(mem[ib]), Index1(n))] + if Index1(n) == 0 then [ib] else []
      ensures var cut := PutBlock(old(mem), ib, PutWord(old(mem[ib]), Index1(n), 0));
              mem == PutBlock(cut, root, UnlinkedRoot(old(mem[root]), n, ib))
    {
      hide RootPut, Index0, Index1, PutWord, PutBlock, Word;
      FreeBlock(Word(mem[ib], Index1(n)));
      PutOther(mem, ib, PutWord(mem[ib], Index1(n), 0), root);
      mem := PutBlock(mem, ib, PutWord(mem[ib], Index1(n), 0));
      var entry := KeepIndex(ib, n);
      mem := PutBlock(mem, root, RootPut(mem[root], LEVEL_ONE + Index0(n), entry, n));
    }

    /** An index block whose first entry goes away is freed; what is returned is its entry in the root. */
    method KeepIndex(ib: u32, n: nat) returns (entry: u32)
      requires LEVEL_ONE <= n
      modifies this`free
      ensures entry == if Index1(n) == 0 then 0 else ib
      ensures free == old(free) + if Index1(n) == 0 then [ib] else []
    {
      entry := ib;
      if Index1(n) == 0 {
        FreeBlock(ib);
        entry := 0;
      }
    }

    /** Fourth loop: the last block of the root's own list goes back. */
    method ShrinkDirectly(root: nat, ghost t: Table, ghost slots: nat)
      requires Holds(root, t, slots) && 0 < |t.data| <= LEVEL_ONE
      modifies this
      ensures Holds(root, ShrinkTable(t), slots) && Touched(old(mem), mem, root, t, ShrinkTable(t), slots)
    {
      Names(root, t, slots);
      RepShrinksDirect(mem, root, t, slots);
      RootShrinksDirect(mem[root], t, slots);
      TouchedRoot(mem, root, RootPut(mem[root], |t.data| - 1, 0, |t.data| - 1), t, ShrinkTable(t), slots);
      assert Word(mem[root], |t.data| - 1) == t.data[|t.data| - 1];
      assert ShrinkTable(t).free == t.free + [t.data[|t.data| - 1]];
      hide Rep, RootReads, RootPut, Touched, ShrinkTable, SameHeader;
      var n := Count(root) - 1;
      FreeBlock(Word(mem[root], n));
      mem := PutBlock(mem, root, RootPut(mem[root], n, 0, n));
    }

    /** Grows or shrinks a page table to n blocks, one block at a time. */
    method Resize(root: nat, n: nat, ghost t: Table, ghost slots: nat) returns (code: Code)
      requires Holds(root, t, slots) && Enough(t, n) && n <= LEVEL_ONE + slots * INDEX_SIZE
      modifies this
      ensures code == Ok && Holds(root, Resized(t, n), slots) && ResizedTo(old(mem), mem, root, t, n, slots)
    {
      hide Rep, RootReads, Touched, Resized, Enough, GrowTable, ShrinkTable, Extends, Word;
      ghost var m, cur := mem, t;
      code := Ok;
      Names(root, t, slots);
      StartOnTheWay(m, root, t, slots, n);
      while Count(root) < n && Count(root) < LEVEL_ONE
        invariant code == Ok && Holds(root, cur, slots) && OnTheWay(m, mem, root, t, cur, slots, n) && InRoot(root, cur)
        decreases n - |cur.data|
      {
        ResizeUp(cur, n);
        ghost var before, next := mem, GrowTable(cur);
        code := GrowDirectly(root, cur, slots);
        GrowOnTheWay(m, before, mem, root, t, cur, slots, n);
        cur := next;
        Names(root, cur, slots);
      }
      while Count(root) < n
        invariant code == Ok && Holds(root, cur, slots) && OnTheWay(m, mem, root, t, cur, slots, n) && InRoot(root, cur)
        invariant |cur.data| < n ==> LEVEL_ONE <= |cur.data|
        decreases n - |cur.data|
      {
        ResizeUp(cur, n);
        ghost var before, next := mem, GrowTable(cur);
        code := GrowIndexed(root, cur, slots);
        GrowOnTheWay(m, before, mem, root, t, cur, slots, n);
        cur := next;
        Names(root, cur, slots);
      }
      while Count(root) > n && Count(root) > LEVEL_ONE
        invariant code == Ok && Holds(root, cur, slots) && OnTheWay(m, mem, root, t, cur, slots, n) && InRoot(root, cur)
        invariant n <= |cur.data|
        decreases |cur.data|
      {
        ghost var before, next := mem, ShrinkTable(cur);
        ShrinkIndexed(root, cur, slots);
        ShrinkOnTheWay(m, before, mem, root, t, cur, slots, n);
        cur := next;
        Names(root, cur, slots);
      }
      while Count(root) > n
        invariant code == Ok && Holds(root, cur, slots) && OnTheWay(m, mem, root, t, cur, slots, n) && InRoot(root, cur)
        invariant n <= |cur.data| && (n < |cur.data| ==> |cur.data| <= LEVEL_ONE)
        decreases |cur.data|
      {
        ghost var before, next := mem, ShrinkTable(cur);
        ShrinkDirectly(root, cur, slots);
        ShrinkOnTheWay(m, before, mem, root, t, cur, slots, n);
        cur := next;
        Names(root, cur, slots);
      }
      EndOfTheWay(m, mem, root, t, cur, slots, n);
    }

    ghost predicate InRoot(root: nat, cur: Table)
      reads this
    {
      root in mem && |mem[root]| == BLOCK_SIZE && Count(root) == |cur.data|
    }

    /** The host block of index i of a table. The case of an empty table cannot be reached behind the bound check. */
    method ReadHostIndex(root: nat, i: nat, ghost t: Table, ghost slots: nat) returns (code: Code, b: int)
      requires Holds(root, t, slots)
      ensures if i < |t.data| then code == Ok && b == t.data[i] else code == OutOfBounds && b == -1
    {
      Names(root, t, slots);
      if i >= Count(root) {
        return OutOfBounds, -1;
      }
      if Count(root) == 0 {
        return Ok, root;
      }
      if i < LEVEL_ONE {
        return Ok, Word(mem[root], i);
      }
      Listed(root, t, slots, i);
      var ib := Word(mem[root], LEVEL_ONE + Index0(i));
      return Ok, Word(mem[ib], Index1(i));
    }

    lemma Listed(root: nat, t: Table, slots: nat, i: nat)
      requires Holds(root, t, slots) && LEVEL_ONE <= i < |t.data|
      ensures Index0(i) < |t.index| && Index0(i) < slots
      ensures Word(mem[root], LEVEL_ONE + Index0(i)) == t.index[Index0(i)]
      ensures t.index[Index0(i)] in mem && |mem[t.index[Index0(i)]]| == BLOCK_SIZE
      ensures Word(mem[t.index[Index0(i)]], Index1(i)) == t.data[i]
    {
      PlacesDiffer(i, |t.data|);
    }
  }

  /** A state of the loops of a resize: the table cur lies between t and n blocks. */
  ghost predicate OnTheWay(m: Mem, m': Mem, root: nat, t: Table, cur: Table, slots: nat, n: nat) {
    && Shaped(t) && Enough(t, n) && Shaped(cur) && Enough(cur, n)
    && Resized(cur, n) == Resized(t, n)
    && Touched(m, m', root, t, cur, slots)
    && (if |t.data| <= n then |cur.data| <= n else n <= |cur.data| && Extends(cur, t))
  }

  lemma StartOnTheWay(m: Mem, root: nat, t: Table, slots: nat, n: nat)
    requires Shaped(t) && Enough(t, n) && root in m && |m[root]| == BLOCK_SIZE
    ensures OnTheWay(m, m, root, t, t, slots, n)
  {
  }

  lemma TouchedTransitive(m: Mem, m1: Mem, m2: Mem, root: nat, t: Table, cur: Table, next: Table, slots: nat)
    requires Touched(m, m1, root, t, cur, slots) && Touched(m1, m2, root, cur, next, slots)
    requires cur.index <= next.index || cur.index <= t.index
    ensures Touched(m, m2, root, t, next, slots)
  {
  }

  lemma GrowOnTheWay(m: Mem, m1: Mem, m2: Mem, root: nat, t: Table, cur: Table, slots: nat, n: nat)
    requires OnTheWay(m, m1, root, t, cur, slots, n) && |cur.data| < n && Need(|cur.data|) <= |cur.free|
    requires Touched(m1, m2, root, cur, GrowTable(cur), slots)
    ensures OnTheWay(m, m2, root, t, GrowTable(cur), slots, n) && |GrowTable(cur).data| == |cur.data| + 1
  {
    ResizeUp(cur, n);
    GrowExtends(cur);
    hide GrowTable, Resized, Touched;
    TouchedTransitive(m, m1, m2, root, t, cur, GrowTable(cur), slots);
  }

  lemma ShrinkOnTheWay(m: Mem, m1: Mem, m2: Mem, root: nat, t: Table, cur: Table, slots: nat, n: nat)
    requires OnTheWay(m, m1, root, t, cur, slots, n) && n < |cur.data|
    requires Touched(m1, m2, root, cur, ShrinkTable(cur), slots)
    ensures OnTheWay(m, m2, root, t, ShrinkTable(cur), slots, n) && |ShrinkTable(cur).data| == |cur.data| - 1
  {
    ResizeDown(cur, n);
    ShrinkExtends(cur);
    ExtendsTransitive(ShrinkTable(cur), cur, t);
    hide ShrinkTable, Resized, Touched;
    TouchedTransitive(m, m1, m2, root, t, cur, ShrinkTable(cur), slots);
  }

  lemma EndOfTheWay(m: Mem, m': Mem, root: nat, t: Table, cur: Table, slots: nat, n: nat)
    requires OnTheWay(m, m', root, t, cur, slots, n) && |cur.data| == n
    ensures cur == Resized(t, n)
    ensures Touched(m, m', root, t, cur, slots)
  {
  }

  /** What a resize to n blocks leaves behind. */
  ghost predicate ResizedTo(m: Mem, m': Mem, root: nat, t: Table, n: nat, slots: nat) {
    && Shaped(t) && Enough(t, n)
    && Rep(m', root, Resized(t, n), slots) && Touched(m, m', root, t, Resized(t, n), slots)
  }

  /**
   A resize to any number of blocks and one back to the number before: the table is what it was, free stack included,
   and so is every word of the root.
   */
  lemma RootWordsBack(m: Mem, m1: Mem, m2: Mem, root: nat, t: Table, n: nat, slots: nat)
    requires Rep(m, root, t, slots) && ResizedTo(m, m1, root, t, n, slots)
    requires ResizedTo(m1, m2, root, Resized(t, n), |t.data|, slots)
    ensures Resized(Resized(t, n), |t.data|) == t && Rep(m2, root, t, slots)
    ensures root in m && root in m2 && |m[root]| == |m2[root]| == BLOCK_SIZE
    ensures forall i :: 0 <= i <= COUNT_WORD ==> Word(m2[root], i) == Word(m[root], i)
  {
    ResizeBack(t, n);
    hide Resized, Word;
    assert RootReads(m[root], t, slots) && RootReads(m2[root], t, slots) && SameHeader(m[root], m2[root], slots);
    forall i | 0 <= i <= COUNT_WORD
      ensures Word(m2[root], i) == Word(m[root], i)
    {
      RootWordsSame(m[root], m2[root], t, slots, i);
    }
  }

  lemma GrownFree(t: Table)
    requires Need(|t.data|) <= |t.free|
    ensures GrowTable(t).free == t.free[..|t.free| - Need(|t.data|)]
  {
  }
}
