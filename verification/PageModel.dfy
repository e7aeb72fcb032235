/**
 A page table as a value: the data blocks in index order, the index blocks that list those beyond the first 512,
 and the stack of free blocks that growing pops from and shrinking pushes to.
 */
module PageModel {

  /** Data blocks listed in the root itself, and data blocks listed per index block. */
  const LEVEL_ONE: nat := 512
  const INDEX_SIZE: nat := 1024

  datatype Table = Table(data: seq<nat>, index: seq<nat>, free: seq<nat>)

  /** Where block n beyond the first level is listed: the index block, and the place in it. */
  function Index0(n: nat): nat
    requires LEVEL_ONE <= n
  {
    (n - LEVEL_ONE) / INDEX_SIZE
  }

  function Index1(n: nat): (k: nat)
    requires LEVEL_ONE <= n
    ensures k < INDEX_SIZE
  {
    (n - LEVEL_ONE) % INDEX_SIZE
  }

  /** The index blocks that a table of n data blocks needs. */
  function IndexCount(n: nat): nat {
    if n <= LEVEL_ONE then 0 else (n - LEVEL_ONE + INDEX_SIZE - 1) / INDEX_SIZE
  }

  /** Data block n would be the first of a new index block. */
  predicate OpensIndex(n: nat) {
    LEVEL_ONE <= n && Index1(n) == 0
  }

  lemma IndexCounts(n: nat)
    ensures IndexCount(n + 1) == IndexCount(n) + if OpensIndex(n) then 1 else 0
    ensures LEVEL_ONE <= n ==> Index0(n) == IndexCount(n + 1) - 1
  {
  }

  predicate Shaped(t: Table) {
    |t.index| == IndexCount(|t.data|)
  }

  /** One more block takes this many from the stack. */
  function Need(n: nat): nat {
    if OpensIndex(n) then 2 else 1
  }

  function GrowTable(t: Table): Table
    requires Need(|t.data|) <= |t.free|
  {
    var f := |t.free|;
    if OpensIndex(|t.data|) then
      Table(t.data + [t.free[f - 2]], t.index + [t.free[f - 1]], t.free[..f - 2])
    else
      Table(t.data + [t.free[f - 1]], t.index, t.free[..f - 1])
  }

  function ShrinkTable(t: Table): Table
    requires Shaped(t) && t.data != []
  {
    var n := |t.data| - 1;
    IndexCounts(n);
    if OpensIndex(n) then
      Table(t.data[..n], t.index[..|t.index| - 1], t.free + [t.data[n]] + [t.index[|t.index| - 1]])
    else
      Table(t.data[..n], t.index, t.free + [t.data[n]])
  }

  /** The stack has what a table of n blocks needs beyond what this one owns. */
  predicate Enough(t: Table, n: nat) {
    n + IndexCount(n) <= |t.data| + |t.index| + |t.free|
  }

  function Resized(t: Table, n: nat): (r: Table)
    requires Shaped(t) && Enough(t, n)
    ensures Shaped(r) && |r.data| == n && |r.data| + |r.index| + |r.free| == |t.data| + |t.index| + |t.free|
    decreases if |t.data| <= n then n - |t.data| else |t.data| - n
  {
    IndexCounts(|t.data|);
    if |t.data| < n then
      CountGrows(|t.data| + 1, n);
      Resized(GrowTable(t), n)
    else if n < |t.data| then
      IndexCounts(|t.data| - 1);
      Resized(ShrinkTable(t), n)
    else t
  }

  lemma {:induction false} CountGrows(n: nat, m: nat)
    requires n <= m
    ensures IndexCount(n) <= IndexCount(m)
  {
  }

  // ---- growing and shrinking undo each other

  lemma GrowThenShrink(t: Table)
    requires Shaped(t) && Need(|t.data|) <= |t.free|
    ensures Shaped(GrowTable(t)) && ShrinkTable(GrowTable(t)) == t
  {
    IndexCounts(|t.data|);
    var g, s := GrowTable(t), ShrinkTable(GrowTable(t));
    assert g.data[..|t.data|] == t.data;
    assert s.free == t.free;
  }

  lemma ShrinkThenGrow(t: Table)
    requires Shaped(t) && t.data != []
    ensures Shaped(ShrinkTable(t)) && Need(|ShrinkTable(t).data|) <= |ShrinkTable(t).free|
    ensures GrowTable(ShrinkTable(t)) == t
  {
    ShrinkMakesRoom(t);
    DataBack(t);
    IndexBack(t);
    FreeBack(t);
    hide GrowTable, ShrinkTable, Shaped;
  }

  lemma ShrinkMakesRoom(t: Table)
    requires Shaped(t) && t.data != []
    ensures Shaped(ShrinkTable(t)) && Need(|ShrinkTable(t).data|) <= |ShrinkTable(t).free|
  {
    IndexCounts(|t.data| - 1);
    hide IndexCount, OpensIndex;
  }

  lemma DataBack(t: Table)
    requires Shaped(t) && t.data != [] && Need(|ShrinkTable(t).data|) <= |ShrinkTable(t).free|
    ensures GrowTable(ShrinkTable(t)).data == t.data
  {
    IndexCounts(|t.data| - 1);
    hide IndexCount, OpensIndex;
  }

  lemma IndexBack(t: Table)
    requires Shaped(t) && t.data != [] && Need(|ShrinkTable(t).data|) <= |ShrinkTable(t).free|
    ensures GrowTable(ShrinkTable(t)).index == t.index
  {
    IndexCounts(|t.data| - 1);
    hide IndexCount, OpensIndex;
  }

  lemma FreeBack(t: Table)
    requires Shaped(t) && t.data != [] && Need(|ShrinkTable(t).data|) <= |ShrinkTable(t).free|
    ensures GrowTable(ShrinkTable(t)).free == t.free
  {
    IndexCounts(|t.data| - 1);
    hide IndexCount, OpensIndex;
  }

  /** Resizing goes through every size on the way. */
  lemma {:induction false} ResizeSteps(t: Table, m: nat, n: nat)
    requires Shaped(t) && Enough(t, m) && Enough(t, n)
    requires |t.data| <= m <= n || n <= m <= |t.data|
    ensures Resized(Resized(t, m), n) == Resized(t, n)
    decreases if |t.data| <= m then m - |t.data| else |t.data| - m
  {
    IndexCounts(|t.data|);
    if |t.data| < m {
      GrowThenShrink(t);
      CountGrows(|t.data| + 1, n);
      ResizeSteps(GrowTable(t), m, n);
    } else if m < |t.data| {
      IndexCounts(|t.data| - 1);
      ResizeSteps(ShrinkTable(t), m, n);
    }
  }

  lemma ResizeUp(t: Table, n: nat)
    requires Shaped(t) && |t.data| < n && Enough(t, n)
    ensures Need(|t.data|) <= |t.free|
    ensures Shaped(GrowTable(t)) && Enough(GrowTable(t), n) && Resized(t, n) == Resized(GrowTable(t), n)
    ensures Resized(GrowTable(t), |t.data|) == t
  {
    IndexCounts(|t.data|);
    CountGrows(|t.data| + 1, n);
    GrowThenShrink(t);
  }

  lemma ResizeDown(t: Table, n: nat)
    requires Shaped(t) && n < |t.data| && Enough(t, n)
    ensures Shaped(ShrinkTable(t)) && Enough(ShrinkTable(t), n) && Resized(t, n) == Resized(ShrinkTable(t), n)
    ensures Enough(ShrinkTable(t), |t.data|) && Resized(ShrinkTable(t), |t.data|) == t
  {
    IndexCounts(|t.data| - 1);
    ShrinkThenGrow(t);
  }

  /**
   Resizing to any m and then back is an exact inverse: the same data blocks in the same order, the same index
   blocks, and the free stack element for element.
   */
  lemma {:induction false} ResizeBack(t: Table, m: nat)
    requires Shaped(t) && Enough(t, m)
    ensures Resized(Resized(t, m), |t.data|) == t
    decreases if |t.data| <= m then m - |t.data| else |t.data| - m
  {
    if |t.data| < m {
      ResizeUp(t, m);
      GrowExtends(t);
      hide Resized, GrowTable, IndexCount, Extends;
      ResizeBack(GrowTable(t), m);
      StepBack(t, GrowTable(t), m);
    } else if m < |t.data| {
      ResizeDown(t, m);
      ShrinkExtends(t);
      hide Resized, ShrinkTable, IndexCount, Extends;
      ResizeBack(ShrinkTable(t), m);
      StepBack(t, ShrinkTable(t), m);
    }
  }

  /** From the way back to the neighbour u of t to the way back to t. */
  lemma StepBack(t: Table, u: Table, m: nat)
    requires Shaped(t) && Shaped(u) && Enough(t, m) && Enough(u, m) && Resized(t, m) == Resized(u, m)
    requires if |t.data| < m then |u.data| == |t.data| + 1 else m < |t.data| && |u.data| == |t.data| - 1
    requires Resized(Resized(u, m), |u.data|) == u
    requires Enough(u, |t.data|) && Resized(u, |t.data|) == t
    ensures Resized(Resized(t, m), |t.data|) == t
  {
    hide Resized, IndexCount;
    ResizeSteps(Resized(t, m), |u.data|, |t.data|);
  }

  // ---- what a resize keeps

  /** All blocks of the table and of the stack, with multiplicity. */
  ghost function AllBlocks(t: Table): multiset<nat> {
    multiset(t.data) + multiset(t.index) + multiset(t.free)
  }

  lemma GrowConserves(t: Table)
    requires Need(|t.data|) <= |t.free|
    ensures AllBlocks(GrowTable(t)) == AllBlocks(t)
  {
    var f := |t.free|;
    assert t.free == t.free[..f - 1] + [t.free[f - 1]];
    if OpensIndex(|t.data|) {
      assert t.free[..f - 1] == t.free[..f - 2] + [t.free[f - 2]];
    }
  }

  lemma ShrinkConserves(t: Table)
    requires Shaped(t) && t.data != []
    ensures AllBlocks(ShrinkTable(t)) == AllBlocks(t)
  {
    var n := |t.data| - 1;
    IndexCounts(n);
    assert t.data == t.data[..n] + [t.data[n]];
    if OpensIndex(n) {
      assert t.index == t.index[..|t.index| - 1] + [t.index[|t.index| - 1]];
    }
  }

  /** u was cut down to t, or t grown to u: common blocks stay in place, at the bottom of the stack too. */
  ghost predicate Extends(t: Table, u: Table) {
    t.data <= u.data && t.index <= u.index && u.free <= t.free
  }

  lemma PrefixTransitive<T>(a: seq<T>, b: seq<T>, c: seq<T>)
    requires a <= b <= c
    ensures a <= c
  {
  }

  lemma ExtendsTransitive(t: Table, u: Table, w: Table)
    requires Extends(t, u) && Extends(u, w)
    ensures Extends(t, w)
  {
    PrefixTransitive(t.data, u.data, w.data);
    PrefixTransitive(t.index, u.index, w.index);
    PrefixTransitive(w.free, u.free, t.free);
  }

  lemma GrowExtends(t: Table)
    requires Need(|t.data|) <= |t.free|
    ensures Extends(t, GrowTable(t)) && |GrowTable(t).data| == |t.data| + 1
  {
  }

  lemma ShrinkExtends(t: Table)
    requires Shaped(t) && t.data != []
    ensures Extends(ShrinkTable(t), t) && |ShrinkTable(t).data| == |t.data| - 1
  {
    IndexCounts(|t.data| - 1);
  }

  /**
   A table of n blocks owns n data blocks and IndexCount(n) index blocks, no block is lost or made up, and the data
   and index blocks common to both sizes stay where they are.
   */
  lemma {:induction false} ResizeKeeps(t: Table, n: nat)
    requires Shaped(t) && Enough(t, n)
    ensures var r := Resized(t, n);
            && |r.data| == n && |r.index| == IndexCount(n)
            && AllBlocks(r) == AllBlocks(t)
            && (n <= |t.data| ==> Extends(r, t))
            && (|t.data| <= n ==> Extends(t, r))
    decreases if |t.data| <= n then n - |t.data| else |t.data| - n
  {
    if |t.data| < n {
      ResizeUp(t, n);
      GrowConserves(t);
      GrowExtends(t);
      hide Resized, Extends, GrowTable, Enough;
      ResizeKeeps(GrowTable(t), n);
      ExtendsTransitive(t, GrowTable(t), Resized(t, n));
    } else if n < |t.data| {
      ResizeDown(t, n);
      ShrinkConserves(t);
      ShrinkExtends(t);
      hide Resized, Extends, ShrinkTable, Enough;
      ResizeKeeps(ShrinkTable(t), n);
      ExtendsTransitive(Resized(t, n), ShrinkTable(t), t);
    }
  }

  // ---- which block goes where

  /** One step of growing pops one block, or two: first the index block, then the data block. */
  lemma GrowPops(t: Table)
    requires Shaped(t) && Need(|t.data|) <= |t.free|
    ensures var g, k := GrowTable(t), IndexCount(|t.data| + 1) - |t.index|;
            && 0 <= k <= 1 && k < |t.free| && Shaped(g) && |g.data| == |t.data| + 1 && |g.index| == |t.index| + k
            && g.free == t.free[..|t.free| - 1 - k] && g.data[|t.data|] == t.free[|t.free| - 1 - k]
            && (k == 1 ==> |t.data| == LEVEL_ONE + INDEX_SIZE * |t.index| && g.index[|t.index|] == t.free[|t.free| - 1])
  {
    IndexCounts(|t.data|);
  }

  /**
   Growing hands out the stack from its top: each new index block comes right before the data block that opens it, so
   that data block i is the i-th one, counting the index blocks up to its own.
   */
  lemma {:induction false} DataFromStack(t: Table, n: nat, i: nat)
    requires Shaped(t) && Enough(t, n) && |t.data| <= i < n
    ensures var k := i + IndexCount(i + 1) - (|t.data| + |t.index|);
            0 <= k < |t.free| && Resized(t, n).data[i] == t.free[|t.free| - 1 - k]
    decreases n - |t.data|
  {
    hide Resized, IndexCount, OpensIndex, GrowTable;
    ResizeUp(t, n);
    GrowPops(t);
    var g := GrowTable(t);
    if i == |t.data| {
      ResizeKeeps(g, n);
      assert Resized(g, n).data[i] == g.data[i];
    } else {
      DataFromStack(g, n, i);
    }
  }

  lemma {:induction false} IndexFromStack(t: Table, n: nat, j: nat)
    requires Shaped(t) && Enough(t, n) && |t.data| <= n && |t.index| <= j < IndexCount(n)
    ensures var k := LEVEL_ONE + INDEX_SIZE * j + j - (|t.data| + |t.index|);
            0 <= k < |t.free| && |Resized(t, n).index| == IndexCount(n)
            && Resized(t, n).index[j] == t.free[|t.free| - 1 - k]
    decreases n - |t.data|
  {
    hide Resized, IndexCount, OpensIndex, GrowTable;
    if |t.data| < n {
      ResizeUp(t, n);
      GrowPops(t);
      var g := GrowTable(t);
      if j < |g.index| {
        ResizeKeeps(g, n);
        assert Resized(g, n).index[j] == g.index[j];
      } else {
        IndexFromStack(g, n, j);
      }
    }
  }

  // ---- no block in two places

  /** The data blocks, the index blocks, the free blocks and the root are pairwise different. */
  ghost predicate Apart(t: Table, root: nat) {
    forall x :: (AllBlocks(t) + multiset{root})[x] <= 1
  }

  lemma ResizeApart(t: Table, root: nat, n: nat)
    requires Shaped(t) && Enough(t, n) && Apart(t, root)
    ensures Apart(Resized(t, n), root)
  {
    ResizeKeeps(t, n);
    hide Resized;
  }

  ghost predicate Distinct(s: seq<nat>) {
    forall i, j :: 0 <= i < j < |s| ==> s[i] != s[j]
  }

  lemma Counted(s: seq<nat>, i: nat)
    requires i < |s|
    ensures 1 <= multiset(s)[s[i]]
  {
    assert s[i] in multiset(s);
  }

  lemma OnceDistinct(s: seq<nat>)
    requires forall x :: multiset(s)[x] <= 1
    ensures Distinct(s)
  {
    forall i, j | 0 <= i < j < |s|
      ensures s[i] != s[j]
    {
      assert s == s[..j] + s[j..];
      Counted(s[..j], i);
      Counted(s[j..], 0);
      assert multiset(s)[s[i]] == multiset(s[..j])[s[i]] + multiset(s[j..])[s[i]];
    }
  }

  lemma ApartMeans(t: Table, root: nat)
    requires Apart(t, root)
    ensures Distinct(t.data) && Distinct(t.index) && Distinct(t.free)
    ensures forall x :: x in t.data ==> x !in t.index && x !in t.free && x != root
    ensures forall x :: x in t.index ==> x !in t.free && x != root
    ensures root !in t.free
  {
    forall x
      ensures multiset(t.data)[x] + multiset(t.index)[x] + multiset(t.free)[x] + (if x == root then 1 else 0) <= 1
    {
      assert (AllBlocks(t) + multiset{root})[x] <= 1;
    }
    OnceDistinct(t.data);
    OnceDistinct(t.index);
    OnceDistinct(t.free);
    assert forall x :: x in t.data ==> x in multiset(t.data);
    assert forall x :: x in t.index ==> x in multiset(t.index);
    assert forall x :: x in t.free ==> x in multiset(t.free);
  }
}
