/**
 Trees stored in blocks: which blocks hold a tree, why two subtrees never share one,
 and what a tree keeps when other blocks are written.
 */
module BTreeHeap {
  import opened Words
  import opened SortedSlots
  import opened BTreeModel

  /** The magic words of the two kinds of node. */
  const INNER_MAGIC: u32 := 3300
  const LEAF_MAGIC: u32 := 3301

  /** One block read as a node: its magic word and its first self_size entries. */
  datatype View = View(magic: u32, slots: seq<Slot>)

  type Mem = map<nat, View>

  function Magic(t: Tree): u32 {
    if t.Leaf? then LEAF_MAGIC else INNER_MAGIC
  }

  /** Block id holds tree t, and no block is used twice in it. */
  ghost predicate Owned(m: Mem, id: nat, t: Tree)
    decreases t, 3
  {
    && id in m
    && m[id].magic == Magic(t)
    && Body(m, m[id].slots, t)
    && id !in BodyFoot(m, m[id].slots, t)
  }

  /** The entries of one node stand for the root of t, and its children are stored apart from each other. */
  ghost predicate Body(m: Mem, slots: seq<Slot>, t: Tree)
    decreases t, 2
  {
    match t case Leaf(es) => slots == es case Inner(kids) => Forest(m, slots, kids)
  }

  ghost predicate Forest(m: Mem, slots: seq<Slot>, kids: seq<Kid>)
    decreases kids, 0
  {
    && |slots| == |kids|
    && (forall i :: 0 <= i < |kids| ==> Stem(m, slots[i], kids[i]))
    && (forall i, j :: 0 <= i < j < |kids| ==> StemFoot(m, slots[i], kids[i]) !! StemFoot(m, slots[j], kids[j]))
  }

  ghost predicate Stem(m: Mem, slot: Slot, kid: Kid)
    decreases kid, 4
  {
    slot.key == kid.sep && Owned(m, slot.data, kid.sub)
  }

  /** The blocks of the tree t stored at id. */
  ghost function Foot(m: Mem, id: nat, t: Tree): set<nat>
    decreases t, 3
  {
    {id} + if id in m then BodyFoot(m, m[id].slots, t) else {}
  }

  ghost function BodyFoot(m: Mem, slots: seq<Slot>, t: Tree): set<nat>
    decreases t, 2
  {
    match t case Leaf(_) => {} case Inner(kids) => ForestFoot(m, slots, kids)
  }

  ghost function ForestFoot(m: Mem, slots: seq<Slot>, kids: seq<Kid>): set<nat>
    decreases kids, 0
  {
    set i, x | 0 <= i < |kids| && i < |slots| && x in StemFoot(m, slots[i], kids[i]) :: x
  }

  ghost function StemFoot(m: Mem, slot: Slot, kid: Kid): set<nat>
    decreases kid, 4
  {
    Foot(m, slot.data, kid.sub)
  }

  // ---- writes elsewhere

  /** The blocks of f read the same in both memories. */
  ghost predicate Same(m: Mem, m': Mem, f: set<nat>) {
    forall x :: x in f && x in m ==> x in m' && m'[x] == m[x]
  }

  lemma {:induction false} OwnedFrame(m: Mem, m': Mem, id: nat, t: Tree)
    requires Owned(m, id, t) && Same(m, m', Foot(m, id, t))
    ensures Owned(m', id, t) && Foot(m', id, t) == Foot(m, id, t)
    decreases t, 3
  {
    BodyFrame(m, m', m[id].slots, t);
  }

  lemma {:induction false} BodyFrame(m: Mem, m': Mem, slots: seq<Slot>, t: Tree)
    requires Body(m, slots, t) && Same(m, m', BodyFoot(m, slots, t))
    ensures Body(m', slots, t) && BodyFoot(m', slots, t) == BodyFoot(m, slots, t)
    decreases t, 2
  {
    match t
    case Leaf(_) =>
    case Inner(kids) => ForestFrame(m, m', slots, kids);
  }

  lemma {:induction false} ForestFrame(m: Mem, m': Mem, slots: seq<Slot>, kids: seq<Kid>)
    requires Forest(m, slots, kids) && Same(m, m', ForestFoot(m, slots, kids))
    ensures Forest(m', slots, kids) && ForestFoot(m', slots, kids) == ForestFoot(m, slots, kids)
    decreases kids, 0
  {
    forall i | 0 <= i < |kids|
      ensures Stem(m', slots[i], kids[i]) && StemFoot(m', slots[i], kids[i]) == StemFoot(m, slots[i], kids[i])
    {
      StemInForest(m, slots, kids, i);
      StemFrame(m, m', slots[i], kids[i]);
    }
    FeetMatch(m, m', slots, kids);
  }

  lemma {:induction false} StemFrame(m: Mem, m': Mem, slot: Slot, kid: Kid)
    requires Stem(m, slot, kid) && Same(m, m', StemFoot(m, slot, kid))
    ensures Stem(m', slot, kid) && StemFoot(m', slot, kid) == StemFoot(m, slot, kid)
    decreases kid, 4
  {
    OwnedFrame(m, m', slot.data, kid.sub);
  }

  lemma StemInForest(m: Mem, slots: seq<Slot>, kids: seq<Kid>, i: nat)
    requires i < |kids| && i < |slots|
    ensures StemFoot(m, slots[i], kids[i]) <= ForestFoot(m, slots, kids)
  {
  }

  lemma FeetMatch(m: Mem, m': Mem, slots: seq<Slot>, kids: seq<Kid>)
    requires |slots| == |kids|
    requires forall i :: 0 <= i < |kids| ==> StemFoot(m', slots[i], kids[i]) == StemFoot(m, slots[i], kids[i])
    ensures ForestFoot(m', slots, kids) == ForestFoot(m, slots, kids)
  {
  }

  // ---- cutting and joining nodes

  lemma ForestFootConcat(m: Mem, a: seq<Slot>, ka: seq<Kid>, b: seq<Slot>, kb: seq<Kid>)
    requires |a| == |ka| && |b| == |kb|
    ensures ForestFoot(m, a + b, ka + kb) == ForestFoot(m, a, ka) + ForestFoot(m, b, kb)
  {
    var s, k := a + b, ka + kb;
    forall x | x in ForestFoot(m, b, kb)
      ensures x in ForestFoot(m, s, k)
    {
      var i :| 0 <= i < |kb| && x in StemFoot(m, b[i], kb[i]);
      assert s[|a| + i] == b[i] && k[|a| + i] == kb[i];
    }
    forall x | x in ForestFoot(m, a, ka)
      ensures x in ForestFoot(m, s, k)
    {
      var i :| 0 <= i < |ka| && x in StemFoot(m, a[i], ka[i]);
      assert s[i] == a[i] && k[i] == ka[i];
    }
  }

  /** Two forests with no common block are one forest, and only then. */
  lemma ForestConcat(m: Mem, a: seq<Slot>, ka: seq<Kid>, b: seq<Slot>, kb: seq<Kid>)
    requires Forest(m, a, ka) && Forest(m, b, kb) && ForestFoot(m, a, ka) !! ForestFoot(m, b, kb)
    ensures Forest(m, a + b, ka + kb)
  {
    var s, k := a + b, ka + kb;
    forall i, j | 0 <= i < j < |k|
      ensures StemFoot(m, s[i], k[i]) !! StemFoot(m, s[j], k[j])
    {
      if i < |a| <= j {
        StemInForest(m, a, ka, i);
        StemInForest(m, b, kb, j - |a|);
      }
    }
  }

  lemma ForestCut(m: Mem, a: seq<Slot>, ka: seq<Kid>, b: seq<Slot>, kb: seq<Kid>)
    requires |a| == |ka| && |b| == |kb| && Forest(m, a + b, ka + kb)
    ensures Forest(m, a, ka) && Forest(m, b, kb) && ForestFoot(m, a, ka) !! ForestFoot(m, b, kb)
  {
    var s, k := a + b, ka + kb;
    assert forall i :: 0 <= i < |a| ==> s[i] == a[i] && k[i] == ka[i];
    forall i | 0 <= i < |b|
      ensures Stem(m, b[i], kb[i])
      ensures forall j :: i < j < |b| ==> StemFoot(m, b[i], kb[i]) !! StemFoot(m, b[j], kb[j])
      ensures forall j :: 0 <= j < |a| ==> StemFoot(m, a[j], ka[j]) !! StemFoot(m, b[i], kb[i])
    {
      assert s[|a| + i] == b[i] && k[|a| + i] == kb[i];
      forall j | i < j < |b|
        ensures StemFoot(m, b[i], kb[i]) !! StemFoot(m, b[j], kb[j])
      {
        assert s[|a| + j] == b[j] && k[|a| + j] == kb[j];
      }
    }
  }

  lemma BodyConcat(m: Mem, a: seq<Slot>, t: Tree, b: seq<Slot>, u: Tree)
    requires Body(m, a, t) && Body(m, b, u) && (t.Leaf? <==> u.Leaf?)
    requires BodyFoot(m, a, t) !! BodyFoot(m, b, u)
    ensures Body(m, a + b, Join(t, u))
    ensures BodyFoot(m, a + b, Join(t, u)) == BodyFoot(m, a, t) + BodyFoot(m, b, u)
  {
    match t
    case Leaf(_) =>
    case Inner(kids) =>
      ForestConcat(m, a, kids, b, u.kids);
      ForestFootConcat(m, a, kids, b, u.kids);
  }

  lemma BodyCut(m: Mem, slots: seq<Slot>, t: Tree, n: nat)
    requires Body(m, slots, t) && n <= Size(t)
    ensures |slots| == Size(t)
    ensures Body(m, slots[..n], Take(t, n)) && Body(m, slots[n..], Drop(t, n))
    ensures BodyFoot(m, slots[..n], Take(t, n)) !! BodyFoot(m, slots[n..], Drop(t, n))
    ensures BodyFoot(m, slots, t) == BodyFoot(m, slots[..n], Take(t, n)) + BodyFoot(m, slots[n..], Drop(t, n))
  {
    match t
    case Leaf(_) =>
    case Inner(kids) =>
      assert slots == slots[..n] + slots[n..] && kids == kids[..n] + kids[n..];
      ForestCut(m, slots[..n], kids[..n], slots[n..], kids[n..]);
      ForestFootConcat(m, slots[..n], kids[..n], slots[n..], kids[n..]);
  }

  /** A node written into block id over an existing body that avoids id. */
  lemma OwnNode(m: Mem, id: nat, slots: seq<Slot>, t: Tree)
    requires id in m && m[id] == View(Magic(t), slots)
    requires Body(m, slots, t) && id !in BodyFoot(m, slots, t)
    ensures Owned(m, id, t) && Foot(m, id, t) == {id} + BodyFoot(m, slots, t)
  {
  }

  lemma BodyInner(m: Mem, slots: seq<Slot>, kids: seq<Kid>)
    ensures Body(m, slots, Inner(kids)) <==> Forest(m, slots, kids)
    ensures BodyFoot(m, slots, Inner(kids)) == ForestFoot(m, slots, kids)
  {
  }

  lemma OwnedInner(m: Mem, id: nat, kids: seq<Kid>)
    requires Owned(m, id, Inner(kids))
    ensures m[id].magic == INNER_MAGIC && |m[id].slots| == |kids|
    ensures Forest(m, m[id].slots, kids) && id !in ForestFoot(m, m[id].slots, kids)
    ensures Foot(m, id, Inner(kids)) == {id} + ForestFoot(m, m[id].slots, kids)
  {
    BodyInner(m, m[id].slots, kids);
  }

  // ---- operations as steps over memory, blocks in use and blocks this transaction may write

  datatype Heap = Heap(mem: Mem, used: set<nat>, writable: set<nat>)

  ghost predicate Sane(s: Heap) {
    s.writable <= s.used <= s.mem.Keys
  }

  /** The tree t is stored at id, in blocks that are in use. */
  ghost predicate Holds(s: Heap, id: nat, t: Tree) {
    Owned(s.mem, id, t) && Foot(s.mem, id, t) <= s.used
  }

  /**
   From s to s' only blocks of f were written or released, and of those only writable ones:
   every other block in use keeps its content, and no old block became writable.
   */
  ghost predicate Steps(s: Heap, s': Heap, f: set<nat>) {
    && Sane(s')
    && (forall x :: x in s.used && !(x in f && x in s.writable) ==> x in s'.used && Kept(s, s', x))
    && (forall x :: x in s'.writable && x in s.used ==> x in s.writable)
    && (forall x :: x in s.writable && x !in f ==> x in s'.writable)
  }

  ghost predicate Kept(s: Heap, s': Heap, x: nat) {
    x in s.mem && x in s'.mem && s'.mem[x] == s.mem[x]
  }

  /** Blocks of f, or blocks that were not in use before. */
  ghost predicate Grown(s: Heap, f: set<nat>, f': set<nat>) {
    forall x :: x in f' && x in s.used ==> x in f
  }

  /**
   From s to s' the blocks f became the blocks f', and every block is accounted for: what came into use is part of f'
   and writable, and a writable block of f that is not part of f' was released.
   */
  ghost predicate Tight(s: Heap, s': Heap, f: set<nat>, f': set<nat>) {
    && Grown(s, f, f')
    && (forall x :: x in s'.used && x !in s.used ==> x in f' && x in s'.writable)
    && (forall x :: x in f && x in s.writable && x in s'.used ==> x in f')
    && (forall x :: x in s.writable && x in s'.used ==> x in s'.writable)
  }

  lemma TightTransitive(s: Heap, s1: Heap, s2: Heap, f: set<nat>, f1: set<nat>, f2: set<nat>)
    requires Steps(s, s1, f) && Tight(s, s1, f, f1) && Tight(s1, s2, f1, f2) && Sane(s2)
    ensures Tight(s, s2, f, f2)
  {
  }

  /** The outcome of an operation on the tree at id: t became t', in its own blocks or new ones, with none left over. */
  ghost predicate Outcome(s: Heap, s': Heap, id: nat, t: Tree, t': Tree) {
    && Steps(s, s', Foot(s.mem, id, t))
    && Holds(s', id, t')
    && Tight(s, s', Foot(s.mem, id, t), Foot(s'.mem, id, t'))
    && id in s'.writable
  }

  lemma StepsTransitive(s: Heap, s1: Heap, s2: Heap, f: set<nat>, g: set<nat>)
    requires Sane(s) && Steps(s, s1, f) && Steps(s1, s2, g) && Grown(s, f, g)
    ensures Steps(s, s2, f)
  {
  }

  /** An outcome on t' after an outcome on t. */
  lemma OutcomeTransitive(s: Heap, s1: Heap, s2: Heap, id: nat, t: Tree, t1: Tree, t2: Tree)
    ensures Sane(s) && Outcome(s, s1, id, t, t1) && Outcome(s1, s2, id, t1, t2) ==> Outcome(s, s2, id, t, t2)
  {
    if Sane(s) && Outcome(s, s1, id, t, t1) && Outcome(s1, s2, id, t1, t2) {
      StepsTransitive(s, s1, s2, Foot(s.mem, id, t), Foot(s1.mem, id, t1));
    }
  }

  /** Children lo..hi of the node at id are replaced; all others are where they were. */
  lemma ReplaceRange(s: Heap, s': Heap, id: nat, kids: seq<Kid>, lo: nat, hi: nat, slots: seq<Slot>, news: seq<Kid>)
    requires Sane(s) && Holds(s, id, Inner(kids)) && lo <= hi <= |kids|
    requires Sane(s') && id in s'.used
    requires var was := s.mem[id].slots;
             && |was| == |kids|
             && s'.mem[id] == View(INNER_MAGIC, was[..lo] + slots + was[hi..])
             && Forest(s'.mem, slots, news) && ForestFoot(s'.mem, slots, news) <= s'.used
             && Tight(s, s', ForestFoot(s.mem, was[lo..hi], kids[lo..hi]), ForestFoot(s'.mem, slots, news))
             && (forall x :: x in ForestFoot(s.mem, was[..lo], kids[..lo]) ==> x in s'.used && Kept(s, s', x))
             && (forall x :: x in ForestFoot(s.mem, was[hi..], kids[hi..]) ==> x in s'.used && Kept(s, s', x))
    ensures Holds(s', id, Inner(kids[..lo] + news + kids[hi..]))
    ensures Tight(s, s', Foot(s.mem, id, Inner(kids)), Foot(s'.mem, id, Inner(kids[..lo] + news + kids[hi..])))
  {
    var was := s.mem[id].slots;
    OwnedInner(s.mem, id, kids);
    ThreeParts(s.mem, was, kids, lo, hi);
    ForestFrame(s.mem, s'.mem, was[..lo], kids[..lo]);
    ForestFrame(s.mem, s'.mem, was[hi..], kids[hi..]);
    ForestConcat(s'.mem, was[..lo], kids[..lo], slots, news);
    ForestFootConcat(s'.mem, was[..lo], kids[..lo], slots, news);
    ForestConcat(s'.mem, was[..lo] + slots, kids[..lo] + news, was[hi..], kids[hi..]);
    ForestFootConcat(s'.mem, was[..lo] + slots, kids[..lo] + news, was[hi..], kids[hi..]);
    OwnNode(s'.mem, id, was[..lo] + slots + was[hi..], Inner(kids[..lo] + news + kids[hi..]));
  }

  lemma ThreeParts(m: Mem, slots: seq<Slot>, kids: seq<Kid>, lo: nat, hi: nat)
    requires Forest(m, slots, kids) && lo <= hi <= |kids|
    ensures Forest(m, slots[..lo], kids[..lo]) && Forest(m, slots[lo..hi], kids[lo..hi])
    ensures Forest(m, slots[hi..], kids[hi..])
    ensures var a, b, c := ForestFoot(m, slots[..lo], kids[..lo]), ForestFoot(m, slots[lo..hi], kids[lo..hi]),
                           ForestFoot(m, slots[hi..], kids[hi..]);
            a !! b && a !! c && b !! c && ForestFoot(m, slots, kids) == a + b + c
  {
    assert slots == slots[..hi] + slots[hi..] && kids == kids[..hi] + kids[hi..];
    ForestCut(m, slots[..hi], kids[..hi], slots[hi..], kids[hi..]);
    ForestFootConcat(m, slots[..hi], kids[..hi], slots[hi..], kids[hi..]);
    assert slots[..hi] == slots[..lo] + slots[lo..hi] && kids[..hi] == kids[..lo] + kids[lo..hi];
    ForestCut(m, slots[..lo], kids[..lo], slots[lo..hi], kids[lo..hi]);
    ForestFootConcat(m, slots[..lo], kids[..lo], slots[lo..hi], kids[lo..hi]);
  }
}
