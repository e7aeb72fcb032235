/**
 The stages of set, pop and grow at an internal node, as steps over block memory:
 descending into a private copy of a child, putting the changed child back, and cutting nodes anew.
 */
module BTreeSteps {
  import opened Words
  import opened SortedSlots
  import opened BTreeModel
  import opened BTreeHeap

  /** What the block device does when asked for a writable version of block c0. */
  ghost predicate Modified(s: Heap, s': Heap, c0: nat, c: nat) {
    if c0 in s.writable then c == c0 && s' == s
    else Allocated(s, s', c) && c0 in s.mem && s'.mem[c] == s.mem[c0]
  }

  /** A block not in use is handed out; its content is whatever it is. */
  ghost predicate Allocated(s: Heap, s': Heap, c: nat) {
    && c !in s.used && s'.used == s.used + {c} && s'.writable == s.writable + {c}
    && c in s'.mem && forall x :: x in s.mem && x != c ==> Kept(s, s', x)
  }

  /** Only the node at id was rewritten. */
  ghost predicate Wrote(s: Heap, s': Heap, id: nat, view: View) {
    s' == Heap(s.mem[id := view], s.used, s.writable)
  }

  /** The same blocks, and perhaps one more that was not in memory. */
  ghost predicate Extended(s: Heap, s': Heap) {
    s'.used == s.used && s'.writable == s.writable && s.mem.Keys <= s'.mem.Keys && Same(s.mem, s'.mem, s.mem.Keys)
  }

  lemma ExtendedBy(s: Heap, id: nat, view: View)
    requires id !in s.mem
    ensures Extended(s, Heap(s.mem[id := view], s.used, s.writable))
    ensures Sane(s) ==> Sane(Heap(s.mem[id := view], s.used, s.writable))
  {
  }

  lemma AllocatedBy(s: Heap, s1: Heap, s2: Heap, c: nat)
    requires Extended(s, s1) && c !in s.used && c in s1.mem
    requires s2 == Heap(s1.mem, s1.used + {c}, s1.writable + {c})
    ensures Allocated(s, s2, c) && s.mem.Keys <= s2.mem.Keys
  {
  }

  lemma AllocatedThenWritten(s: Heap, s1: Heap, s2: Heap, c: nat)
    requires Allocated(s, s1, c) && s2.used == s1.used && s2.writable == s1.writable && c in s2.mem
    requires s2.mem == s1.mem[c := s2.mem[c]]
    ensures Allocated(s, s2, c)
  {
    forall x | x in s.mem && x != c
      ensures Kept(s, s2, x)
    {
      assert Kept(s, s1, x);
    }
  }

  lemma ModifiedBy(s: Heap, s1: Heap, s2: Heap, c0: nat, c: nat)
    requires Sane(s) && c0 in s.used && c0 !in s.writable && Allocated(s, s1, c)
    requires s2 == Heap(s1.mem[c := s1.mem[c0]], s1.used, s1.writable)
    ensures Modified(s, s2, c0, c)
  {
    assert Kept(s, s1, c0);
    forall x | x in s.mem && x != c
      ensures Kept(s, s2, x)
    {
      assert Kept(s, s1, x);
    }
  }

  lemma StepsWiden(s: Heap, s': Heap, f: set<nat>, g: set<nat>)
    requires Steps(s, s', f) && f <= g
    ensures Steps(s, s', g)
  {
  }

  lemma StepsWrote(s: Heap, s': Heap, id: nat, view: View)
    requires Sane(s) && id in s.writable && Wrote(s, s', id, view)
    ensures Steps(s, s', {id})
  {
  }

  lemma StepsAllocated(s: Heap, s': Heap, c: nat)
    requires Sane(s) && Allocated(s, s', c) && Sane(s')
    ensures Steps(s, s', {})
  {
  }

  lemma StepsModified(s: Heap, s': Heap, c0: nat, c: nat)
    requires Sane(s) && Modified(s, s', c0, c) && Sane(s')
    ensures Steps(s, s', {}) && c in s'.writable
  {
  }

  /** A tree in blocks that a step did not touch is still there. */
  lemma HoldsFrame(s: Heap, s': Heap, id: nat, t: Tree, f: set<nat>)
    requires Sane(s) && Holds(s, id, t) && Steps(s, s', f) && Foot(s.mem, id, t) !! f
    ensures Holds(s', id, t) && Foot(s'.mem, id, t) == Foot(s.mem, id, t)
  {
    OwnedFrame(s.mem, s'.mem, id, t);
  }

  /** The tree at the writable version of a block is the tree at the block. */
  lemma ModifiedHolds(s: Heap, s': Heap, c0: nat, c: nat, t: Tree)
    requires Sane(s) && Sane(s') && Modified(s, s', c0, c) && Holds(s, c0, t)
    ensures Holds(s', c, t) && Tight(s, s', Foot(s.mem, c0, t), Foot(s'.mem, c, t))
  {
    if c0 !in s.writable {
      var slots := s.mem[c0].slots;
      BodyFrame(s.mem, s'.mem, slots, t);
      OwnNode(s'.mem, c, slots, t);
    }
  }

  /** Child b of an internal node, its blocks, and that the node itself is not among them. */
  lemma ChildHeld(s: Heap, id: nat, kids: seq<Kid>, b: nat)
    requires Holds(s, id, Inner(kids)) && b < |kids|
    ensures id in s.mem && s.mem[id].magic == INNER_MAGIC && |s.mem[id].slots| == |kids|
    ensures s.mem[id].slots[b].key == kids[b].sep
    ensures var c := s.mem[id].slots[b].data;
            && Holds(s, c, kids[b].sub)
            && id !in Foot(s.mem, c, kids[b].sub)
            && Foot(s.mem, c, kids[b].sub) <= Foot(s.mem, id, Inner(kids))
  {
    OwnedInner(s.mem, id, kids);
    assert Stem(s.mem, s.mem[id].slots[b], kids[b]);
    StemInForest(s.mem, s.mem[id].slots, kids, b);
  }

  lemma OneStem(m: Mem, slot: Slot, kid: Kid)
    requires Stem(m, slot, kid)
    ensures Forest(m, [slot], [kid]) && ForestFoot(m, [slot], [kid]) == StemFoot(m, slot, kid)
  {
    StemInForest(m, [slot], [kid], 0);
  }

  lemma TwoStems(m: Mem, a: Slot, x: Kid, b: Slot, y: Kid)
    requires Stem(m, a, x) && Stem(m, b, y) && StemFoot(m, a, x) !! StemFoot(m, b, y)
    ensures Forest(m, [a, b], [x, y]) && ForestFoot(m, [a, b], [x, y]) == StemFoot(m, a, x) + StemFoot(m, b, y)
  {
    OneStem(m, a, x);
    OneStem(m, b, y);
    ForestConcat(m, [a], [x], [b], [y]);
    ForestFootConcat(m, [a], [x], [b], [y]);
    assert [a] + [b] == [a, b] && [x] + [y] == [x, y];
  }

  /** The other children of a node are outside the blocks of the children in lo..hi. */
  lemma Bystanders(s: Heap, s': Heap, id: nat, kids: seq<Kid>, lo: nat, hi: nat, f: set<nat>)
    requires Sane(s) && Holds(s, id, Inner(kids)) && lo <= hi <= |kids|
    requires Steps(s, s', f) && id in s.mem && |s.mem[id].slots| == |kids|
    requires Grown(s, {id} + ForestFoot(s.mem, s.mem[id].slots[lo..hi], kids[lo..hi]), f)
    ensures var was := s.mem[id].slots;
            && (forall x :: x in ForestFoot(s.mem, was[..lo], kids[..lo]) ==> x in s'.used && Kept(s, s', x))
            && (forall x :: x in ForestFoot(s.mem, was[hi..], kids[hi..]) ==> x in s'.used && Kept(s, s', x))
  {
    OwnedInner(s.mem, id, kids);
    ThreeParts(s.mem, s.mem[id].slots, kids, lo, hi);
  }

  lemma StepsInto(s: Heap, s': Heap, f: set<nat>, g: set<nat>)
    requires Sane(s) && Steps(s, s', f) && Grown(s, g, f)
    ensures Steps(s, s', g)
  {
  }

  /** The node at id was rewritten with new children in place of lo..hi: the outcome for the whole node. */
  lemma PutChildren(s: Heap, s': Heap, id: nat, kids: seq<Kid>, lo: nat, hi: nat,
                    slots: seq<Slot>, news: seq<Kid>, f: set<nat>)
    requires Sane(s) && Holds(s, id, Inner(kids)) && lo <= hi <= |kids|
    requires Steps(s, s', f) && id in s'.writable
    requires var was := s.mem[id].slots;
             && |was| == |kids|
             && Grown(s, {id} + ForestFoot(s.mem, was[lo..hi], kids[lo..hi]), f)
             && s'.mem[id] == View(INNER_MAGIC, was[..lo] + slots + was[hi..])
             && Forest(s'.mem, slots, news) && ForestFoot(s'.mem, slots, news) <= s'.used
             && Tight(s, s', ForestFoot(s.mem, was[lo..hi], kids[lo..hi]), ForestFoot(s'.mem, slots, news))
    ensures Outcome(s, s', id, Inner(kids), Inner(kids[..lo] + news + kids[hi..]))
  {
    Bystanders(s, s', id, kids, lo, hi, f);
    ReplaceRange(s, s', id, kids, lo, hi, slots, news);
    OwnedInner(s.mem, id, kids);
    ThreeParts(s.mem, s.mem[id].slots, kids, lo, hi);
    StepsInto(s, s', f, Foot(s.mem, id, Inner(kids)));
  }

  lemma RangeOfOne(m: Mem, slots: seq<Slot>, kids: seq<Kid>, b: nat)
    requires Forest(m, slots, kids) && b < |kids|
    ensures ForestFoot(m, slots[b..b + 1], kids[b..b + 1]) == StemFoot(m, slots[b], kids[b])
  {
    assert slots[b..b + 1] == [slots[b]] && kids[b..b + 1] == [kids[b]];
    OneStem(m, slots[b], kids[b]);
  }

  /** One child was replaced. */
  lemma PutChild(s: Heap, s': Heap, id: nat, kids: seq<Kid>, b: nat, sep: u32, c: nat, u: Tree, f: set<nat>)
    requires Sane(s) && Holds(s, id, Inner(kids)) && b < |kids|
    requires Steps(s, s', f) && id in s'.writable && Holds(s', c, u)
    requires var was := s.mem[id].slots;
             && |was| == |kids|
             && s'.mem[id] == View(INNER_MAGIC, was[b := Slot(sep, c)])
             && Grown(s, {id} + Foot(s.mem, was[b].data, kids[b].sub), f)
             && Tight(s, s', Foot(s.mem, was[b].data, kids[b].sub), Foot(s'.mem, c, u))
    ensures Outcome(s, s', id, Inner(kids), Inner(kids[b := Kid(sep, u)]))
  {
    var was := s.mem[id].slots;
    OwnedInner(s.mem, id, kids);
    RangeOfOne(s.mem, was, kids, b);
    OneStem(s'.mem, Slot(sep, c), Kid(sep, u));
    CutAt(was, b, Slot(sep, c));
    CutAt(kids, b, Kid(sep, u));
    PutChildren(s, s', id, kids, b, b + 1, [Slot(sep, c)], [Kid(sep, u)], f);
  }

  /** One child was replaced by two. */
  lemma PutTwo(s: Heap, s': Heap, id: nat, kids: seq<Kid>, b: nat, c: nat, u: Tree, d: nat, w: Tree, f: set<nat>)
    requires Sane(s) && Holds(s, id, Inner(kids)) && b < |kids|
    requires Steps(s, s', f) && id in s'.writable && Holds(s', c, u) && Holds(s', d, w)
    requires Foot(s'.mem, c, u) !! Foot(s'.mem, d, w)
    requires var was := s.mem[id].slots;
             && |was| == |kids|
             && s'.mem[id] == View(INNER_MAGIC, was[..b] + [Slot(LastKey(u), c), Slot(LastKey(w), d)] + was[b + 1..])
             && Grown(s, {id} + Foot(s.mem, was[b].data, kids[b].sub), f)
             && Tight(s, s', Foot(s.mem, was[b].data, kids[b].sub), Foot(s'.mem, c, u) + Foot(s'.mem, d, w))
    ensures Outcome(s, s', id, Inner(kids), SplitKid(kids, b, u, w))
  {
    var was := s.mem[id].slots;
    OwnedInner(s.mem, id, kids);
    RangeOfOne(s.mem, was, kids, b);
    var x, y := Slot(LastKey(u), c), Slot(LastKey(w), d);
    TwoStems(s'.mem, x, MakeKid(u), y, MakeKid(w));
    PutChildren(s, s', id, kids, b, b + 1, [x, y], [MakeKid(u), MakeKid(w)], f);
  }

  /** Two neighbours i and i + 1. */
  lemma RangeOfTwo(m: Mem, slots: seq<Slot>, kids: seq<Kid>, i: nat)
    requires Forest(m, slots, kids) && i + 1 < |kids|
    ensures ForestFoot(m, slots[i..i + 2], kids[i..i + 2])
         == StemFoot(m, slots[i], kids[i]) + StemFoot(m, slots[i + 1], kids[i + 1])
  {
    assert slots[i..i + 2] == [slots[i], slots[i + 1]] && kids[i..i + 2] == [kids[i], kids[i + 1]];
    TwoStems(m, slots[i], kids[i], slots[i + 1], kids[i + 1]);
  }

  // ---- cutting two nodes of one kind at a new place

  /** The entries of two stored nodes, dealt out again: the first n to block c, the rest to block d. */
  lemma Recut(m: Mem, m': Mem, c: nat, t: Tree, d: nat, u: Tree, n: nat)
    requires Owned(m, c, t) && Owned(m, d, u) && Foot(m, c, t) !! Foot(m, d, u)
    requires (t.Leaf? <==> u.Leaf?) && n <= Size(t) + Size(u)
    requires var all := m[c].slots + m[d].slots;
             && |all| == Size(t) + Size(u)
             && c in m' && m'[c] == View(Magic(t), all[..n])
             && d in m' && m'[d] == View(Magic(t), all[n..])
    requires Same(m, m', BodyFoot(m, m[c].slots, t) + BodyFoot(m, m[d].slots, u))
    ensures Owned(m', c, Take(Join(t, u), n)) && Owned(m', d, Drop(Join(t, u), n))
    ensures Foot(m', c, Take(Join(t, u), n)) !! Foot(m', d, Drop(Join(t, u), n))
    ensures Foot(m', c, Take(Join(t, u), n)) + Foot(m', d, Drop(Join(t, u), n)) == Foot(m, c, t) + Foot(m, d, u)
  {
    var all := m[c].slots + m[d].slots;
    BodyConcat(m, m[c].slots, t, m[d].slots, u);
    BodyFrame(m, m', all, Join(t, u));
    JoinSize(t, u);
    BodyCut(m', all, Join(t, u), n);
    OwnNode(m', c, all[..n], Take(Join(t, u), n));
    OwnNode(m', d, all[n..], Drop(Join(t, u), n));
  }

  lemma JoinSize(t: Tree, u: Tree)
    requires t.Leaf? <==> u.Leaf?
    ensures Size(Join(t, u)) == Size(t) + Size(u)
    ensures Join(t, u).Leaf? <==> t.Leaf?
  {
  }

  // ---- set

  /** The child was made writable and its block id stored back in its parent. */
  lemma Descend(s: Heap, s1: Heap, s2: Heap, id: nat, kids: seq<Kid>, b: nat, c: nat)
    requires Sane(s) && Holds(s, id, Inner(kids)) && id in s.writable && b < |kids|
    requires |s.mem[id].slots| == |kids|
    requires Sane(s1) && Modified(s, s1, s.mem[id].slots[b].data, c) && id in s1.mem && id != c
    requires Wrote(s1, s2, id, View(INNER_MAGIC, s.mem[id].slots[b := Slot(kids[b].sep, c)]))
    ensures Outcome(s, s2, id, Inner(kids), Inner(kids))
    ensures Holds(s2, c, kids[b].sub) && c in s2.writable
  {
    var c0 := s.mem[id].slots[b].data;
    ChildHeld(s, id, kids, b);
    StepsModified(s, s1, c0, c);
    ModifiedHolds(s, s1, c0, c, kids[b].sub);
    StepsWrote(s1, s2, id, s2.mem[id]);
    StepsTransitive(s, s1, s2, {id}, {id});
    HoldsFrame(s1, s2, c, kids[b].sub, {id});
    PutChild(s, s2, id, kids, b, kids[b].sep, c, kids[b].sub, {id});
    assert Kid(kids[b].sep, kids[b].sub) == kids[b];
    assert kids[b := kids[b]] == kids;
  }

  lemma OpenedParent(s: Heap, s1: Heap, id: nat, kids: seq<Kid>, b: nat, c: nat)
    requires Sane(s) && Holds(s, id, Inner(kids)) && b < |kids|
    requires |s.mem[id].slots| == |kids| && Modified(s, s1, s.mem[id].slots[b].data, c)
    ensures Kept(s, s1, id) && id != c
  {
    ChildHeld(s, id, kids, b);
  }

  /** Work below child b leaves the parent's own block alone. */
  lemma ParentKept(s: Heap, s': Heap, id: nat, kids: seq<Kid>, b: nat, u: Tree)
    requires Sane(s) && Holds(s, id, Inner(kids)) && id in s.writable && b < |kids|
    requires |s.mem[id].slots| == |kids|
    requires Outcome(s, s', s.mem[id].slots[b].data, kids[b].sub, u)
    ensures id in s'.writable && Kept(s, s', id)
    ensures id !in Foot(s'.mem, s.mem[id].slots[b].data, u)
  {
    ChildHeld(s, id, kids, b);
  }

  /** The changed child is put back with its new separator. */
  lemma PutBack(s: Heap, s1: Heap, s2: Heap, id: nat, kids: seq<Kid>, b: nat, u: Tree)
    requires Sane(s) && Holds(s, id, Inner(kids)) && id in s.writable && b < |kids|
    requires |s.mem[id].slots| == |kids|
    requires var c := s.mem[id].slots[b].data;
             && Outcome(s, s1, c, kids[b].sub, u)
             && Wrote(s1, s2, id, View(INNER_MAGIC, s.mem[id].slots[b := Slot(LastKey(u), c)]))
    ensures Outcome(s, s2, id, Inner(kids), Inner(kids[b := MakeKid(u)]))
  {
    var c := s.mem[id].slots[b].data;
    var f := {id} + Foot(s.mem, c, kids[b].sub);
    ParentKept(s, s1, id, kids, b, u);
    StepsWrote(s1, s2, id, s2.mem[id]);
    StepsWiden(s, s1, Foot(s.mem, c, kids[b].sub), f);
    StepsTransitive(s, s1, s2, f, {id});
    HoldsFrame(s1, s2, c, u, {id});
    PutChild(s, s2, id, kids, b, LastKey(u), c, u, f);
  }

  /** The key array of a stored node is the key array of its tree. */
  lemma OwnedKeys(m: Mem, id: nat, t: Tree)
    requires Owned(m, id, t)
    ensures |m[id].slots| == Size(t) && Keys(m[id].slots) == NodeKeys(t)
  {
    match t
    case Leaf(_) =>
    case Inner(kids) =>
      OwnedInner(m, id, kids);
      assert forall i :: 0 <= i < |kids| ==> Stem(m, m[id].slots[i], kids[i]);
  }

  lemma OwnedLeaf(m: Mem, id: nat, t: Tree)
    requires Owned(m, id, t) && t.Leaf?
    ensures m[id] == View(LEAF_MAGIC, t.es) && Foot(m, id, t) == {id}
  {
    assert Body(m, m[id].slots, t);
  }

  lemma LeafOwned(m: Mem, id: nat, es: seq<Slot>)
    requires id in m && m[id] == View(LEAF_MAGIC, es)
    ensures Owned(m, id, Leaf(es)) && Foot(m, id, Leaf(es)) == {id}
  {
  }

  /** A leaf was rewritten in place. */
  lemma LeafWritten(s: Heap, s': Heap, id: nat, t: Tree, es: seq<Slot>)
    requires Sane(s) && Holds(s, id, t) && t.Leaf? && id in s.writable
    requires Wrote(s, s', id, View(LEAF_MAGIC, es))
    ensures Outcome(s, s', id, t, Leaf(es))
  {
    OwnedLeaf(s.mem, id, t);
    LeafOwned(s'.mem, id, es);
    StepsWrote(s, s', id, s'.mem[id]);
  }

  lemma Unchanged(s: Heap, id: nat, t: Tree)
    requires Sane(s) && Holds(s, id, t) && id in s.writable
    ensures Outcome(s, s, id, t, t)
  {
  }

  // ---- splitting a full child

  /** The child at c gave its entries from SPLIT on to the new block d, which got a place in the parent. */
  ghost predicate SplitWrote(s: Heap, s': Heap, id: nat, b: nat, c: nat, d: nat, t: Tree) {
    && c in s.mem && id in s.mem && |s.mem[c].slots| == Size(t) >= SPLIT && b < |s.mem[id].slots|
    && d !in s.used && s'.used == s.used + {d} && s'.writable == s.writable + {d}
    && id in s'.mem && c in s'.mem && d in s'.mem
    && s'.mem[id] == View(INNER_MAGIC, InsertAt(s.mem[id].slots, b + 1, Slot(0, d)))
    && s'.mem[c] == View(Magic(t), s.mem[c].slots[..SPLIT])
    && s'.mem[d] == View(Magic(t), s.mem[c].slots[SPLIT..])
    && forall x :: x in s.mem && x !in {id, c, d} ==> Kept(s, s', x)
  }

  /** Two trees stored side by side in separate blocks. */
  ghost predicate TwoHeld(s: Heap, c: nat, u: Tree, d: nat, w: Tree) {
    Holds(s, c, u) && Holds(s, d, w) && Foot(s.mem, c, u) !! Foot(s.mem, d, w)
  }

  ghost function TwoFeet(s: Heap, c: nat, u: Tree, d: nat, w: Tree): set<nat> {
    Foot(s.mem, c, u) + Foot(s.mem, d, w)
  }

  /** After the split both halves are stored, apart from each other, in the old blocks of the child and d. */
  lemma SplitHolds(s: Heap, s': Heap, id: nat, b: nat, c: nat, d: nat, t: Tree)
    requires Sane(s) && Sane(s') && id in s.writable && c in s.writable && id != c
    requires Holds(s, c, t) && id !in Foot(s.mem, c, t) && SplitWrote(s, s', id, b, c, d, t)
    ensures TwoHeld(s', c, Take(t, SPLIT), d, Drop(t, SPLIT))
    ensures TwoFeet(s', c, Take(t, SPLIT), d, Drop(t, SPLIT)) == Foot(s.mem, c, t) + {d}
    ensures Steps(s, s', {id, c}) && Tight(s, s', Foot(s.mem, c, t), TwoFeet(s', c, Take(t, SPLIT), d, Drop(t, SPLIT)))
  {
    var slots := s.mem[c].slots;
    BodyCut(s.mem, slots, t, SPLIT);
    BodyFrame(s.mem, s'.mem, slots[..SPLIT], Take(t, SPLIT));
    BodyFrame(s.mem, s'.mem, slots[SPLIT..], Drop(t, SPLIT));
    OwnNode(s'.mem, c, slots[..SPLIT], Take(t, SPLIT));
    OwnNode(s'.mem, d, slots[SPLIT..], Drop(t, SPLIT));
  }

  /** An operation on one of two separate trees leaves the other where it is. */
  lemma OneOfTwo(s: Heap, s': Heap, c: nat, u: Tree, u': Tree, d: nat, w: Tree)
    requires Sane(s) && TwoHeld(s, c, u, d, w) && Outcome(s, s', c, u, u')
    ensures TwoHeld(s', c, u', d, w)
    ensures Tight(s, s', TwoFeet(s, c, u, d, w), TwoFeet(s', c, u', d, w))
    ensures Steps(s, s', TwoFeet(s, c, u, d, w))
  {
    HoldsFrame(s, s', d, w, Foot(s.mem, c, u));
    StepsWiden(s, s', Foot(s.mem, c, u), TwoFeet(s, c, u, d, w));
  }

  lemma SplitTight(s: Heap, s1: Heap, s2: Heap, s3: Heap, f: set<nat>, f1: set<nat>, f2: set<nat>, f3: set<nat>)
    requires Steps(s, s1, f) && Tight(s, s1, f, f1) && Tight(s1, s2, f1, f2) && Sane(s2)
    requires Steps(s2, s3, f2) && Tight(s2, s3, f2, f3)
    requires forall x :: x in s1.used ==> x in s2.used
    ensures Tight(s, s3, f, f3)
  {
    TightTransitive(s, s1, s2, f, f1, f2);
  }

  /** The split child's halves, one of them after the retry, are entered in the parent. */
  lemma SplitDone(s: Heap, s1: Heap, s2: Heap, s3: Heap, s4: Heap, id: nat, kids: seq<Kid>, b: nat, c: nat, d: nat,
                  l: Tree, r: Tree, u: Tree, w: Tree)
    requires Sane(s) && Holds(s, id, Inner(kids)) && id in s.writable && b < |kids|
    requires |s.mem[id].slots| == |kids| && s.mem[id].slots[b].data == c
    requires Outcome(s, s1, c, kids[b].sub, kids[b].sub)
    requires Steps(s1, s2, {id, c}) && TwoHeld(s2, c, l, d, r) && id in s2.writable && d !in s1.used
    requires Tight(s1, s2, Foot(s1.mem, c, kids[b].sub), TwoFeet(s2, c, l, d, r))
    requires TwoFeet(s2, c, l, d, r) == Foot(s1.mem, c, kids[b].sub) + {d}
    requires Steps(s2, s3, TwoFeet(s2, c, l, d, r)) && TwoHeld(s3, c, u, d, w)
    requires Tight(s2, s3, TwoFeet(s2, c, l, d, r), TwoFeet(s3, c, u, d, w))
    requires Wrote(s3, s4, id, View(INNER_MAGIC,
               s.mem[id].slots[..b] + [Slot(LastKey(u), c), Slot(LastKey(w), d)] + s.mem[id].slots[b + 1..]))
    ensures Outcome(s, s4, id, Inner(kids), SplitKid(kids, b, u, w))
  {
    var f := {id} + Foot(s.mem, c, kids[b].sub);
    ParentKept(s, s1, id, kids, b, kids[b].sub);
    StepsWiden(s, s1, Foot(s.mem, c, kids[b].sub), f);
    StepsTransitive(s, s1, s2, f, {id, c});
    StepsTransitive(s, s2, s3, f, TwoFeet(s2, c, l, d, r));
    SplitTight(s, s1, s2, s3, Foot(s.mem, c, kids[b].sub), Foot(s1.mem, c, kids[b].sub),
               TwoFeet(s2, c, l, d, r), TwoFeet(s3, c, u, d, w));
    StepsWrote(s3, s4, id, s4.mem[id]);
    StepsTransitive(s, s3, s4, f, {id});
    HoldsFrame(s3, s4, c, u, {id});
    HoldsFrame(s3, s4, d, w, {id});
    PutTwo(s, s4, id, kids, b, c, u, d, w, f);
  }

  /** Work below child b that changed nothing leaves the whole node as it was. */
  lemma NothingBack(s: Heap, s1: Heap, id: nat, kids: seq<Kid>, b: nat)
    requires Sane(s) && Holds(s, id, Inner(kids)) && id in s.writable && b < |kids|
    requires |s.mem[id].slots| == |kids| && kids[b].sep == LastKey(kids[b].sub)
    requires Outcome(s, s1, s.mem[id].slots[b].data, kids[b].sub, kids[b].sub)
    ensures Outcome(s, s1, id, Inner(kids), Inner(kids))
  {
    ChildHeld(s, id, kids, b);
    ParentKept(s, s1, id, kids, b, kids[b].sub);
    var slots := s.mem[id].slots;
    assert slots[b := Slot(kids[b].sep, slots[b].data)] == slots;
    assert s1.mem[id := s.mem[id]] == s1.mem;
    PutBack(s, s1, s1, id, kids, b, kids[b].sub);
    assert kids[b := MakeKid(kids[b].sub)] == kids;
  }

  lemma OutcomeSane(s: Heap, s': Heap, id: nat, t: Tree, t': Tree)
    ensures Outcome(s, s', id, t, t') ==> Sane(s') && Holds(s', id, t') && id in s'.writable
  {
  }

  lemma LastKeyIs(m: Mem, id: nat, t: Tree)
    requires Owned(m, id, t) && 0 < Size(t) == |m[id].slots|
    ensures m[id].slots[Size(t) - 1].key == LastKey(t)
  {
    OwnedKeys(m, id, t);
    assert NodeKeys(t)[Size(t) - 1] == LastKey(t);
    assert Keys(m[id].slots)[Size(t) - 1] == m[id].slots[Size(t) - 1].key;
  }

  /** A new block d, entered in the node at id after entry b. */
  ghost predicate SlotOpened(s: Heap, s': Heap, id: nat, b: nat, d: nat) {
    && d !in s.used && s'.used == s.used + {d} && s'.writable == s.writable + {d}
    && id in s.mem && b < |s.mem[id].slots|
    && id in s'.mem && s'.mem[id] == View(s.mem[id].magic, InsertAt(s.mem[id].slots, b + 1, Slot(0, d)))
    && d in s'.mem && forall x :: x in s.mem && x !in {id, d} ==> Kept(s, s', x)
  }

  lemma OpensSlot(s: Heap, s1: Heap, s2: Heap, s3: Heap, id: nat, b: nat, d: nat)
    requires Sane(s) && id in s.used && b < |s.mem[id].slots|
    requires Wrote(s, s1, id, View(s.mem[id].magic, InsertAt(s.mem[id].slots, b + 1, Slot(0, 0))))
    requires Allocated(s1, s2, d)
    requires s3 == Heap(s2.mem[id := View(s.mem[id].magic, s1.mem[id].slots[b + 1 := Slot(0, d)])],
                        s2.used, s2.writable)
    ensures SlotOpened(s, s3, id, b, d)
  {
    assert InsertAt(s.mem[id].slots, b + 1, Slot(0, 0))[b + 1 := Slot(0, d)]
        == InsertAt(s.mem[id].slots, b + 1, Slot(0, d));
    forall x | x in s.mem && x !in {id, d}
      ensures Kept(s, s3, x)
    {
      assert Kept(s, s1, x) && Kept(s1, s2, x);
    }
  }

  lemma SlotOpenedKeeps(s: Heap, s1: Heap, id: nat, b: nat, c: nat, d: nat)
    requires Sane(s) && c in s.used && id != c
    ensures SlotOpened(s, s1, id, b, d) ==> c in s1.mem && d in s1.mem && c != d && s1.mem[c] == s.mem[c]
  {
    if SlotOpened(s, s1, id, b, d) {
      assert Kept(s, s1, c);
    }
  }

  lemma SplitWrites(s: Heap, s1: Heap, s2: Heap, id: nat, b: nat, c: nat, d: nat, t: Tree)
    requires Sane(s) && id in s.used && c in s.used && id != c
    requires s.mem[id].magic == INNER_MAGIC && s.mem[c].magic == Magic(t) && |s.mem[c].slots| == Size(t) >= SPLIT
    requires c in s1.mem && s1.mem[c] == s.mem[c] && s2 == Heap(CutMem(s1.mem, c, d, SPLIT), s1.used, s1.writable)
    ensures SlotOpened(s, s1, id, b, d) ==> SplitWrote(s, s2, id, b, c, d, t)
  {
    if SlotOpened(s, s1, id, b, d) {
      forall x | x in s.mem && x !in {id, c, d}
        ensures Kept(s, s2, x)
      {
        assert Kept(s, s1, x);
      }
    }
  }

  // ---- what a split and its retry do, put together

  /** A failed set below child b of the node at id, then the split of that child. */
  ghost predicate SplitState(s: Heap, s1: Heap, s2: Heap, id: nat, kids: seq<Kid>, b: nat, c: nat, d: nat) {
    && Sane(s) && Holds(s, id, Inner(kids)) && id in s.writable && b < |kids|
    && id in s.mem && |s.mem[id].slots| == |kids| && s.mem[id].slots[b].data == c && c in s.writable
    && Outcome(s, s1, c, kids[b].sub, kids[b].sub) && Sane(s2)
    && SplitWrote(s1, s2, id, b, c, d, kids[b].sub)
  }

  /** The retry on one of the halves. */
  ghost predicate Retried(s2: Heap, s3: Heap, c: nat, d: nat, sub: Tree, left: bool, u: Tree) {
    if left then Outcome(s2, s3, c, Take(sub, SPLIT), u) else Outcome(s2, s3, d, Drop(sub, SPLIT), u)
  }

  /** The parent's node after both entries of the split were written. */
  ghost predicate SplitClosed(s: Heap, s3: Heap, s4: Heap, id: nat, b: nat, c: nat, d: nat, l: Tree, r: Tree) {
    && id in s.mem && b < |s.mem[id].slots|
    && Wrote(s3, s4, id, View(INNER_MAGIC,
         s.mem[id].slots[..b] + [Slot(LastKey(l), c), Slot(LastKey(r), d)] + s.mem[id].slots[b + 1..]))
  }

  /** Both ways the retry can go. */
  lemma RetryDone(s: Heap, s1: Heap, s2: Heap, s3: Heap, s4: Heap, id: nat, kids: seq<Kid>, b: nat, c: nat, d: nat,
                  left: bool, u: Tree)
    requires b < |kids|
    ensures var l, r := if left then u else Take(kids[b].sub, SPLIT), if left then Drop(kids[b].sub, SPLIT) else u;
            (SplitState(s, s1, s2, id, kids, b, c, d) && Retried(s2, s3, c, d, kids[b].sub, left, u) &&
              SplitClosed(s, s3, s4, id, b, c, d, l, r)) ==> Outcome(s, s4, id, Inner(kids), SplitKid(kids, b, l, r))
  {
    var sub := kids[b].sub;
    var l, r := Take(sub, SPLIT), Drop(sub, SPLIT);
    if SplitState(s, s1, s2, id, kids, b, c, d) && Retried(s2, s3, c, d, sub, left, u) &&
       SplitClosed(s, s3, s4, id, b, c, d, if left then u else l, if left then r else u) {
      ParentKept(s, s1, id, kids, b, sub);
      OutcomeSane(s, s1, c, sub, sub);
      SplitHolds(s1, s2, id, b, c, d, sub);
      if left {
        OneOfTwo(s2, s3, c, l, u, d, r);
        SplitDone(s, s1, s2, s3, s4, id, kids, b, c, d, l, r, u, r);
      } else {
        OneOfTwo(s2, s3, d, r, u, c, l);
        SplitDone(s, s1, s2, s3, s4, id, kids, b, c, d, l, r, l, u);
      }
    }
  }

  /** The retry works below one half: the parent's block and the other half's are left alone. */
  lemma RetryKeeps(s: Heap, s1: Heap, s2: Heap, s3: Heap, id: nat, kids: seq<Kid>, b: nat, c: nat, d: nat,
                   left: bool, u: Tree)
    requires b < |kids|
    ensures SplitState(s, s1, s2, id, kids, b, c, d) && Retried(s2, s3, c, d, kids[b].sub, left, u) ==>
              && id in s.mem && b < |s.mem[id].slots| && c != d && id !in {c, d}
              && Kept(s2, s3, id) && s3.mem[id] == View(INNER_MAGIC, InsertAt(s.mem[id].slots, b + 1, Slot(0, d)))
              && Holds(s3, c, if left then u else Take(kids[b].sub, SPLIT))
              && Holds(s3, d, if left then Drop(kids[b].sub, SPLIT) else u)
  {
    var sub := kids[b].sub;
    var l, r := Take(sub, SPLIT), Drop(sub, SPLIT);
    if SplitState(s, s1, s2, id, kids, b, c, d) && Retried(s2, s3, c, d, sub, left, u) {
      ParentKept(s, s1, id, kids, b, sub);
      OutcomeSane(s, s1, c, sub, sub);
      SplitHolds(s1, s2, id, b, c, d, sub);
      if left {
        OneOfTwo(s2, s3, c, l, u, d, r);
      } else {
        OneOfTwo(s2, s3, d, r, u, c, l);
      }
    }
  }

  lemma SlotsAfterSplit(slots: seq<Slot>, b: nat, x: Slot, y: Slot, d: nat)
    requires b < |slots|
    ensures InsertAt(slots, b + 1, Slot(0, d))[b := x][b + 1 := y] == slots[..b] + [x, y] + slots[b + 1..]
  {
  }

  lemma SplitReady(s: Heap, s1: Heap, s2: Heap, id: nat, kids: seq<Kid>, b: nat, c: nat, d: nat)
    requires b < |kids|
    ensures SplitState(s, s1, s2, id, kids, b, c, d) ==>
              && Holds(s2, c, Take(kids[b].sub, SPLIT)) && Holds(s2, d, Drop(kids[b].sub, SPLIT))
              && c in s2.writable && d in s2.writable && c in s1.writable
              && id in s.mem && |s.mem[id].slots| == |kids| && s.mem[id].slots[b].data == c
  {
    if SplitState(s, s1, s2, id, kids, b, c, d) {
      ParentKept(s, s1, id, kids, b, kids[b].sub);
      OutcomeSane(s, s1, c, kids[b].sub, kids[b].sub);
      SplitHolds(s1, s2, id, b, c, d, kids[b].sub);
    }
  }

  // ---- grow

  /** Memory after the entries of block c from n on moved to block d. */
  ghost function CutMem(m: Mem, c: nat, d: nat, n: nat): Mem
    requires c in m && n <= |m[c].slots|
  {
    m[c := View(m[c].magic, m[c].slots[..n])][d := View(m[c].magic, m[c].slots[n..])]
  }

  /** A node was cut in two: the first n entries stay in block c, the others are in the new block d. */
  lemma CutHolds(s: Heap, s': Heap, c: nat, d: nat, t: Tree, n: nat)
    requires Sane(s) && Sane(s') && Holds(s, c, t) && n <= Size(t)
    requires c in s.mem && d in s.used && d !in Foot(s.mem, c, t) && |s.mem[c].slots| == Size(t)
    requires s' == Heap(CutMem(s.mem, c, d, n), s.used, s.writable)
    ensures TwoHeld(s', c, Take(t, n), d, Drop(t, n))
    ensures TwoFeet(s', c, Take(t, n), d, Drop(t, n)) == Foot(s.mem, c, t) + {d}
  {
    var slots := s.mem[c].slots;
    BodyCut(s.mem, slots, t, n);
    BodyFrame(s.mem, s'.mem, slots[..n], Take(t, n));
    BodyFrame(s.mem, s'.mem, slots[n..], Drop(t, n));
    OwnNode(s'.mem, c, slots[..n], Take(t, n));
    OwnNode(s'.mem, d, slots[n..], Drop(t, n));
  }

  /** A new root at x over two stored trees. */
  lemma RootOver(s: Heap, s': Heap, x: nat, c: nat, l: Tree, d: nat, r: Tree)
    requires Sane(s) && TwoHeld(s, c, l, d, r) && x in s.writable && x !in TwoFeet(s, c, l, d, r)
    requires Wrote(s, s', x, View(INNER_MAGIC, [Slot(LastKey(l), c), Slot(LastKey(r), d)]))
    ensures Holds(s', x, Inner([MakeKid(l), MakeKid(r)]))
    ensures Foot(s'.mem, x, Inner([MakeKid(l), MakeKid(r)])) == {x} + TwoFeet(s, c, l, d, r)
  {
    StepsWrote(s, s', x, s'.mem[x]);
    HoldsFrame(s, s', c, l, {x});
    HoldsFrame(s, s', d, r, {x});
    var a, b := Slot(LastKey(l), c), Slot(LastKey(r), d);
    TwoStems(s'.mem, a, MakeKid(l), b, MakeKid(r));
    OwnNode(s'.mem, x, [a, b], Inner([MakeKid(l), MakeKid(r)]));
  }

  /** What growing a root did: the old root block, or its private copy c, is the left child of the new root x. */
  ghost predicate GrowOutcome(s: Heap, s': Heap, root: nat, t: Tree, x: nat, c: nat, d: nat) {
    && Steps(s, s', {root})
    && Holds(s', x, GrowT(t)) && x in s'.writable
    && (c == root || c !in s.used) && x !in s.used && d !in s.used && x != d && x != c && c != d
    && s'.used == s.used + {c, d, x}
    && s'.mem[x].slots == [Slot(LastKey(Take(t, Size(t) / 2)), c), Slot(LastKey(Drop(t, Size(t) / 2)), d)]
    && Tight(s, s', Foot(s.mem, root, t), Foot(s'.mem, x, GrowT(t)))
  }

  /** The edits of grow: a private copy of the root, two new blocks, the cut, and the new root's entries. */
  ghost predicate GrowEdits(s: Heap, s1: Heap, s2: Heap, s3: Heap, s4: Heap, s5: Heap, root: nat, t: Tree,
                            x: nat, c: nat, d: nat) {
    && Sane(s1) && Modified(s, s1, root, c)
    && Sane(s2) && Allocated(s1, s2, x) && Sane(s3) && Allocated(s2, s3, d)
    && c in s3.mem && |s3.mem[c].slots| == Size(t)
    && var n := Size(t) / 2;
    && s4 == Heap(CutMem(s3.mem, c, d, n), s3.used, s3.writable)
    && Wrote(s4, s5, x, View(INNER_MAGIC, [Slot(LastKey(Take(t, n)), c), Slot(LastKey(Drop(t, n)), d)]))
  }

  /** After the private copy and the two new blocks the tree is at c, apart from both. */
  lemma GrowHeld(s: Heap, s1: Heap, s2: Heap, s3: Heap, root: nat, t: Tree, x: nat, c: nat, d: nat)
    requires Sane(s) && Holds(s, root, t) && Sane(s1) && Modified(s, s1, root, c)
    requires Sane(s2) && Allocated(s1, s2, x) && Sane(s3) && Allocated(s2, s3, d)
    ensures Holds(s3, c, t) && x !in Foot(s3.mem, c, t) && d !in Foot(s3.mem, c, t) && root in s.used
    ensures Tight(s, s3, Foot(s.mem, root, t), Foot(s3.mem, c, t) + {x, d})
  {
    assert root in Foot(s.mem, root, t);
    hide Foot, Owned;
    StepsModified(s, s1, root, c);
    ModifiedHolds(s, s1, root, c, t);
    StepsAllocated(s1, s2, x);
    HoldsFrame(s1, s2, c, t, {});
    StepsAllocated(s2, s3, d);
    HoldsFrame(s2, s3, c, t, {});
  }

  lemma GrowDone(s: Heap, s1: Heap, s2: Heap, s3: Heap, s4: Heap, s5: Heap, root: nat, t: Tree, x: nat, c: nat, d: nat)
    requires Sane(s) && Holds(s, root, t) && 2 <= Size(t) && GrowEdits(s, s1, s2, s3, s4, s5, root, t, x, c, d)
    ensures GrowOutcome(s, s5, root, t, x, c, d)
  {
    hide Foot, Owned;
    var n := Size(t) / 2;
    GrowHeld(s, s1, s2, s3, root, t, x, c, d);
    CutHolds(s3, s4, c, d, t, n);
    RootOver(s4, s5, x, c, Take(t, n), d, Drop(t, n));
    GrowSteps(s, s1, s2, s3, s4, s5, root, t, x, c, d);
  }

  lemma GrowSteps(s: Heap, s1: Heap, s2: Heap, s3: Heap, s4: Heap, s5: Heap, root: nat, t: Tree, x: nat, c: nat, d: nat)
    requires Sane(s) && root in s.used && GrowEdits(s, s1, s2, s3, s4, s5, root, t, x, c, d)
    ensures Steps(s, s5, {root})
  {
    StepsModified(s, s1, root, c);
    StepsAllocated(s1, s2, x);
    StepsAllocated(s2, s3, d);
    StepsWiden(s, s1, {}, {root});
    StepsTransitive(s, s1, s2, {root}, {});
    StepsTransitive(s, s2, s3, {root}, {});
    assert Steps(s3, s4, {c, d});
    StepsTransitive(s, s3, s4, {root}, {c, d});
    StepsWrote(s4, s5, x, s5.mem[x]);
    StepsTransitive(s, s4, s5, {root}, {x});
  }

  /** After the private copy and the two new blocks, c still reads as the root did. */
  lemma GrowReady(s: Heap, s1: Heap, s2: Heap, s3: Heap, root: nat, t: Tree, x: nat, c: nat, d: nat)
    requires Sane(s) && Holds(s, root, t) && Sane(s1) && Modified(s, s1, root, c)
    requires Sane(s2) && Allocated(s1, s2, x) && Sane(s3) && Allocated(s2, s3, d)
    ensures c in s3.mem && s3.mem[c].magic == Magic(t) && |s3.mem[c].slots| == Size(t)
    ensures Keys(s3.mem[c].slots) == NodeKeys(t)
    ensures c != x && c != d && x != d && x in s3.mem && d in s3.mem && c in s3.writable && x in s3.writable
  {
    OwnedKeys(s.mem, root, t);
    StepsModified(s, s1, root, c);
    assert Kept(s1, s2, c) && Kept(s2, s3, c);
  }

  lemma KeysOfHalves(slots: seq<Slot>, t: Tree, n: nat)
    requires |slots| == Size(t) && Keys(slots) == NodeKeys(t) && 0 < n < Size(t)
    ensures slots[..n][n - 1].key == LastKey(Take(t, n))
    ensures slots[n..][Size(t) - n - 1].key == LastKey(Drop(t, n))
  {
    assert Keys(slots)[n - 1] == NodeKeys(t)[n - 1] && Keys(slots)[Size(t) - 1] == NodeKeys(t)[Size(t) - 1];
  }

  /** The two halves of a cut node end with the last keys of the two subtrees. */
  lemma CutReads(m: Mem, c: nat, d: nat, t: Tree, n: nat)
    requires c in m && c != d && |m[c].slots| == Size(t) && Keys(m[c].slots) == NodeKeys(t) && 0 < n < Size(t)
    ensures var m' := CutMem(m, c, d, n);
            && c in m' && |m'[c].slots| == n && m'[c].slots[n - 1].key == LastKey(Take(t, n))
            && d in m' && |m'[d].slots| == Size(t) - n && m'[d].slots[Size(t) - n - 1].key == LastKey(Drop(t, n))
            && m'.Keys == m.Keys + {d}
  {
    KeysOfHalves(m[c].slots, t, n);
  }

  // ---- pop

  /** Work below child b whose separator was not updated afterwards. */
  lemma LeaveChild(s: Heap, s1: Heap, id: nat, kids: seq<Kid>, b: nat, u: Tree)
    requires Sane(s) && Holds(s, id, Inner(kids)) && id in s.writable && b < |kids|
    requires |s.mem[id].slots| == |kids|
    requires Outcome(s, s1, s.mem[id].slots[b].data, kids[b].sub, u)
    ensures Outcome(s, s1, id, Inner(kids), Inner(kids[b := Kid(kids[b].sep, u)]))
  {
    var slots := s.mem[id].slots;
    var c := slots[b].data;
    var f := {id} + Foot(s.mem, c, kids[b].sub);
    ChildHeld(s, id, kids, b);
    ParentKept(s, s1, id, kids, b, u);
    StepsWiden(s, s1, Foot(s.mem, c, kids[b].sub), f);
    assert slots[b := Slot(kids[b].sep, c)] == slots;
    PutChild(s, s1, id, kids, b, kids[b].sep, c, u, f);
  }

  /** Two neighbouring children are stored apart from each other and from their parent's block. */
  lemma PairHeld(s: Heap, id: nat, kids: seq<Kid>, i: nat)
    requires Sane(s) && Holds(s, id, Inner(kids)) && i + 1 < |kids|
    ensures |s.mem[id].slots| == |kids|
    ensures var c, d := s.mem[id].slots[i].data, s.mem[id].slots[i + 1].data;
            && TwoHeld(s, c, kids[i].sub, d, kids[i + 1].sub)
            && id !in TwoFeet(s, c, kids[i].sub, d, kids[i + 1].sub)
            && ForestFoot(s.mem, s.mem[id].slots[i..i + 2], kids[i..i + 2])
               == TwoFeet(s, c, kids[i].sub, d, kids[i + 1].sub)
  {
    OwnedInner(s.mem, id, kids);
    ChildHeld(s, id, kids, i);
    ChildHeld(s, id, kids, i + 1);
    RangeOfTwo(s.mem, s.mem[id].slots, kids, i);
    assert StemFoot(s.mem, s.mem[id].slots[i], kids[i]) !! StemFoot(s.mem, s.mem[id].slots[i + 1], kids[i + 1]);
  }

  /** The pair i, i + 1 was replaced by a new pair in the same blocks. */
  lemma PutPair(s: Heap, s': Heap, id: nat, kids: seq<Kid>, i: nat, u: Tree, w: Tree)
    requires Sane(s) && Holds(s, id, Inner(kids)) && id in s.writable && i + 1 < |kids| && |s.mem[id].slots| == |kids|
    requires var c, d := s.mem[id].slots[i].data, s.mem[id].slots[i + 1].data;
             var feet := TwoFeet(s, c, kids[i].sub, d, kids[i + 1].sub);
             && Steps(s, s', {id} + feet) && id in s'.writable
             && TwoHeld(s', c, u, d, w) && Tight(s, s', feet, TwoFeet(s', c, u, d, w))
             && s'.mem[id] == View(INNER_MAGIC, s.mem[id].slots[i := Slot(LastKey(u), c)][i + 1 := Slot(LastKey(w), d)])
    ensures Outcome(s, s', id, Inner(kids), Inner(kids[i := MakeKid(u)][i + 1 := MakeKid(w)]))
  {
    var slots := s.mem[id].slots;
    var c, d := slots[i].data, slots[i + 1].data;
    PairHeld(s, id, kids, i);
    var x, y := Slot(LastKey(u), c), Slot(LastKey(w), d);
    TwoStems(s'.mem, x, MakeKid(u), y, MakeKid(w));
    assert slots[i := x][i + 1 := y] == slots[..i] + [x, y] + slots[i + 2..];
    assert kids[i := MakeKid(u)][i + 1 := MakeKid(w)] == kids[..i] + [MakeKid(u), MakeKid(w)] + kids[i + 2..];
    PutChildren(s, s', id, kids, i, i + 2, [x, y], [MakeKid(u), MakeKid(w)],
                {id} + TwoFeet(s, c, kids[i].sub, d, kids[i + 1].sub));
  }

  /** The pair i, i + 1 was replaced by one child in the first one's block. */
  lemma PutMerged(s: Heap, s': Heap, id: nat, kids: seq<Kid>, i: nat, u: Tree)
    requires Sane(s) && Holds(s, id, Inner(kids)) && id in s.writable && i + 1 < |kids| && |s.mem[id].slots| == |kids|
    requires var c, d := s.mem[id].slots[i].data, s.mem[id].slots[i + 1].data;
             var feet := TwoFeet(s, c, kids[i].sub, d, kids[i + 1].sub);
             && Steps(s, s', {id} + feet) && id in s'.writable
             && Holds(s', c, u) && Tight(s, s', feet, Foot(s'.mem, c, u))
             && s'.mem[id] == View(INNER_MAGIC, s.mem[id].slots[..i] + [Slot(LastKey(u), c)] + s.mem[id].slots[i + 2..])
    ensures Outcome(s, s', id, Inner(kids), Inner(kids[..i] + [MakeKid(u)] + kids[i + 2..]))
  {
    var c, d := s.mem[id].slots[i].data, s.mem[id].slots[i + 1].data;
    PairHeld(s, id, kids, i);
    OneStem(s'.mem, Slot(LastKey(u), c), MakeKid(u));
    PutChildren(s, s', id, kids, i, i + 2, [Slot(LastKey(u), c)], [MakeKid(u)],
                {id} + TwoFeet(s, c, kids[i].sub, d, kids[i + 1].sub));
  }

  /** The entries of two neighbouring nodes were dealt out again at n. */
  ghost predicate Dealt(s: Heap, s': Heap, c: nat, d: nat, n: nat) {
    && c in s.mem && d in s.mem && c != d && n <= |s.mem[c].slots| + |s.mem[d].slots|
    && s' == Heap(s.mem[c := View(s.mem[c].magic, (s.mem[c].slots + s.mem[d].slots)[..n])]
                       [d := View(s.mem[d].magic, (s.mem[c].slots + s.mem[d].slots)[n..])], s.used, s.writable)
  }

  lemma DealtHolds(s: Heap, s': Heap, c: nat, t: Tree, d: nat, u: Tree, n: nat)
    requires Sane(s) && TwoHeld(s, c, t, d, u) && (t.Leaf? <==> u.Leaf?) && {c, d} <= s.writable
    requires Dealt(s, s', c, d, n)
    ensures n <= Size(Join(t, u)) && TwoHeld(s', c, Take(Join(t, u), n), d, Drop(Join(t, u), n))
    ensures TwoFeet(s', c, Take(Join(t, u), n), d, Drop(Join(t, u), n)) == TwoFeet(s, c, t, d, u)
    ensures Steps(s, s', TwoFeet(s, c, t, d, u))
  {
    OwnedKeys(s.mem, c, t);
    OwnedKeys(s.mem, d, u);
    JoinSize(t, u);
    Recut(s.mem, s'.mem, c, t, d, u, n);
  }

  /** The entries of node d were appended to node c, and block d was released. */
  ghost predicate Merged(s: Heap, s': Heap, c: nat, d: nat) {
    && c in s.mem && d in s.mem && c != d
    && s' == Heap(s.mem[c := View(s.mem[c].magic, s.mem[c].slots + s.mem[d].slots)], s.used - {d}, s.writable - {d})
  }

  lemma MergedHolds(s: Heap, s': Heap, c: nat, t: Tree, d: nat, u: Tree)
    requires Sane(s) && TwoHeld(s, c, t, d, u) && (t.Leaf? <==> u.Leaf?) && {c, d} <= s.writable && Merged(s, s', c, d)
    ensures Holds(s', c, Join(t, u))
    ensures Foot(s'.mem, c, Join(t, u)) == TwoFeet(s, c, t, d, u) - {d}
    ensures Steps(s, s', TwoFeet(s, c, t, d, u))
  {
    var all := s.mem[c].slots + s.mem[d].slots;
    OwnedKeys(s.mem, c, t);
    OwnedKeys(s.mem, d, u);
    BodyConcat(s.mem, s.mem[c].slots, t, s.mem[d].slots, u);
    JoinSize(t, u);
    BodyFrame(s.mem, s'.mem, all, Join(t, u));
    OwnNode(s'.mem, c, all, Join(t, u));
  }

  /** A redistribution between neighbours and the two new separators, as one outcome for their parent. */
  lemma StealDone(s: Heap, s1: Heap, s2: Heap, id: nat, kids: seq<Kid>, i: nat, n: nat)
    requires Sane(s) && Holds(s, id, Inner(kids)) && id in s.writable && i + 1 < |kids| && |s.mem[id].slots| == |kids|
    requires kids[i].sub.Leaf? <==> kids[i + 1].sub.Leaf?
    requires n <= Size(Join(kids[i].sub, kids[i + 1].sub))
    requires var c, d := s.mem[id].slots[i].data, s.mem[id].slots[i + 1].data;
             var l, r := Take(Join(kids[i].sub, kids[i + 1].sub), n), Drop(Join(kids[i].sub, kids[i + 1].sub), n);
             && {c, d} <= s.writable && Dealt(s, s1, c, d, n)
             && Wrote(s1, s2, id, View(INNER_MAGIC,
                  s.mem[id].slots[i := Slot(LastKey(l), c)][i + 1 := Slot(LastKey(r), d)]))
    ensures var l, r := Take(Join(kids[i].sub, kids[i + 1].sub), n), Drop(Join(kids[i].sub, kids[i + 1].sub), n);
            Outcome(s, s2, id, Inner(kids), Inner(kids[i := MakeKid(l)][i + 1 := MakeKid(r)]))
  {
    var c, d := s.mem[id].slots[i].data, s.mem[id].slots[i + 1].data;
    var t, u := kids[i].sub, kids[i + 1].sub;
    var l, r := Take(Join(t, u), n), Drop(Join(t, u), n);
    var feet := TwoFeet(s, c, t, d, u);
    PairHeld(s, id, kids, i);
    DealtHolds(s, s1, c, t, d, u, n);
    StepsWiden(s, s1, feet, {id} + feet);
    StepsWrote(s1, s2, id, s2.mem[id]);
    StepsTransitive(s, s1, s2, {id} + feet, {id});
    HoldsFrame(s1, s2, c, l, {id});
    HoldsFrame(s1, s2, d, r, {id});
    PutPair(s, s2, id, kids, i, l, r);
  }

  lemma MergeDone(s: Heap, s1: Heap, s2: Heap, id: nat, kids: seq<Kid>, i: nat)
    requires Sane(s) && Holds(s, id, Inner(kids)) && id in s.writable && i + 1 < |kids| && |s.mem[id].slots| == |kids|
    requires kids[i].sub.Leaf? <==> kids[i + 1].sub.Leaf?
    requires var c, d := s.mem[id].slots[i].data, s.mem[id].slots[i + 1].data;
             var u := Join(kids[i].sub, kids[i + 1].sub);
             && {c, d} <= s.writable && Merged(s, s1, c, d)
             && Wrote(s1, s2, id, View(INNER_MAGIC,
                  s.mem[id].slots[..i] + [Slot(LastKey(u), c)] + s.mem[id].slots[i + 2..]))
    ensures var u := Join(kids[i].sub, kids[i + 1].sub);
            Outcome(s, s2, id, Inner(kids), Inner(kids[..i] + [MakeKid(u)] + kids[i + 2..]))
  {
    var c, d := s.mem[id].slots[i].data, s.mem[id].slots[i + 1].data;
    var t, u := kids[i].sub, kids[i + 1].sub;
    var feet := TwoFeet(s, c, t, d, u);
    PairHeld(s, id, kids, i);
    MergedHolds(s, s1, c, t, d, u);
    StepsWiden(s, s1, feet, {id} + feet);
    StepsWrote(s1, s2, id, s2.mem[id]);
    StepsTransitive(s, s1, s2, {id} + feet, {id});
    HoldsFrame(s1, s2, c, Join(t, u), {id});
    PutMerged(s, s2, id, kids, i, Join(t, u));
  }

  /** The two steals of pop, and its merge, as redistributions. */
  lemma StealAsDeal(t: Tree, u: Tree)
    requires (t.Leaf? <==> u.Leaf?) && 0 < Size(t) && 0 < Size(u)
    ensures Take(Join(t, u), Size(t) + 1) == Join(t, Take(u, 1))
    ensures Drop(Join(t, u), Size(t) + 1) == Drop(u, 1)
    ensures Take(Join(t, u), Size(t) - 1) == Take(t, Size(t) - 1)
    ensures Drop(Join(t, u), Size(t) - 1) == Join(Drop(t, Size(t) - 1), u)
  {
    JoinSize(t, u);
  }

  /** The last entry of node c went to the front of node d. */
  lemma LastDealt(s: Heap, s': Heap, c: nat, d: nat)
    requires c in s.mem && d in s.mem && c != d && s.mem[c].slots != []
    requires var n := |s.mem[c].slots| - 1;
             s' == Heap(s.mem[d := View(s.mem[d].magic, InsertAt(s.mem[d].slots, 0, s.mem[c].slots[n]))]
                             [c := View(s.mem[c].magic, RemoveAt(s.mem[c].slots, n))], s.used, s.writable)
    ensures Dealt(s, s', c, d, |s.mem[c].slots| - 1)
  {
    var a, b, n := s.mem[c].slots, s.mem[d].slots, |s.mem[c].slots| - 1;
    assert (a + b)[..n] == RemoveAt(a, n);
    assert (a + b)[n..] == InsertAt(b, 0, a[n]);
  }

  /** The first entry of node d went to the end of node c. */
  lemma FirstDealt(s: Heap, s': Heap, c: nat, d: nat)
    requires c in s.mem && d in s.mem && c != d && s.mem[d].slots != []
    requires s' == Heap(s.mem[c := View(s.mem[c].magic, InsertAt(s.mem[c].slots, |s.mem[c].slots|, s.mem[d].slots[0]))]
                             [d := View(s.mem[d].magic, RemoveAt(s.mem[d].slots, 0))], s.used, s.writable)
    ensures Dealt(s, s', c, d, |s.mem[c].slots| + 1)
  {
    var a, b := s.mem[c].slots, s.mem[d].slots;
    assert (a + b)[..|a| + 1] == InsertAt(a, |a|, b[0]);
    assert (a + b)[|a| + 1..] == RemoveAt(b, 0);
  }

  lemma SlotsAfterMerge(slots: seq<Slot>, i: nat, x: Slot)
    requires i + 1 < |slots|
    ensures |RemoveAt(slots, i + 1)| == |slots| - 1 && RemoveAt(slots, i + 1)[i] == slots[i]
    ensures RemoveAt(slots, i + 1)[i := x] == slots[..i] + [x] + slots[i + 2..]
  {
  }

  /** Two children of the node at id read as their trees do. */
  ghost predicate PairReads(m: Mem, id: nat, kids: seq<Kid>, i: nat, j: nat, c: nat, d: nat) {
    && id in m && c in m && d in m && id != c && id != d && c != d
    && m[id].magic == INNER_MAGIC && |m[id].slots| == |kids| && i < |kids| && j < |kids| && i != j
    && m[id].slots[i].data == c && m[id].slots[j].data == d
    && |m[c].slots| == Size(kids[i].sub) && |m[d].slots| == Size(kids[j].sub)
  }

  lemma PairFacts(s: Heap, id: nat, kids: seq<Kid>, i: nat, j: nat, c: nat, d: nat)
    requires Sane(s) && Holds(s, id, Inner(kids)) && i < |kids| && j < |kids| && (j == i + 1 || i == j + 1)
    requires |s.mem[id].slots| == |kids| && s.mem[id].slots[i].data == c && s.mem[id].slots[j].data == d
    ensures PairReads(s.mem, id, kids, i, j, c, d)
  {
    PairHeld(s, id, kids, if i < j then i else j);
    OwnedInner(s.mem, id, kids);
    OwnedKeys(s.mem, c, kids[i].sub);
    OwnedKeys(s.mem, d, kids[j].sub);
  }

  /** After entries were dealt out again between neighbours i and i + 1. */
  lemma StealHolds(s: Heap, s1: Heap, id: nat, kids: seq<Kid>, i: nat, n: nat)
    requires Sane(s) && Holds(s, id, Inner(kids)) && id in s.writable && i + 1 < |kids| && |s.mem[id].slots| == |kids|
    requires kids[i].sub.Leaf? <==> kids[i + 1].sub.Leaf?
    requires var c, d := s.mem[id].slots[i].data, s.mem[id].slots[i + 1].data;
             {c, d} <= s.writable && Dealt(s, s1, c, d, n)
    ensures var c, d := s.mem[id].slots[i].data, s.mem[id].slots[i + 1].data;
            var l, r := Take(Join(kids[i].sub, kids[i + 1].sub), n), Drop(Join(kids[i].sub, kids[i + 1].sub), n);
            Holds(s1, c, l) && Holds(s1, d, r) && n <= Size(Join(kids[i].sub, kids[i + 1].sub))
  {
    PairHeld(s, id, kids, i);
    DealtHolds(s, s1, s.mem[id].slots[i].data, kids[i].sub, s.mem[id].slots[i + 1].data, kids[i + 1].sub, n);
  }

  /** After node i + 1 was appended to node i. */
  lemma MergeHolds(s: Heap, s1: Heap, id: nat, kids: seq<Kid>, i: nat)
    requires Sane(s) && Holds(s, id, Inner(kids)) && id in s.writable && i + 1 < |kids| && |s.mem[id].slots| == |kids|
    requires kids[i].sub.Leaf? <==> kids[i + 1].sub.Leaf?
    requires 0 < Size(kids[i].sub) + Size(kids[i + 1].sub)
    requires var c, d := s.mem[id].slots[i].data, s.mem[id].slots[i + 1].data;
             {c, d} <= s.writable && Merged(s, s1, c, d)
    ensures var c := s.mem[id].slots[i].data;
            var u := Join(kids[i].sub, kids[i + 1].sub);
            c in s1.mem && 0 < |s1.mem[c].slots| && s1.mem[c].slots[|s1.mem[c].slots| - 1].key == LastKey(u)
  {
    var c, d := s.mem[id].slots[i].data, s.mem[id].slots[i + 1].data;
    PairHeld(s, id, kids, i);
    MergedHolds(s, s1, c, kids[i].sub, d, kids[i + 1].sub);
    JoinSize(kids[i].sub, kids[i + 1].sub);
    OwnedKeys(s1.mem, c, Join(kids[i].sub, kids[i + 1].sub));
    LastKeyIs(s1.mem, c, Join(kids[i].sub, kids[i + 1].sub));
  }

  // ---- snapshots

  /** A tree kept by the last commit: no block of it is writable in this transaction. */
  ghost predicate Committed(s: Heap, id: nat, t: Tree) {
    Holds(s, id, t) && Foot(s.mem, id, t) !! s.writable
  }

  /** Whatever tree operations do, in whatever blocks, a committed tree stays as it was in its own blocks. */
  lemma CommittedStays(s: Heap, s': Heap, id: nat, t: Tree, f: set<nat>)
    requires Sane(s) && Committed(s, id, t) && Steps(s, s', f)
    ensures Committed(s', id, t) && Foot(s'.mem, id, t) == Foot(s.mem, id, t)
  {
    OwnedFrame(s.mem, s'.mem, id, t);
  }
}
