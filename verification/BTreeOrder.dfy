/**
 The order of node keys: exactly which sets keep the key array of every node increasing, and that a set in an ordered
 tree always binds its own key.
 */
module BTreeOrder {
  import opened Words
  import opened SortedSlots
  import opened BTreeModel
  import opened BTreeSearch
  import opened BTreeSet

  /** The key array of every node increases. The keys of different nodes need not fit together. */
  ghost predicate Ordered(t: Tree)
    decreases t
  {
    && Increasing(NodeKeys(t))
    && (t.Inner? ==> forall i :: 0 <= i < |t.kids| ==> Ordered(t.kids[i].sub))
  }

  /**
   What a caller can check before a set: wherever a full child is split and the set retried in its right half, the
   left half ends above the separator before the child.
   */
  predicate KeepsOrder(t: Tree, h: nat, k: u32)
    decreases h
  {
    match t
    case Leaf(_) => true
    case Inner(kids) =>
      if h == 0 || kids == [] then true else
      var b := Route(kids, k);
      var sub := kids[b].sub;
      if !WouldFill(sub, k) then KeepsOrder(sub, h - 1, k)
      else if |kids| >= SIZE then true
      else if k <= kids[b].sep then KeepsOrder(Take(sub, SPLIT), h - 1, k)
      else (b > 0 ==> kids[b - 1].sep < LastKey(Take(sub, SPLIT))) && KeepsOrder(Drop(sub, SPLIT), h - 1, k)
  }

  // ---- ordered nodes

  function Larger(a: u32, b: u32): u32 {
    if a < b then b else a
  }

  lemma KidOrdered(t: Tree, h: nat, b: nat)
    requires Wf(t, h) && Ordered(t) && t.Inner? && b < |t.kids|
    ensures h > 0 && Wf(t.kids[b].sub, h - 1) && Ordered(t.kids[b].sub)
    ensures t.kids[b].sep == LastKey(t.kids[b].sub) && SPLIT <= Size(t.kids[b].sub) <= SIZE
  {
    KidWf(t, h, b);
  }

  lemma OrderedSeps(t: Tree)
    requires Ordered(t) && t.Inner?
    ensures forall i, j :: 0 <= i < j < |t.kids| ==> t.kids[i].sep < t.kids[j].sep
  {
    KidsOrdered(t.kids);
    hide Ordered;
  }

  /** In an ordered node the routed child is the first that is not below the key, or the last one. */
  lemma RouteOrdered(t: Tree, k: u32)
    requires Ordered(t) && t.Inner? && t.kids != []
    ensures var b := Route(t.kids, k);
            && (forall i :: 0 <= i < b ==> t.kids[i].sep < k)
            && (k <= t.kids[b].sep ==> forall i :: b <= i < |t.kids| ==> k <= t.kids[i].sep)
            && (t.kids[b].sep < k ==> b == |t.kids| - 1)
  {
    hide Ordered, Route, Search;
    OrderedSeps(t);
  }

  lemma HalvesOrdered(t: Tree, n: nat)
    requires Ordered(t) && 0 < n < Size(t)
    ensures Ordered(Take(t, n)) && Ordered(Drop(t, n))
    ensures LastKey(Take(t, n)) < LastKey(Drop(t, n)) == LastKey(t)
  {
    hide Take, Drop, LastKey;
    HalfKeys(t, n);
    HalfLast(t, n);
    HalfKids(t, n);
    hide NodeKeys;
    SliceIncreases(NodeKeys(t), n);
  }

  lemma SliceIncreases(ks: seq<u32>, n: nat)
    requires Increasing(ks) && 0 < n < |ks|
    ensures Increasing(ks[..n]) && Increasing(ks[n..]) && ks[n - 1] < ks[|ks| - 1]
  {
  }

  lemma HalfKeys(t: Tree, n: nat)
    requires 0 < n < Size(t)
    ensures NodeKeys(Take(t, n)) == NodeKeys(t)[..n] && NodeKeys(Drop(t, n)) == NodeKeys(t)[n..]
  {
  }

  lemma HalfLast(t: Tree, n: nat)
    requires 0 < n < Size(t)
    ensures LastKey(Take(t, n)) == NodeKeys(t)[n - 1]
    ensures LastKey(Drop(t, n)) == LastKey(t) == NodeKeys(t)[Size(t) - 1]
  {
    HalfKeys(t, n);
    LastOfKeys(t);
    LastOfKeys(Take(t, n));
    LastOfKeys(Drop(t, n));
    hide LastKey, NodeKeys;
  }

  lemma LastOfKeys(t: Tree)
    requires 0 < Size(t)
    ensures LastKey(t) == NodeKeys(t)[Size(t) - 1]
  {
  }

  lemma HalfKids(t: Tree, n: nat)
    requires Ordered(t) && 0 < n < Size(t)
    ensures Take(t, n).Inner? ==> forall i :: 0 <= i < |Take(t, n).kids| ==> Ordered(Take(t, n).kids[i].sub)
    ensures Drop(t, n).Inner? ==> forall i :: 0 <= i < |Drop(t, n).kids| ==> Ordered(Drop(t, n).kids[i].sub)
  {
    hide Increasing;
  }

  /** A key that finds no room is not the last one. */
  lemma {:induction false} FullMisses(t: Tree, h: nat, k: u32)
    requires Wf(t, h) && Ordered(t) && WouldFill(t, k)
    ensures k != LastKey(t)
    decreases h
  {
    var n := Size(t) - 1;
    FullIsFull(t, k);
    assert NodeKeys(t)[n] == LastKey(t);
    if k == LastKey(t) {
      SearchUnique(NodeKeys(t), k, n);
      if t.Inner? {
        KidOrdered(t, h, n);
        FullMisses(t.kids[n].sub, h - 1, k);
      }
    }
  }

  // ---- replacing a child, and splitting one

  lemma ReplaceOrdered(t: Tree, b: nat, u: Tree)
    requires Ordered(t) && t.Inner? && b < |t.kids|
    requires b > 0 ==> t.kids[b - 1].sep < LastKey(u)
    requires b < |t.kids| - 1 ==> LastKey(u) < t.kids[b + 1].sep
    ensures Ordered(Inner(t.kids[b := MakeKid(u)])) <==> Ordered(u)
  {
    hide Ordered, LastKey;
    var kids, kids' := t.kids, t.kids[b := MakeKid(u)];
    KidsOrdered(kids);
    KidsOrdered(kids');
    SepsStay(kids, b, MakeKid(u));
    if Ordered(u) {
      assert forall i :: 0 <= i < |kids'| && i != b ==> kids'[i] == kids[i];
    } else {
      assert kids'[b].sub == u;
    }
  }

  lemma SepsStay(kids: seq<Kid>, b: nat, x: Kid)
    requires b < |kids| && forall i, j :: 0 <= i < j < |kids| ==> kids[i].sep < kids[j].sep
    requires b > 0 ==> kids[b - 1].sep < x.sep
    requires b < |kids| - 1 ==> x.sep < kids[b + 1].sep
    ensures var after := kids[b := x];
            forall i, j :: 0 <= i < j < |after| ==> after[i].sep < after[j].sep
  {
  }

  /** A node is ordered exactly when its separators increase and its children are ordered. */
  lemma KidsOrdered(kids: seq<Kid>)
    ensures Ordered(Inner(kids))
       <==> (forall i, j :: 0 <= i < j < |kids| ==> kids[i].sep < kids[j].sep)
            && (forall i :: 0 <= i < |kids| ==> Ordered(kids[i].sub))
  {
    assert forall i :: 0 <= i < |kids| ==> Seps(kids)[i] == kids[i].sep;
    if forall i, j :: 0 <= i < j < |kids| ==> kids[i].sep < kids[j].sep {
      assert Increasing(Seps(kids));
    }
  }

  lemma SplitOrdered(t: Tree, b: nat, l: Tree, r: Tree)
    requires Ordered(t) && t.Inner? && b < |t.kids|
    requires LastKey(l) < LastKey(r)
    requires b < |t.kids| - 1 ==> LastKey(r) < t.kids[b + 1].sep
    ensures Ordered(SplitKid(t.kids, b, l, r))
       <==> (b > 0 ==> t.kids[b - 1].sep < LastKey(l)) && Ordered(l) && Ordered(r)
  {
    hide Ordered, LastKey;
    var after := t.kids[..b] + [MakeKid(l), MakeKid(r)] + t.kids[b + 1..];
    SplitKidAt(t.kids, b, l, r);
    KidsOrdered(t.kids);
    KidsOrdered(after);
    if Ordered(Inner(after)) {
      assert after[b].sub == l && after[b + 1].sub == r;
    } else if (b > 0 ==> t.kids[b - 1].sep < LastKey(l)) && Ordered(l) && Ordered(r) {
      SplitIncreases(t.kids, b, l, r);
    }
  }

  lemma SplitIncreases(kids: seq<Kid>, b: nat, l: Tree, r: Tree)
    requires b < |kids| && (forall i :: 0 <= i < |kids| && i != b ==> Ordered(kids[i].sub)) && Ordered(l) && Ordered(r)
    requires forall i, j :: 0 <= i < j < |kids| ==> kids[i].sep < kids[j].sep
    requires LastKey(l) < LastKey(r) && (b > 0 ==> kids[b - 1].sep < LastKey(l))
    requires b < |kids| - 1 ==> LastKey(r) < kids[b + 1].sep
    ensures Ordered(SplitKid(kids, b, l, r))
  {
    hide Ordered, LastKey;
    var after := kids[..b] + [MakeKid(l), MakeKid(r)] + kids[b + 1..];
    SplitKidAt(kids, b, l, r);
    SepsSplit(kids, b, MakeKid(l), MakeKid(r), after);
    KidsOrdered(after);
  }

  lemma SepsSplit(kids: seq<Kid>, b: nat, x: Kid, y: Kid, after: seq<Kid>)
    requires b < |kids| && forall i, j :: 0 <= i < j < |kids| ==> kids[i].sep < kids[j].sep
    requires |after| == |kids| + 1 && after[b] == x && after[b + 1] == y && x.sep < y.sep
    requires (forall i :: 0 <= i < b ==> after[i] == kids[i])
    requires (forall i :: b + 1 < i < |after| ==> after[i] == kids[i - 1])
    requires (b > 0 ==> kids[b - 1].sep < x.sep) && (b < |kids| - 1 ==> y.sep < kids[b + 1].sep)
    ensures forall i, j :: 0 <= i < j < |after| ==> after[i].sep < after[j].sep
  {
  }

  // ---- the last key after a set

  lemma LeafSorted(es: seq<Slot>)
    ensures Sorted(es) <==> Ordered(Leaf(es))
  {
    assert forall i :: 0 <= i < |es| ==> Keys(es)[i] == es[i].key;
  }

  /** In an ordered leaf with room: the last key, the order and the key itself after a set. */
  lemma LeafSet(es: seq<Slot>, h: nat, k: u32, v: nat)
    requires Ordered(Leaf(es)) && !WouldFill(Leaf(es), k) && |es| <= SIZE
    ensures var u := SetT(Leaf(es), h, k, v).tree;
            LastKey(u) == Larger(LastKey(Leaf(es)), k) && Ordered(u) && GetT(u, k) == Some(v)
  {
    hide Ordered, SetT, GetT, WouldFill;
    LeafSorted(es);
    LeafUpserts(es, h, k, v);
    var fs := Upsert(es, k, v);
    UpsertSorted(es, k, v);
    LeafSorted(fs);
    UpsertLast(es, k, v);
    LeafGet(fs, k, v);
  }

  lemma UpsertLast(es: seq<Slot>, k: u32, v: nat)
    requires Sorted(es)
    ensures LastKey(Leaf(Upsert(es, k, v))) == Larger(LastKey(Leaf(es)), k)
  {
    SplitAtLowerBound(es, k);
    hide Sorted, LowerBound;
  }

  lemma LeafGet(es: seq<Slot>, k: u32, v: nat)
    requires Sorted(es) && k in MapOf(es) && MapOf(es)[k] == v
    ensures GetT(Leaf(es), k) == Some(v)
  {
    LookupMap(es, k);
    SearchSorted(es, k);
    hide Sorted, MapOf, LowerBound, Search;
  }

  // ---- one node of the path of a set

  /** What a set makes of an ordered node: its last key, whether it stays ordered, and that the key is found. */
  ghost predicate SetMakes(t: Tree, u: Tree, keeps: bool, k: u32, v: nat) {
    LastKey(u) == Larger(LastKey(t), k) && (Ordered(u) <==> keeps) && GetT(u, k) == Some(v)
  }

  /** The child b of an ordered node that k is routed to. */
  ghost predicate At(t: Tree, b: nat, k: u32) {
    Ordered(t) && t.Inner? && t.kids != [] && b == Route(t.kids, k)
  }

  lemma AtIs(t: Tree, b: nat, k: u32)
    requires At(t, b, k)
    ensures Ordered(t) && t.Inner? && b < |t.kids| && LastKey(t) == t.kids[|t.kids| - 1].sep
    ensures forall i :: 0 <= i < b ==> t.kids[i].sep < k
    ensures forall i :: b < i < |t.kids| ==> t.kids[b].sep < t.kids[i].sep && k < t.kids[i].sep
  {
    hide Ordered, Route, LastKey;
    OrderedSeps(t);
    RouteOrdered(t, k);
    LastOfInner(t);
  }

  lemma ReplaceMakes(t: Tree, b: nat, u: Tree, k: u32, v: nat)
    requires At(t, b, k) && b < |t.kids| && LastKey(u) == Larger(t.kids[b].sep, k) && GetT(u, k) == Some(v)
    ensures SetMakes(t, Inner(t.kids[b := MakeKid(u)]), Ordered(u), k, v)
  {
    hide At, Ordered, GetT;
    AtIs(t, b, k);
    ReplaceOrdered(t, b, u);
    GetDescends(t.kids[b := MakeKid(u)], b, k);
    LastOfInner(Inner(t.kids[b := MakeKid(u)]));
  }

  /** After the retry in the left half, which ends at k or before it ended already. */
  lemma LeftMakes(t: Tree, b: nat, l: Tree, r: Tree, k: u32, v: nat)
    requires At(t, b, k) && b < |t.kids| && k <= LastKey(l) < t.kids[b].sep == LastKey(r) && Ordered(r)
    requires GetT(l, k) == Some(v)
    ensures SetMakes(t, SplitKid(t.kids, b, l, r), Ordered(l), k, v)
  {
    hide At, Ordered, GetT;
    AtIs(t, b, k);
    SplitOrdered(t, b, l, r);
    GetSplitKid(t.kids, b, l, r, k);
    LastOfSplitKid(t.kids, b, l, r);
  }

  /** After the retry in the right half, where k is above every separator. */
  lemma RightMakes(t: Tree, b: nat, l: Tree, r: Tree, k: u32, v: nat)
    requires At(t, b, k) && b < |t.kids| && LastKey(l) < t.kids[b].sep < k == LastKey(r) && Ordered(l)
    requires GetT(r, k) == Some(v)
    ensures SetMakes(t, SplitKid(t.kids, b, l, r),
                     (b > 0 ==> t.kids[b - 1].sep < LastKey(l)) && Ordered(r), k, v)
  {
    hide At, Ordered, GetT;
    AtIs(t, b, k);
    RouteLast(t, b, k);
    SplitOrdered(t, b, l, r);
    var after := t.kids[..b] + [MakeKid(l), MakeKid(r)] + t.kids[b + 1..];
    SplitKidAt(t.kids, b, l, r);
    GetDescends(after, b + 1, k);
    LastOfInner(Inner(after));
  }

  lemma RouteLast(t: Tree, b: nat, k: u32)
    requires At(t, b, k) && b < |t.kids| && t.kids[b].sep < k
    ensures b == |t.kids| - 1
  {
  }

  // ---- main results

  lemma KeepsOrderStep(t: Tree, h: nat, k: u32)
    requires t.Inner? && t.kids != [] && h > 0
    ensures var b := Route(t.kids, k);
            var sub := t.kids[b].sub;
            KeepsOrder(t, h, k) ==
            if !WouldFill(sub, k) then KeepsOrder(sub, h - 1, k)
            else if |t.kids| >= SIZE then true
            else if k <= t.kids[b].sep then KeepsOrder(Take(sub, SPLIT), h - 1, k)
            else (b > 0 ==> t.kids[b - 1].sep < LastKey(Take(sub, SPLIT))) && KeepsOrder(Drop(sub, SPLIT), h - 1, k)
  {
  }

  lemma {:induction false} SetMakesIt(t: Tree, h: nat, k: u32, v: nat)
    requires Wf(t, h) && Ordered(t) && !WouldFill(t, k)
    ensures SetMakes(t, SetT(t, h, k, v).tree, KeepsOrder(t, h, k), k, v)
    decreases h, 1
  {
    hide Wf, Ordered, WouldFill, SetT, GetT, Route, Search;
    ShapeOf(t, h);
    if t.Leaf? {
      LeafSet(t.es, h, k, v);
    } else {
      var b := Route(t.kids, k);
      KidOrdered(t, h, b);
      KeepsOrderStep(t, h, k);
      hide KeepsOrder, SetMakes, At;
      if WouldFill(t.kids[b].sub, k) {
        FullIsWide(t, k);
        SplitMakesIt(t, h, b, k, v);
      } else {
        SetMakesIt(t.kids[b].sub, h - 1, k, v);
        PlainMakesIt(t, h, b, k, v);
      }
    }
  }

  lemma PlainMakesIt(t: Tree, h: nat, b: nat, k: u32, v: nat)
    requires Wf(t, h) && At(t, b, k) && b < |t.kids| && h > 0 && !WouldFill(t.kids[b].sub, k)
    requires SetMakes(t.kids[b].sub, SetT(t.kids[b].sub, h - 1, k, v).tree, KeepsOrder(t.kids[b].sub, h - 1, k), k, v)
    ensures SetMakes(t, SetT(t, h, k, v).tree, KeepsOrder(t.kids[b].sub, h - 1, k), k, v)
  {
    hide Wf, Ordered, WouldFill, SetT, GetT, Route, KeepsOrder;
    KidOrdered(t, h, b);
    SetPlain(t, h, k, v);
    ReplaceMakes(t, b, SetT(t.kids[b].sub, h - 1, k, v).tree, k, v);
  }

  lemma {:induction false} SplitMakesIt(t: Tree, h: nat, b: nat, k: u32, v: nat)
    requires Wf(t, h) && At(t, b, k) && b < |t.kids| < SIZE && h > 0 && WouldFill(t.kids[b].sub, k)
    ensures var l := Take(t.kids[b].sub, SPLIT);
            SetMakes(t, SetT(t, h, k, v).tree,
                     if k <= t.kids[b].sep then KeepsOrder(l, h - 1, k)
                     else (b > 0 ==> t.kids[b - 1].sep < LastKey(l))
                          && KeepsOrder(Drop(t.kids[b].sub, SPLIT), h - 1, k),
                     k, v)
    decreases h, 0
  {
    hide Wf, Ordered, WouldFill, SetT, GetT, Route, KeepsOrder, SplitKid;
    var sub := t.kids[b].sub;
    var l, r := Take(sub, SPLIT), Drop(sub, SPLIT);
    KidOrdered(t, h, b);
    HalvesReadyFor(sub, h - 1, k);
    SetSplits(t, h, k, v);
    if k <= t.kids[b].sep {
      SetMakesIt(l, h - 1, k, v);
      LeftMakes(t, b, SetT(l, h - 1, k, v).tree, r, k, v);
    } else {
      SetMakesIt(r, h - 1, k, v);
      RightMakes(t, b, l, SetT(r, h - 1, k, v).tree, k, v);
    }
  }

  /** The halves of a full ordered node: ordered, with room, and the key is not the last one. */
  lemma HalvesReadyFor(t: Tree, h: nat, k: u32)
    requires Wf(t, h) && Ordered(t) && WouldFill(t, k)
    ensures var l, r := Take(t, SPLIT), Drop(t, SPLIT);
            && Wf(l, h) && Wf(r, h) && Ordered(l) && Ordered(r) && !WouldFill(l, k) && !WouldFill(r, k)
            && LastKey(l) < LastKey(r) == LastKey(t) != k
  {
    FullIsFull(t, k);
    FullMisses(t, h, k);
    hide Wf, Ordered;
    TakeDropWf(t, h, SPLIT);
    HalvesOrdered(t, SPLIT);
  }

  /**
   In a well-formed tree whose node keys increase, with room for k: they still increase after the set if and only if,
   wherever the path retries in a right half, the left half ends above the separator before the child.
   */
  lemma OrderKeptIff(t: Tree, h: nat, k: u32, v: nat)
    requires Wf(t, h) && Ordered(t) && !WouldFill(t, k)
    ensures Ordered(SetT(t, h, k, v).tree) <==> KeepsOrder(t, h, k)
  {
    SetMakesIt(t, h, k, v);
  }

  /** In such a tree a set always binds its own key, split-safe or not. */
  lemma SetBindsKey(t: Tree, h: nat, k: u32, v: nat)
    requires Wf(t, h) && Ordered(t) && !WouldFill(t, k)
    ensures GetT(SetT(t, h, k, v).tree, k) == Some(v)
  {
    SetMakesIt(t, h, k, v);
  }

  // ---- valid trees

  /** In a valid tree the node keys increase, and every set keeps them so. */
  lemma {:induction false} ValidKeepsOrder(t: Tree, h: nat, k: u32)
    requires Valid(t, h)
    ensures Ordered(t) && KeepsOrder(t, h, k)
    decreases h
  {
    ValidOrdered(t, h);
    if t.Inner? {
      hide Valid, Ordered, WouldFill, Route, Search;
      ValidShape(t, h);
      var b := Route(t.kids, k);
      var sub := t.kids[b].sub;
      KidValid(t, h, b);
      KeepsOrderStep(t, h, k);
      ValidKeepsOrder(sub, h - 1, k);
      if WouldFill(sub, k) {
        FullIsFull(sub, k);
        HalvesValid(sub, h - 1);
        ValidKeepsOrder(Take(sub, SPLIT), h - 1, k);
        ValidKeepsOrder(Drop(sub, SPLIT), h - 1, k);
        LeftHalfAbove(t, h, k);
      }
    }
  }

  lemma ValidShape(t: Tree, h: nat)
    requires Valid(t, h) && t.Inner?
    ensures h > 0 && t.kids != []
  {
  }

  lemma {:induction false} ValidOrdered(t: Tree, h: nat)
    requires Valid(t, h)
    ensures Ordered(t)
    decreases h
  {
    NodeKeysIncrease(t, h);
    if t.Inner? {
      forall i | 0 <= i < |t.kids|
        ensures Ordered(t.kids[i].sub)
      {
        KidValid(t, h, i);
        ValidOrdered(t.kids[i].sub, h - 1);
      }
    }
  }

  /** The left half of a full child ends above the separator before the child. */
  lemma LeftHalfAbove(t: Tree, h: nat, k: u32)
    requires Valid(t, h) && t.Inner? && t.kids != [] && h > 0 && Size(t.kids[Route(t.kids, k)].sub) == SIZE
    ensures var b := Route(t.kids, k); b > 0 ==> t.kids[b - 1].sep < LastKey(Take(t.kids[b].sub, SPLIT))
  {
    hide Wf, Sorted, Route, Search, HasKey;
    var b := Route(t.kids, k);
    var l, r := Take(t.kids[b].sub, SPLIT), Drop(t.kids[b].sub, SPLIT);
    KidValid(t, h, b);
    HalvesValid(t.kids[b].sub, h - 1);
    DropSize(t.kids[b].sub);
    FlatLast(l, h - 1);
    HasLast(Flat(l), LastKey(l));
    HasKeyPrefix(Flat(l), Flat(r), LastKey(l));
    KeyInRange(t, h, k, LastKey(l));
  }

  lemma HasLast(s: seq<Slot>, k: u32)
    requires s != [] && s[|s| - 1].key == k
    ensures HasKey(s, k)
  {
  }
}
