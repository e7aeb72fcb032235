/**
 Pop: what it removes, what it keeps through steals and merges, and exactly when it returns the value or overruns a
 node.
 */
module BTreePop {
  import opened Words
  import opened SortedSlots
  import opened BTreeModel
  import opened BTreeSearch
  import opened BTreeSet

  /** A stored key is not above the last separator, so the search never runs off the node. */
  lemma PresentRoutes(t: Tree, h: nat, k: u32)
    requires Valid(t, h) && k <= LastKey(t) && 0 < Size(t)
    ensures Search(NodeKeys(t), k) < Size(t)
    ensures t.Inner? ==> Route(t.kids, k) == Search(NodeKeys(t), k) && k <= t.kids[Route(t.kids, k)].sep
  {
    hide Bisect, Search, Wf, Sorted, Flat;
    assert NodeKeys(t)[Size(t) - 1] == LastKey(t);
  }

  lemma PresentBelowLast(t: Tree, h: nat, k: u32)
    requires Valid(t, h) && HasKey(Flat(t), k)
    ensures 0 < Size(t) && k <= LastKey(t)
  {
    FirstIsHead(t, h);
    FlatLast(t, h);
  }

  // ---- contents

  lemma FlatJoin(t: Tree, u: Tree)
    requires t.Leaf? <==> u.Leaf?
    ensures Flat(Join(t, u)) == Flat(t) + Flat(u)
    ensures Size(Join(t, u)) == Size(t) + Size(u)
  {
    if t.Inner? {
      FlatKidsConcat(t.kids, u.kids);
    }
  }

  /** Two neighbouring children, replaced by two others with the same contents or by one. */
  lemma FlatAroundTwo(kids: seq<Kid>, i: nat, x: Tree, y: Tree)
    requires i + 1 < |kids|
    ensures FlatKids(kids[i := MakeKid(x)][i + 1 := MakeKid(y)])
         == FlatKids(kids[..i]) + (Flat(x) + Flat(y)) + FlatKids(kids[i + 2..])
  {
    var after := kids[i := MakeKid(x)][i + 1 := MakeKid(y)];
    assert after == kids[..i] + [MakeKid(x), MakeKid(y)] + kids[i + 2..];
    FlatKidsConcat(kids[..i] + [MakeKid(x), MakeKid(y)], kids[i + 2..]);
    FlatKidsConcat(kids[..i], [MakeKid(x), MakeKid(y)]);
    FlatKidsTwo(MakeKid(x), MakeKid(y));
  }

  lemma FlatMerged(kids: seq<Kid>, i: nat, x: Tree)
    requires i + 1 < |kids|
    ensures FlatKids(kids[..i] + [MakeKid(x)] + kids[i + 2..])
         == FlatKids(kids[..i]) + Flat(x) + FlatKids(kids[i + 2..])
  {
    FlatKidsConcat(kids[..i] + [MakeKid(x)], kids[i + 2..]);
    FlatKidsConcat(kids[..i], [MakeKid(x)]);
    FlatKidsOne(MakeKid(x));
  }

  /** Child i, and child i + 1, seen as one stretch of the contents. */
  lemma FlatPair(kids: seq<Kid>, i: nat, x: Tree)
    requires i + 1 < |kids|
    ensures FlatKids(kids[..i]) + Flat(x) + FlatKids(kids[i + 1..])
         == FlatKids(kids[..i]) + (Flat(x) + Flat(kids[i + 1].sub)) + FlatKids(kids[i + 2..])
    ensures FlatKids(kids[..i + 1]) + Flat(x) + FlatKids(kids[i + 2..])
         == FlatKids(kids[..i]) + (Flat(kids[i].sub) + Flat(x)) + FlatKids(kids[i + 2..])
  {
    assert kids[i + 1..] == [kids[i + 1]] + kids[i + 2..];
    FlatKidsConcat([kids[i + 1]], kids[i + 2..]);
    FlatKidsOne(kids[i + 1]);
    FlatSnoc(kids, i);
    Regroup(FlatKids(kids[..i]), Flat(x), Flat(kids[i + 1].sub), FlatKids(kids[i + 2..]));
    Regroup(FlatKids(kids[..i]), Flat(kids[i].sub), Flat(x), FlatKids(kids[i + 2..]));
  }

  /** The helper of child b can lend an entry, or the two together fit one node. */
  predicate HelperFits(kids: seq<Kid>, b: nat, x: Tree)
    requires 1 < |kids| && b < |kids|
  {
    var u := kids[Helper(|kids|, b)].sub;
    Size(u) <= SPLIT ==> Size(x) + Size(u) <= SIZE
  }

  /** A steal, or a merge that fits its node, moves entries between neighbours and changes no contents. */
  lemma RefillKeepsFlat(kids: seq<Kid>, b: nat, r: PopResult)
    requires 1 < |kids| && b < |kids| && HelperFits(kids, b, r.tree)
    requires r.tree.Leaf? <==> kids[Helper(|kids|, b)].sub.Leaf?
    ensures Flat(Refill(kids, b, r).tree) == FlatKids(kids[..b]) + Flat(r.tree) + FlatKids(kids[b + 1..])
  {
    var other := Helper(|kids|, b);
    var t, u := r.tree, kids[other].sub;
    var n := if other < b then Size(u) - 1 else 1;
    if Size(u) > SPLIT {
      FlatTakeDrop(u, n);
    }
    if other < b {
      FlatPair(kids, other, t);
      RefillLeft(kids, b, r, n);
    } else {
      FlatPair(kids, b, t);
      RefillRight(kids, b, r);
    }
  }

  lemma RefillLeft(kids: seq<Kid>, b: nat, r: PopResult, n: int)
    requires 1 < |kids| && 0 < b < |kids| && Helper(|kids|, b) == b - 1 && HelperFits(kids, b, r.tree)
    requires r.tree.Leaf? <==> kids[b - 1].sub.Leaf?
    requires n == Size(kids[b - 1].sub) - 1
    ensures Flat(Refill(kids, b, r).tree)
         == FlatKids(kids[..b - 1]) + (Flat(kids[b - 1].sub) + Flat(r.tree)) + FlatKids(kids[b + 1..])
  {
    FlatIsKids(Refill(kids, b, r).tree);
    hide FlatKids, Flat;
    var t, u := r.tree, kids[b - 1].sub;
    if Size(u) > SPLIT {
      StealLeft(kids, b, t, n);
    } else {
      FlatJoin(u, t);
      FlatMerged(kids, b - 1, Join(u, t));
    }
  }

  lemma StealLeft(kids: seq<Kid>, b: nat, t: Tree, n: nat)
    requires 0 < b < |kids| && n <= Size(kids[b - 1].sub)
    requires t.Leaf? <==> kids[b - 1].sub.Leaf?
    ensures var u := kids[b - 1].sub;
            FlatKids(kids[b := MakeKid(Join(Drop(u, n), t))][b - 1 := MakeKid(Take(u, n))]) ==
            FlatKids(kids[..b - 1]) + (Flat(u) + Flat(t)) + FlatKids(kids[b + 1..])
  {
    hide FlatKids, Flat;
    var u := kids[b - 1].sub;
    FlatTakeDrop(u, n);
    FlatJoin(Drop(u, n), t);
    FlatAroundTwo(kids, b - 1, Take(u, n), Join(Drop(u, n), t));
    UpdatesCommute(kids, b, MakeKid(Join(Drop(u, n), t)), b - 1, MakeKid(Take(u, n)));
  }

  lemma UpdatesCommute<T>(s: seq<T>, i: nat, x: T, j: nat, y: T)
    requires i < |s| && j < |s| && i != j
    ensures s[i := x][j := y] == s[j := y][i := x]
  {
  }

  lemma RefillRight(kids: seq<Kid>, b: nat, r: PopResult)
    requires 1 < |kids| && b < |kids| && Helper(|kids|, b) == b + 1 && HelperFits(kids, b, r.tree)
    requires r.tree.Leaf? <==> kids[b + 1].sub.Leaf?
    ensures Flat(Refill(kids, b, r).tree)
         == FlatKids(kids[..b]) + (Flat(r.tree) + Flat(kids[b + 1].sub)) + FlatKids(kids[b + 2..])
  {
    FlatIsKids(Refill(kids, b, r).tree);
    hide FlatKids, Flat;
    var t, u := r.tree, kids[b + 1].sub;
    if Size(u) > SPLIT {
      FlatTakeDrop(u, 1);
      FlatJoin(t, Take(u, 1));
      FlatAroundTwo(kids, b, Join(t, Take(u, 1)), Drop(u, 1));
    } else {
      FlatJoin(t, u);
      FlatMerged(kids, b, Join(t, u));
    }
  }

  /** What Refill is given in a well-formed node: neighbours of one kind. */
  lemma RefillKinds(t: Tree, h: nat, b: nat, k: u32)
    requires Wf(t, h) && t.Inner? && 1 < |t.kids| && b < |t.kids|
    ensures PopT(t.kids[b].sub, k).tree.Leaf? <==> t.kids[Helper(|t.kids|, b)].sub.Leaf?
  {
    KidWf(t, h, b);
    KidWf(t, h, Helper(|t.kids|, b));
    PopKeepsKind(t.kids[b].sub, k);
  }

  lemma PopKeepsKind(t: Tree, k: u32)
    ensures PopT(t, k).tree.Leaf? <==> t.Leaf?
  {
  }

  /** The routed child decides whether a key is stored. */
  lemma KeyInKid(t: Tree, h: nat, k: u32)
    requires Valid(t, h) && t.Inner?
    ensures HasKey(Flat(t), k) <==> HasKey(Within(t, k), k)
  {
    RouteFlat(t, h, k);
    RouteOwns(t, h, k);
    LookupSplice(Before(t, k), Within(t, k), After(t, k), k);
    SplitAtLowerBound(Flat(t), k);
    SplitAtLowerBound(Within(t, k), k);
  }

  lemma FlatReplaceKid(kids: seq<Kid>, b: nat, sep: u32, u: Tree)
    requires b < |kids|
    ensures FlatKids(kids[b := Kid(sep, u)]) == FlatKids(kids[..b]) + Flat(u) + FlatKids(kids[b + 1..])
  {
    var after := kids[b := Kid(sep, u)];
    FlatAround(after, b);
    assert after[..b] == kids[..b] && after[b + 1..] == kids[b + 1..];
  }

  // ---- the result code

  lemma RefillOutcome(kids: seq<Kid>, b: nat, r: PopResult)
    requires 1 < |kids| && b < |kids|
    ensures var lend := Size(kids[Helper(|kids|, b)].sub) > SPLIT;
            var s := Refill(kids, b, r);
            && s.code == (if lend then Ok else if HelperFits(kids, b, r.tree) then Empty else Overrun)
            && (s.code != Overrun ==> Size(s.tree) == if lend then |kids| else |kids| - 1)
            && s.value == (if lend || (s.code == Empty && |kids| <= SPLIT) then r.value else 0)
  {
  }

  /** Children i and i + 1 of a node hold what x and y held, n entries of it in the first; no other child changed. */
  ghost predicate Redealt(kids: seq<Kid>, after: seq<Kid>, i: nat, x: Tree, y: Tree, n: nat) {
    && i + 1 < |after| == |kids| && after[..i] == kids[..i] && after[i + 2..] == kids[i + 2..]
    && Size(after[i].sub) == n && Size(after[i].sub) + Size(after[i + 1].sub) == Size(x) + Size(y)
    && Flat(after[i].sub) + Flat(after[i + 1].sub) == Flat(x) + Flat(y)
  }

  /** Children i and i + 1 became one child with all that x and y held; no other child changed. */
  ghost predicate Fused(kids: seq<Kid>, after: seq<Kid>, i: nat, x: Tree, y: Tree) {
    && i + 1 < |kids| == |after| + 1 && after[..i] == kids[..i] && after[i + 1..] == kids[i + 2..]
    && Size(after[i].sub) == Size(x) + Size(y) && Flat(after[i].sub) == Flat(x) + Flat(y)
  }

  lemma RedealtIs(kids: seq<Kid>, i: nat, l: Tree, r: Tree, x: Tree, y: Tree)
    requires i + 1 < |kids| && Size(l) + Size(r) == Size(x) + Size(y) && Flat(l) + Flat(r) == Flat(x) + Flat(y)
    ensures Redealt(kids, kids[i := MakeKid(l)][i + 1 := MakeKid(r)], i, x, y, Size(l))
  {
    hide Flat, Size, LastKey;
  }

  lemma FusedIs(kids: seq<Kid>, i: nat, x: Tree, y: Tree)
    requires i + 1 < |kids| && (x.Leaf? <==> y.Leaf?)
    ensures Fused(kids, kids[..i] + [MakeKid(Join(x, y))] + kids[i + 2..], i, x, y)
  {
    FlatJoin(x, y);
    hide Flat, Size, LastKey, Join;
  }

  /** Moving the first entry of u to the end of x, and moving the last one of u to the front of x. */
  lemma FirstMoves(kids: seq<Kid>, b: nat, x: Tree)
    requires b + 1 < |kids| && 0 < Size(kids[b + 1].sub) && (x.Leaf? <==> kids[b + 1].sub.Leaf?)
    ensures var u := kids[b + 1].sub;
            Redealt(kids, kids[b := MakeKid(Join(x, Take(u, 1)))][b + 1 := MakeKid(Drop(u, 1))], b, x, u, Size(x) + 1)
  {
    var u := kids[b + 1].sub;
    FlatTakeDrop(u, 1);
    FlatJoin(x, Take(u, 1));
    RedealtIs(kids, b, Join(x, Take(u, 1)), Drop(u, 1), x, u);
    hide Redealt, Flat;
  }

  lemma LastMoves(kids: seq<Kid>, b: nat, x: Tree)
    requires 0 < b < |kids| && 0 < Size(kids[b - 1].sub) && (x.Leaf? <==> kids[b - 1].sub.Leaf?)
    ensures var u := kids[b - 1].sub;
            var n := Size(u) - 1;
            Redealt(kids, kids[b := MakeKid(Join(Drop(u, n), x))][b - 1 := MakeKid(Take(u, n))], b - 1, u, x, n)
  {
    var u := kids[b - 1].sub;
    var n := Size(u) - 1;
    FlatTakeDrop(u, n);
    FlatJoin(Drop(u, n), x);
    RedealtIs(kids, b - 1, Take(u, n), Join(Drop(u, n), x), u, x);
    UpdatesCommute(kids, b, MakeKid(Join(Drop(u, n), x)), b - 1, MakeKid(Take(u, n)));
    hide Redealt, Flat;
  }

  lemma RefillFromRight(kids: seq<Kid>, b: nat, r: PopResult)
    requires b + 1 < |kids| && (r.tree.Leaf? <==> kids[b + 1].sub.Leaf?)
    ensures var u, s := kids[b + 1].sub, Refill(kids, b, r);
            && (s.code == Ok <==> SPLIT < Size(u)) && s.tree.Inner?
            && (s.code == Ok ==> s.value == r.value && Redealt(kids, s.tree.kids, b, r.tree, u, Size(r.tree) + 1))
            && (s.code == Empty ==> Fused(kids, s.tree.kids, b, r.tree, u))
  {
    hide Flat, Redealt, Fused, Join, Take, Drop, MakeKid;
    if SPLIT < Size(kids[b + 1].sub) {
      FirstMoves(kids, b, r.tree);
    } else {
      FusedIs(kids, b, r.tree, kids[b + 1].sub);
    }
  }

  lemma RefillFromLeft(kids: seq<Kid>, b: nat, r: PopResult)
    requires 0 < b == |kids| - 1 && (r.tree.Leaf? <==> kids[b - 1].sub.Leaf?)
    ensures var u, s := kids[b - 1].sub, Refill(kids, b, r);
            && (s.code == Ok <==> SPLIT < Size(u)) && s.tree.Inner?
            && (s.code == Ok ==> s.value == r.value && Redealt(kids, s.tree.kids, b - 1, u, r.tree, Size(u) - 1))
            && (s.code == Empty ==> Fused(kids, s.tree.kids, b - 1, u, r.tree))
  {
    hide Flat, Redealt, Fused, Join, Take, Drop, MakeKid;
    if SPLIT < Size(kids[b - 1].sub) {
      LastMoves(kids, b, r.tree);
    } else {
      FusedIs(kids, b - 1, kids[b - 1].sub, r.tree);
    }
  }

  /**
   Child b reports EMPTY and is not the last one: the child behind it helps, with its first entry if it has more than
   SPLIT, otherwise with all it has.
   */
  lemma RightNeighbourHelps(t: Tree, h: nat, k: u32, b: nat)
    requires Wf(t, h) && t.Inner? && b == Search(NodeKeys(t), k) && b + 1 < |t.kids|
    requires PopT(t.kids[b].sub, k).code == Empty
    ensures var r, u, s := PopT(t.kids[b].sub, k), t.kids[b + 1].sub, PopT(t, k);
            && (s.code == Ok <==> SPLIT < Size(u)) && s.tree.Inner?
            && (s.code == Ok ==> s.value == r.value && Redealt(t.kids, s.tree.kids, b, r.tree, u, Size(r.tree) + 1))
            && (s.code == Empty ==> Fused(t.kids, s.tree.kids, b, r.tree, u))
  {
    RefillKinds(t, h, b, k);
    PopUnfolds(t, k, b);
    hide PopT, Search, Wf, Refill, Size, Redealt, Fused;
    RefillFromRight(t.kids, b, PopT(t.kids[b].sub, k));
  }

  /** The last child is helped by the one before it, with its last entry or with all it has. */
  lemma LeftNeighbourHelps(t: Tree, h: nat, k: u32, b: nat)
    requires Wf(t, h) && t.Inner? && b == Search(NodeKeys(t), k) && 0 < b == |t.kids| - 1
    requires PopT(t.kids[b].sub, k).code == Empty
    ensures var r, u, s := PopT(t.kids[b].sub, k), t.kids[b - 1].sub, PopT(t, k);
            && (s.code == Ok <==> SPLIT < Size(u)) && s.tree.Inner?
            && (s.code == Ok ==> s.value == r.value && Redealt(t.kids, s.tree.kids, b - 1, u, r.tree, Size(u) - 1))
            && (s.code == Empty ==> Fused(t.kids, s.tree.kids, b - 1, u, r.tree))
  {
    RefillKinds(t, h, b, k);
    PopUnfolds(t, k, b);
    hide PopT, Search, Wf, Refill, Size, Redealt, Fused;
    RefillFromLeft(t.kids, b, PopT(t.kids[b].sub, k));
  }

  /** A pop that succeeds at a node takes away at most one of its entries. */
  lemma PopShrinks(t: Tree, k: u32)
    ensures PopT(t, k).code == Ok ==> 0 < Size(PopT(t, k).tree)
    ensures PopT(t, k).code == Empty ==> Size(PopT(t, k).tree) + 1 == Size(t)
  {
    hide PopT;
    PopShrinksStep(t, k);
  }

  lemma PopShrinksStep(t: Tree, k: u32)
    ensures PopT(t, k).code == Ok ==> 0 < Size(PopT(t, k).tree)
    ensures PopT(t, k).code == Empty ==> Size(PopT(t, k).tree) + 1 == Size(t)
  {
    if t.Inner? && Search(NodeKeys(t), k) < |t.kids| && |t.kids| > 1 {
      RefillOutcome(t.kids, Search(NodeKeys(t), k), PopT(t.kids[Search(NodeKeys(t), k)].sub, k));
    }
  }

  /** The result code of popping a stored key, read off the sizes on its path. */
  function PopCode(t: Tree, k: u32): Code {
    if !MergeFits(t, k) then Overrun
    else if ReportsEmpty(t, k) then Empty
    else if RunsDry(t, k) then ReallyEmpty
    else Ok
  }

  lemma {:induction false} PopCodeIs(t: Tree, h: nat, k: u32)
    requires Valid(t, h) && HasKey(Flat(t), k)
    ensures PopT(t, k).code == PopCode(t, k)
    decreases h
  {
    PresentBelowLast(t, h, k);
    PresentRoutes(t, h, k);
    if t.Inner? {
      var b := Route(t.kids, k);
      KeyInKid(t, h, k);
      KidValid(t, h, b);
      PopCodeIs(t.kids[b].sub, h - 1, k);
      PopShrinks(t.kids[b].sub, k);
      PopUnfolds(t, k, b);
      hide PopT, Valid, HasKey, Flat, Refill;
      PopCodeInner(t, k, b);
    } else {
      SplitAtLowerBound(t.es, k);
      SearchSorted(t.es, k);
    }
  }

  lemma PopCodeInner(t: Tree, k: u32, b: nat)
    requires t.Inner? && b < |t.kids| && b == Route(t.kids, k) == Search(NodeKeys(t), k)
    requires PopT(t.kids[b].sub, k).code == PopCode(t.kids[b].sub, k)
    requires SPLIT <= Size(t.kids[b].sub)
    requires PopT(t.kids[b].sub, k).code == Empty ==> Size(PopT(t.kids[b].sub, k).tree) + 1 == Size(t.kids[b].sub)
    ensures PopT(t, k).code == PopCode(t, k)
  {
    var r := PopT(t.kids[b].sub, k);
    PopUnfolds(t, k, b);
    hide PopT, Refill;
    if |t.kids| > 1 {
      RefillOutcome(t.kids, b, r);
    }
  }

  // ---- contents

  /** Popping a stored key removes that key and nothing else, through every steal and every merge that fits. */
  lemma {:induction false} PopDeletes(t: Tree, h: nat, k: u32)
    requires Valid(t, h) && HasKey(Flat(t), k) && MergeFits(t, k)
    ensures Flat(PopT(t, k).tree) == Delete(Flat(t), k)
    decreases h
  {
    PresentBelowLast(t, h, k);
    PresentRoutes(t, h, k);
    if t.Inner? {
      RouteFlat(t, h, k);
      RouteOwns(t, h, k);
      KeyInKid(t, h, k);
      KidValid(t, h, Route(t.kids, k));
      PopDeletes(t.kids[Route(t.kids, k)].sub, h - 1, k);
      DeleteSplice(Before(t, k), Within(t, k), After(t, k), k);
      ChildFits(t, h, k);
      PopInnerFlat(t, h, k);
    } else {
      SplitAtLowerBound(t.es, k);
      SearchSorted(t.es, k);
    }
  }

  /** A child that reports EMPTY fits its helper. */
  ghost predicate EmptyFits(kids: seq<Kid>, b: nat, r: PopResult)
    requires b < |kids|
  {
    r.code == Empty && |kids| > 1 ==> HelperFits(kids, b, r.tree)
  }

  lemma ChildFits(t: Tree, h: nat, k: u32)
    requires Valid(t, h) && t.Inner? && t.kids != [] && HasKey(Flat(t), k) && MergeFits(t, k)
    ensures var b := Route(t.kids, k); EmptyFits(t.kids, b, PopT(t.kids[b].sub, k))
  {
    var sub := t.kids[Route(t.kids, k)].sub;
    KeyInKid(t, h, k);
    KidValid(t, h, Route(t.kids, k));
    PopCodeIs(sub, h - 1, k);
    PopShrinks(sub, k);
    hide PopT, Valid, HasKey, Flat;
  }

  /** At an internal node pop changes the contents of the routed child only. */
  lemma PopInnerFlat(t: Tree, h: nat, k: u32)
    requires Wf(t, h) && t.Inner? && t.kids != []
    requires Route(t.kids, k) == Search(NodeKeys(t), k)
    requires EmptyFits(t.kids, Route(t.kids, k), PopT(t.kids[Route(t.kids, k)].sub, k))
    ensures Flat(PopT(t, k).tree) == Before(t, k) + Flat(PopT(t.kids[Route(t.kids, k)].sub, k).tree) + After(t, k)
  {
    hide PopT, FlatKids, Flat, Wf, Search, Route, Refill;
    var b := Route(t.kids, k);
    var r := PopT(t.kids[b].sub, k);
    FlatIsKids(PopT(t, k).tree);
    PopUnfolds(t, k, b);
    if r.code == Empty && |t.kids| > 1 {
      RefillKinds(t, h, b, k);
      RefillKeepsFlat(t.kids, b, r);
    } else {
      FlatReplaceKid(t.kids, b, if r.code == Ok then LastKey(r.tree) else t.kids[b].sep, r.tree);
    }
  }

  // ---- shape and value

  /** What a pop whose merges fit promises its caller about the node it worked on. */
  ghost predicate Popped(t: Tree, h: nat, k: u32, r: PopResult) {
    && Wf(r.tree, h)
    && Size(r.tree) <= Size(t) <= Size(r.tree) + 1
    && (!ReportsEmpty(t, k) && SPLIT <= Size(t) ==> SPLIT <= Size(r.tree))
  }

  lemma JoinWf(t: Tree, u: Tree, h: nat)
    requires Wf(t, h) && Wf(u, h) && Size(t) + Size(u) <= SIZE
    ensures Wf(Join(t, u), h) && Size(Join(t, u)) == Size(t) + Size(u)
  {
  }

  lemma MergedWf(t: Tree, h: nat, i: nat, x: Tree)
    requires Wf(t, h) && t.Inner? && i + 1 < |t.kids|
    requires h > 0 && Wf(x, h - 1) && SPLIT <= Size(x)
    ensures Wf(Inner(t.kids[..i] + [MakeKid(x)] + t.kids[i + 2..]), h)
  {
  }

  /** Refilling a child at most one entry short from a well-formed neighbour restores the node. */
  lemma RefillKeepsWf(t: Tree, h: nat, b: nat, r: PopResult)
    requires Wf(t, h) && t.Inner? && 1 < |t.kids| && b < |t.kids| && HelperFits(t.kids, b, r.tree)
    requires Wf(r.tree, h - 1) && SPLIT - 1 <= Size(r.tree) < SIZE
    ensures Wf(Refill(t.kids, b, r).tree, h)
  {
    var other := Helper(|t.kids|, b);
    var x, u := r.tree, t.kids[other].sub;
    KidWf(t, h, other);
    hide Wf;
    if Size(u) > SPLIT {
      StealKeepsWf(t, h, b, x);
    } else if other < b {
      JoinWf(u, x, h - 1);
      MergedWf(t, h, other, Join(u, x));
    } else {
      JoinWf(x, u, h - 1);
      MergedWf(t, h, b, Join(x, u));
    }
  }

  lemma StealKeepsWf(t: Tree, h: nat, b: nat, x: Tree)
    requires Wf(t, h) && t.Inner? && 1 < |t.kids| && b < |t.kids|
    requires h > 0 && Wf(x, h - 1) && SPLIT - 1 <= Size(x) < SIZE
    requires Size(t.kids[Helper(|t.kids|, b)].sub) > SPLIT
    ensures var other := Helper(|t.kids|, b);
            var u := t.kids[other].sub;
            var n := Size(u) - 1;
            if other < b then
              Wf(Inner(t.kids[b := MakeKid(Join(Drop(u, n), x))][other := MakeKid(Take(u, n))]), h)
            else
              Wf(Inner(t.kids[b := MakeKid(Join(x, Take(u, 1)))][other := MakeKid(Drop(u, 1))]), h)
  {
    hide Wf;
    var other := Helper(|t.kids|, b);
    var u := t.kids[other].sub;
    KidWf(t, h, other);
    var n := if other < b then Size(u) - 1 else 1;
    TakeDropWf(u, h - 1, n);
    var x' := if other < b then Join(Drop(u, n), x) else Join(x, Take(u, 1));
    if other < b { JoinWf(Drop(u, n), x, h - 1); } else { JoinWf(x, Take(u, 1), h - 1); }
    ReplaceWf(t, h, b, x');
    ReplaceWf(Inner(t.kids[b := MakeKid(x')]), h, other, if other < b then Take(u, n) else Drop(u, 1));
  }

  /** A pop whose merges fit and whose root has help at hand keeps depth, separators and fill. */
  lemma {:induction false} PopKeepsWf(t: Tree, h: nat, k: u32)
    requires Valid(t, h) && HasKey(Flat(t), k) && MergeFits(t, k) && !RunsDry(t, k)
    ensures Popped(t, h, k, PopT(t, k))
    decreases h
  {
    PresentBelowLast(t, h, k);
    PresentRoutes(t, h, k);
    if t.Inner? {
      var b := Route(t.kids, k);
      KeyInKid(t, h, k);
      KidValid(t, h, b);
      PopCodeIs(t.kids[b].sub, h - 1, k);
      PopKeepsWf(t.kids[b].sub, h - 1, k);
      ChildFits(t, h, k);
      PopShrinks(t.kids[b].sub, k);
      PopInnerWf(t, h, k, b);
    } else {
      SplitAtLowerBound(t.es, k);
      SearchSorted(t.es, k);
    }
  }

  lemma PopInnerWf(t: Tree, h: nat, k: u32, b: nat)
    requires Wf(t, h) && t.Inner? && h > 0 && b < |t.kids| && b == Route(t.kids, k) == Search(NodeKeys(t), k)
    requires MergeFits(t, k) && !RunsDry(t, k)
    requires var sub := t.kids[b].sub; Popped(sub, h - 1, k, PopT(sub, k)) && PopT(sub, k).code == PopCode(sub, k)
    requires EmptyFits(t.kids, b, PopT(t.kids[b].sub, k))
    ensures Popped(t, h, k, PopT(t, k))
  {
    var sub := t.kids[b].sub;
    var r := PopT(sub, k);
    KidWf(t, h, b);
    PopUnfolds(t, k, b);
    PopShrinks(sub, k);
    hide Wf, PopT, Refill;
    if ReportsEmpty(sub, k) {
      RefillKeepsWf(t, h, b, r);
      RefillOutcome(t.kids, b, r);
    } else {
      ReplaceWf(t, h, b, r.tree);
    }
  }

  /** A merge-safe pop returns the value. */
  lemma {:induction false} SafePopWorks(t: Tree, h: nat, k: u32)
    requires Valid(t, h) && HasKey(Flat(t), k) && MergeSafe(t, k)
    ensures Some(PopT(t, k).value) == Lookup(Flat(t), k)
    ensures PopT(t, k).code == (if ReportsEmpty(t, k) then Empty else Ok)
    decreases h
  {
    PopCodeIs(t, h, k);
    SafePopFits(t, k);
    PresentBelowLast(t, h, k);
    PresentRoutes(t, h, k);
    if t.Inner? {
      var b := Route(t.kids, k);
      KeyInKid(t, h, k);
      KidValid(t, h, b);
      SafePopWorks(t.kids[b].sub, h - 1, k);
      RouteFlat(t, h, k);
      RouteOwns(t, h, k);
      LookupSplice(Before(t, k), Within(t, k), After(t, k), k);
      hide Valid, HasKey, Flat, Lookup;
      SafePopInner(t, k, b);
    } else {
      SplitAtLowerBound(t.es, k);
      SearchSorted(t.es, k);
    }
  }

  lemma SafePopInner(t: Tree, k: u32, b: nat)
    requires t.Inner? && b < |t.kids| && b == Route(t.kids, k) == Search(NodeKeys(t), k) && MergeSafe(t, k)
    requires PopT(t.kids[b].sub, k).code == (if ReportsEmpty(t.kids[b].sub, k) then Empty else Ok)
    requires PopT(t, k).code == (if ReportsEmpty(t, k) then Empty else Ok)
    ensures PopT(t, k).value == PopT(t.kids[b].sub, k).value
  {
    PopUnfolds(t, k, b);
    hide PopT, Refill;
    if |t.kids| > 1 {
      RefillOutcome(t.kids, b, PopT(t.kids[b].sub, k));
    }
  }

  /** An unsafe pop loses the value it removed: the caller reads 0. */
  lemma {:induction false} UnsafePopLoses(t: Tree, h: nat, k: u32)
    requires Valid(t, h) && HasKey(Flat(t), k) && !MergeSafe(t, k)
    ensures PopT(t, k).value == 0
    decreases h
  {
    PresentBelowLast(t, h, k);
    PresentRoutes(t, h, k);
    var b := Route(t.kids, k);
    var sub := t.kids[b].sub;
    KeyInKid(t, h, k);
    KidValid(t, h, b);
    if MergeSafe(sub, k) {
      SafePopWorks(sub, h - 1, k);
    } else {
      UnsafePopLoses(sub, h - 1, k);
    }
    UnsafePopInner(t, k);
  }

  lemma UnsafePopInner(t: Tree, k: u32)
    requires t.Inner? && t.kids != [] && !MergeSafe(t, k)
    requires Route(t.kids, k) == Search(NodeKeys(t), k)
    requires var sub := t.kids[Route(t.kids, k)].sub;
             if MergeSafe(sub, k) then PopT(sub, k).code == (if ReportsEmpty(sub, k) then Empty else Ok)
             else PopT(sub, k).value == 0
    ensures PopT(t, k).value == 0
  {
    if |t.kids| > 1 {
      RefillOutcome(t.kids, Route(t.kids, k), PopT(t.kids[Route(t.kids, k)].sub, k));
    }
  }

  lemma UntouchedKid(kids: seq<Kid>, b: nat)
    requires b < |kids|
    ensures kids[b := Kid(kids[b].sep, kids[b].sub)] == kids
  {
    assert Kid(kids[b].sep, kids[b].sub) == kids[b];
  }

  /** A missing key not above the last one: INVALID_KEY, value 0, and nothing changes. */
  lemma {:induction false} PopAbsent(t: Tree, h: nat, k: u32)
    requires Valid(t, h) && !HasKey(Flat(t), k) && k <= LastKey(t)
    ensures PopT(t, k) == PopResult(InvalidKey, 0, t)
    decreases h
  {
    if t.Leaf? {
      LeafPopAbsent(t.es, k);
    } else {
      hide Wf, Sorted, HasKey, Flat, Search, Route, PopT;
      ShapeOf(t, h);
      var b := Route(t.kids, k);
      PresentRoutes(t, h, k);
      KidValid(t, h, b);
      KeyInKid(t, h, k);
      PopAbsent(t.kids[b].sub, h - 1, k);
      UntouchedKid(t.kids, b);
      PopUnfolds(t, k, b);
    }
  }

  lemma LeafPopAbsent(es: seq<Slot>, k: u32)
    requires Sorted(es) && !HasKey(es, k)
    ensures PopT(Leaf(es), k) == PopResult(InvalidKey, 0, Leaf(es))
  {
    SplitAtLowerBound(es, k);
    SearchSorted(es, k);
    hide Sorted, HasKey, Search, LowerBound;
  }

  /** A safe pop never merges more than SIZE entries into one node, nor does it run dry. */
  lemma {:induction false} SafePopFits(t: Tree, k: u32)
    requires MergeSafe(t, k)
    ensures MergeFits(t, k) && !RunsDry(t, k)
    ensures ReportsEmpty(t, k) ==> Size(t) <= SPLIT
    decreases t
  {
    if t.Inner? {
      SafePopFits(t.kids[Route(t.kids, k)].sub, k);
    }
  }

  // ---- what a pop below an internal node needs

  /** The searches on the way of a pop all end inside their node. */
  predicate InReach(t: Tree, k: u32)
    decreases t
  {
    var b := Search(NodeKeys(t), k);
    b < Size(t) && (t.Inner? ==> InReach(t.kids[b].sub, k))
  }

  /** What a pop over blocks needs: it reads no entry behind the last one of a node and overruns none. */
  ghost predicate PopReady(t: Tree, k: u32) {
    InReach(t, k) && PopT(t, k).code != Overrun
  }

  /** In a valid tree, pops of keys not above the last one are ready: missing keys, and stored ones whose merges fit. */
  lemma ReadyToPop(t: Tree, h: nat, k: u32)
    requires Valid(t, h) && 0 < Size(t) && k <= LastKey(t)
    requires HasKey(Flat(t), k) ==> MergeFits(t, k)
    ensures PopReady(t, k)
  {
    InReachOf(t, h, k);
    if HasKey(Flat(t), k) {
      PopCodeIs(t, h, k);
    } else {
      PopAbsent(t, h, k);
    }
  }

  lemma {:induction false} InReachOf(t: Tree, h: nat, k: u32)
    requires Valid(t, h) && 0 < Size(t) && k <= LastKey(t)
    ensures InReach(t, k)
    decreases h
  {
    PresentRoutes(t, h, k);
    if t.Inner? {
      KidValid(t, h, Route(t.kids, k));
      InReachOf(t.kids[Route(t.kids, k)].sub, h - 1, k);
    }
  }

  /** Readiness of the child searched next, and what the node becomes for each result of the child. */
  lemma PopFacts(t: Tree, h: nat, k: u32)
    requires Wf(t, h) && t.Inner? && PopReady(t, k)
    ensures h > 0 && Search(NodeKeys(t), k) < |t.kids|
    ensures var b := Search(NodeKeys(t), k);
            Wf(t.kids[b].sub, h - 1) && PopReady(t.kids[b].sub, k)
    ensures PopCases(t, k, Search(NodeKeys(t), k))
  {
    var b := Search(NodeKeys(t), k);
    KidSize(t, h, b);
    PopShrinks(t.kids[b].sub, k);
    PopUnfolds(t, k, b);
    if |t.kids| > 1 {
      RefillOutcome(t.kids, b, PopT(t.kids[b].sub, k));
      RefillKinds(t, h, b, k);
      KidSize(t, h, Helper(|t.kids|, b));
    }
    hide Wf, Search, PopT, Refill;
    PopCasesHold(t, k, b);
  }

  lemma KidSize(t: Tree, h: nat, i: nat)
    requires Wf(t, h) && t.Inner? && i < |t.kids|
    ensures h > 0 && Wf(t.kids[i].sub, h - 1) && SPLIT <= Size(t.kids[i].sub) <= SIZE
  {
    KidWf(t, h, i);
  }

  /** The three ways a pop at an internal node goes on after the pop in child b. */
  ghost predicate PopCases(t: Tree, k: u32, b: nat)
    requires t.Inner? && b < |t.kids|
  {
    var kids := t.kids;
    var r := PopT(kids[b].sub, k);
    && (r.code == Ok ==>
          0 < Size(r.tree) && PopT(t, k) == PopResult(Ok, r.value, Inner(kids[b := MakeKid(r.tree)])))
    && (r.code == Empty && |kids| > 1 ==>
          RefillReady(kids, b, r.tree) && PopT(t, k) == Refill(kids, b, r))
    && (r.code != Ok && !(r.code == Empty && |kids| > 1) ==>
          PopT(t, k) == PopResult(if r.code == Empty then ReallyEmpty else r.code, 0,
                                  Inner(kids[b := Kid(kids[b].sep, r.tree)])))
  }

  /** What a refill of child b, which became x, needs to know about the sizes and kinds involved. */
  ghost predicate RefillReady(kids: seq<Kid>, b: nat, x: Tree) {
    && 1 < |kids| && b < |kids|
    && var u := kids[Helper(|kids|, b)].sub;
    && (x.Leaf? <==> u.Leaf?)
    && 0 < Size(x) < SIZE && 0 < Size(u) <= SIZE && HelperFits(kids, b, x)
  }

  lemma PopCasesHold(t: Tree, k: u32, b: nat)
    requires t.Inner? && t.kids != []
    requires b == Search(NodeKeys(t), k) < |t.kids|
    requires ChildPopped(t.kids, b, PopT(t.kids[b].sub, k))
    ensures PopCases(t, k, b)
  {
    PopUnfolds(t, k, b);
    hide PopT;
  }

  ghost predicate ChildPopped(kids: seq<Kid>, b: nat, r: PopResult) {
    && b < |kids|
    && (r.code == Ok ==> 0 < Size(r.tree))
    && (r.code == Empty ==> Size(r.tree) + 1 == Size(kids[b].sub))
    && EmptyFits(kids, b, r)
    && SPLIT <= Size(kids[b].sub) <= SIZE
    && (|kids| > 1 ==>
          var u := kids[Helper(|kids|, b)].sub;
          (r.tree.Leaf? <==> u.Leaf?) && SPLIT <= Size(u) <= SIZE)
  }

  lemma PopUnfolds(t: Tree, k: u32, b: nat)
    requires t.Inner? && b == Search(NodeKeys(t), k) < |t.kids|
    ensures var r := PopT(t.kids[b].sub, k);
            PopT(t, k) ==
              (if r.code == Ok then PopResult(Ok, r.value, Inner(t.kids[b := MakeKid(r.tree)]))
               else if r.code == Empty && |t.kids| > 1 then Refill(t.kids, b, r)
               else PopResult(if r.code == Empty then ReallyEmpty else r.code, 0,
                              Inner(t.kids[b := Kid(t.kids[b].sep, r.tree)])))
  {
  }

  lemma UpdateTwice<T>(s: seq<T>, b: nat, x: T, y: T)
    requires b < |s|
    ensures s[b := x][b := y] == s[b := y]
  {
  }

  /** Storing the popped child before the refill changes nothing about the refill. */
  lemma RefillStored(kids: seq<Kid>, b: nat, r: PopResult)
    requires 1 < |kids| && b < |kids|
    ensures var kids1 := kids[b := Kid(kids[b].sep, r.tree)];
            && Refill(kids1, b, r) == Refill(kids, b, r)
            && (RefillReady(kids, b, r.tree) ==> RefillReady(kids1, b, r.tree))
  {
    var sep := kids[b].sep;
    var kids1 := kids[b := Kid(sep, r.tree)];
    var other := Helper(|kids|, b);
    var first := if other < b then other else b;
    assert kids1[..first] == kids[..first] && kids1[first + 2..] == kids[first + 2..];
    var u := kids[other].sub;
    if Size(u) > SPLIT {
      UpdateTwice(kids, b, Kid(sep, r.tree), MakeKid(Join(Drop(u, Size(u) - 1), r.tree)));
      UpdateTwice(kids, b, Kid(sep, r.tree), MakeKid(Join(r.tree, Take(u, 1))));
    } else {
      UpdateTwice(kids, b, Kid(sep, r.tree), Kid(sep, r.tree));
    }
  }

  /** A pop that reports an error below a node hands back 0 and leaves the keys of the node as they are. */
  lemma PopErrorKeepsKeys(t: Tree, k: u32)
    ensures PopT(t, k).code !in {Ok, Empty} ==>
              PopT(t, k).value == 0 && NodeKeys(PopT(t, k).tree) == NodeKeys(t)
  {
    var b := Search(NodeKeys(t), k);
    if t.Inner? && b < Size(t) {
      var r := PopT(t.kids[b].sub, k);
      PopUnfolds(t, k, b);
      hide PopT;
      var after := t.kids[b := Kid(t.kids[b].sep, r.tree)];
      assert Seps(after) == Seps(t.kids);
    }
  }

  // ---- main results

  /**
   For every valid tree and stored key, by what a caller can check before the call: the pop overruns a node if and only
   if one of its merges does not fit. If they all fit, exactly that key is removed from the contents, and the tree stays
   valid unless it runs dry. The value comes back (for a value other than 0) if and only if the pop is merge-safe.
   */
  lemma PopCorrectIff(t: Tree, h: nat, k: u32)
    requires Valid(t, h) && k in MapOf(Flat(t))
    ensures PopT(t, k).code == Overrun <==> !MergeFits(t, k)
    ensures MergeFits(t, k) ==>
              var r := PopT(t, k);
              && r.code == (if ReportsEmpty(t, k) then Empty else if RunsDry(t, k) then ReallyEmpty else Ok)
              && Sorted(Flat(r.tree)) && MapOf(Flat(r.tree)) == MapOf(Flat(t)) - {k}
              && (!RunsDry(t, k) ==> Valid(r.tree, h))
    ensures MapOf(Flat(t))[k] != 0 ==> (PopT(t, k).value == MapOf(Flat(t))[k] <==> MergeSafe(t, k))
    ensures MergeSafe(t, k) ==>
              && PopT(t, k).value == MapOf(Flat(t))[k] && MergeFits(t, k) && !RunsDry(t, k)
              && (PopT(t, k).code == Empty ==> Size(PopT(t, k).tree) < SPLIT)
  {
    MapOfKey(Flat(t), k);
    LookupMap(Flat(t), k);
    DeleteSorted(Flat(t), k);
    PopCodeIs(t, h, k);
    PopShrinks(t, k);
    if MergeFits(t, k) {
      PopDeletes(t, h, k);
      if !RunsDry(t, k) {
        PopKeepsWf(t, h, k);
      }
    }
    if MergeSafe(t, k) {
      SafePopWorks(t, h, k);
      SafePopFits(t, k);
    } else {
      UnsafePopLoses(t, h, k);
    }
    hide *;
  }
}
