/**
 Set: when it succeeds, what it keeps, and exactly when it stores the right map.
 */
module BTreeSet {
  import opened Words
  import opened SortedSlots
  import opened BTreeModel
  import opened BTreeSearch

  // ---- shape of the nodes that set builds

  lemma FlatReplace(kids: seq<Kid>, b: nat, u: Tree)
    requires b < |kids|
    ensures FlatKids(kids[b := MakeKid(u)]) == FlatKids(kids[..b]) + Flat(u) + FlatKids(kids[b + 1..])
  {
    var after := kids[b := MakeKid(u)];
    FlatAround(after, b);
    assert after[..b] == kids[..b] && after[b + 1..] == kids[b + 1..];
  }

  lemma FlatSplitKid(kids: seq<Kid>, b: nat, l: Tree, r: Tree)
    requires b < |kids|
    ensures Flat(SplitKid(kids, b, l, r)) == FlatKids(kids[..b]) + (Flat(l) + Flat(r)) + FlatKids(kids[b + 1..])
  {
    FlatKidsConcat(kids[..b] + [MakeKid(l), MakeKid(r)], kids[b + 1..]);
    FlatKidsConcat(kids[..b], [MakeKid(l), MakeKid(r)]);
    FlatKidsTwo(MakeKid(l), MakeKid(r));
  }

  lemma FlatKidsTwo(x: Kid, y: Kid)
    ensures FlatKids([x, y]) == Flat(x.sub) + Flat(y.sub)
  {
    assert [x, y] == [x] + [y];
    FlatKidsConcat([x], [y]);
    FlatKidsOne(x);
    FlatKidsOne(y);
  }

  lemma FlatTakeDrop(t: Tree, n: nat)
    requires n <= Size(t)
    ensures Flat(t) == Flat(Take(t, n)) + Flat(Drop(t, n))
  {
    match t
    case Leaf(es) => assert es == es[..n] + es[n..];
    case Inner(kids) =>
      assert kids == kids[..n] + kids[n..];
      FlatKidsConcat(kids[..n], kids[n..]);
  }

  lemma TakeDropWf(t: Tree, h: nat, n: nat)
    requires Wf(t, h) && 0 < n < Size(t)
    ensures Wf(Take(t, n), h) && Size(Take(t, n)) == n
    ensures Wf(Drop(t, n), h) && Size(Drop(t, n)) == Size(t) - n
  {
  }

  lemma ReplaceWf(t: Tree, h: nat, b: nat, u: Tree)
    requires Wf(t, h) && t.Inner? && b < |t.kids|
    requires h > 0 && Wf(u, h - 1) && SPLIT <= Size(u)
    ensures Wf(Inner(t.kids[b := MakeKid(u)]), h)
  {
  }

  lemma SplitKidWf(t: Tree, h: nat, b: nat, l: Tree, r: Tree)
    requires Wf(t, h) && t.Inner? && b < |t.kids| < SIZE
    requires h > 0 && Wf(l, h - 1) && SPLIT <= Size(l) && Wf(r, h - 1) && SPLIT <= Size(r)
    ensures Wf(SplitKid(t.kids, b, l, r), h)
  {
  }

  // ---- when set reports a full node

  /** One level of set at an internal node, by the outcome of the first attempt below it. */
  lemma SetStep(t: Tree, h: nat, k: u32, v: nat)
    requires t.Inner? && t.kids != [] && h > 0
    ensures var b := Route(t.kids, k);
            var sub := t.kids[b].sub;
            var r := SetT(sub, h - 1, k, v);
            var l, d := SetT(Take(sub, SPLIT), h - 1, k, v), SetT(Drop(sub, SPLIT), h - 1, k, v);
            SetT(t, h, k, v) ==
            if r.code == Ok then SetResult(Ok, Inner(t.kids[b := MakeKid(r.tree)]))
            else if r.code != Full || |t.kids| >= SIZE then SetResult(r.code, t)
            else if k <= t.kids[b].sep then SetResult(l.code, SplitKid(t.kids, b, l.tree, Drop(sub, SPLIT)))
            else SetResult(d.code, SplitKid(t.kids, b, Take(sub, SPLIT), d.tree))
  {
  }

  /** Set succeeds exactly unless the whole path is full; a failed set changes nothing; the retry never fails. */
  lemma {:induction false} SetFullIff(t: Tree, h: nat, k: u32, v: nat)
    requires Wf(t, h)
    ensures SetT(t, h, k, v).code == (if WouldFill(t, k) then Full else Ok)
    ensures WouldFill(t, k) ==> SetT(t, h, k, v).tree == t
    decreases h, 0
  {
    if t.Inner? {
      SetFullBelow(t, h, k, v);
      SetFullInner(t, h, k, v);
    }
  }

  lemma {:induction false} SetFullBelow(t: Tree, h: nat, k: u32, v: nat)
    requires Wf(t, h) && t.Inner?
    ensures var sub := t.kids[Route(t.kids, k)].sub;
            && h > 0
            && SetT(sub, h - 1, k, v).code == (if WouldFill(sub, k) then Full else Ok)
            && (WouldFill(sub, k) ==> HalvesWork(sub, h - 1, k, v))
    decreases h - 1, 2
  {
    hide HalvesWork, SetT, Route, WouldFill, Wf, Size;
    ShapeOf(t, h);
    var sub := t.kids[Route(t.kids, k)].sub;
    KidWf(t, h, Route(t.kids, k));
    SetFullIff(sub, h - 1, k, v);
    HalvesHaveRoom(sub, h - 1, k, v);
  }

  lemma SetFullInner(t: Tree, h: nat, k: u32, v: nat)
    requires t.Inner? && t.kids != [] && h > 0 && |t.kids| <= SIZE
    requires var sub := t.kids[Route(t.kids, k)].sub;
             && SetT(sub, h - 1, k, v).code == (if WouldFill(sub, k) then Full else Ok)
             && (WouldFill(sub, k) ==> HalvesWork(sub, h - 1, k, v))
    ensures SetT(t, h, k, v).code == (if WouldFill(t, k) then Full else Ok)
    ensures WouldFill(t, k) ==> SetT(t, h, k, v).tree == t
  {
    SetStep(t, h, k, v);
  }

  /** After a split, the retry finds room in either half. */
  ghost predicate HalvesWork(t: Tree, h: nat, k: u32, v: nat) {
    SetT(Take(t, SPLIT), h, k, v).code == Ok && SetT(Drop(t, SPLIT), h, k, v).code == Ok
  }

  lemma FullIsFull(t: Tree, k: u32)
    requires WouldFill(t, k)
    ensures Size(t) == SIZE
  {
  }

  lemma {:induction false} HalvesHaveRoom(t: Tree, h: nat, k: u32, v: nat)
    requires Wf(t, h)
    ensures WouldFill(t, k) ==> HalvesWork(t, h, k, v)
    decreases h, 1
  {
    if WouldFill(t, k) {
      FullIsFull(t, k);
      TakeDropWf(t, h, SPLIT);
      SetFullIff(Take(t, SPLIT), h, k, v);
      SetFullIff(Drop(t, SPLIT), h, k, v);
    }
  }

  /** Without a split set replaces the routed child, and its separator. */
  lemma SetPlain(t: Tree, h: nat, k: u32, v: nat)
    requires Wf(t, h) && t.Inner? && !WouldFill(t.kids[Route(t.kids, k)].sub, k)
    ensures var b := Route(t.kids, k);
            && h > 0
            && SetT(t, h, k, v) == SetResult(Ok, Inner(t.kids[b := MakeKid(SetT(t.kids[b].sub, h - 1, k, v).tree)]))
  {
    SetFullBelow(t, h, k, v);
    SetStep(t, h, k, v);
  }

  /** With a split set replaces the routed child by its halves, one of them after the retry. */
  lemma SetSplits(t: Tree, h: nat, k: u32, v: nat)
    requires Wf(t, h) && t.Inner? && Size(t) < SIZE && WouldFill(t.kids[Route(t.kids, k)].sub, k)
    ensures var b := Route(t.kids, k);
            var sub := t.kids[b].sub;
            && h > 0
            && SetT(t, h, k, v) == SetResult(Ok,
                 if k <= t.kids[b].sep
                 then SplitKid(t.kids, b, SetT(Take(sub, SPLIT), h - 1, k, v).tree, Drop(sub, SPLIT))
                 else SplitKid(t.kids, b, Take(sub, SPLIT), SetT(Drop(sub, SPLIT), h - 1, k, v).tree))
  {
    SetFullBelow(t, h, k, v);
    SetStep(t, h, k, v);
  }

  /** A successful set keeps depth, separators and fill, and adds at most one entry to its node. */
  lemma {:induction false} SetKeepsWf(t: Tree, h: nat, k: u32, v: nat)
    requires Wf(t, h) && !WouldFill(t, k)
    ensures var u := SetT(t, h, k, v).tree; Wf(u, h) && 0 < Size(u) && Size(t) <= Size(u) <= Size(t) + 1
    decreases h
  {
    if t.Inner? {
      var b := Route(t.kids, k);
      KidWf(t, h, b);
      if WouldFill(t.kids[b].sub, k) {
        RetryKeepsWf(t, h, b, k, v);
        SetSplits(t, h, k, v);
      } else {
        PlainKeepsWf(t, h, k, v);
      }
    }
  }

  lemma {:induction false} PlainKeepsWf(t: Tree, h: nat, k: u32, v: nat)
    requires Wf(t, h) && t.Inner? && h > 0
    requires !WouldFill(t.kids[Route(t.kids, k)].sub, k)
    ensures var u := SetT(t, h, k, v).tree; Wf(u, h) && Size(u) == Size(t)
    decreases h, 0
  {
    var sub := t.kids[Route(t.kids, k)].sub;
    KidWf(t, h, Route(t.kids, k));
    SetKeepsWf(sub, h - 1, k, v);
    SetPlain(t, h, k, v);
    ReplaceWf(t, h, Route(t.kids, k), SetT(sub, h - 1, k, v).tree);
  }

  lemma {:induction false} RetryKeepsWf(t: Tree, h: nat, b: nat, k: u32, v: nat)
    requires Wf(t, h) && t.Inner? && b < |t.kids| < SIZE && h > 0
    requires WouldFill(t.kids[b].sub, k)
    ensures var sub := t.kids[b].sub;
            && Wf(SplitKid(t.kids, b, SetT(Take(sub, SPLIT), h - 1, k, v).tree, Drop(sub, SPLIT)), h)
            && Wf(SplitKid(t.kids, b, Take(sub, SPLIT), SetT(Drop(sub, SPLIT), h - 1, k, v).tree), h)
    decreases h, 0
  {
    var sub := t.kids[b].sub;
    var l, r := Take(sub, SPLIT), Drop(sub, SPLIT);
    KidWf(t, h, b);
    FullIsFull(sub, k);
    TakeDropWf(sub, h - 1, SPLIT);
    SetKeepsWf(l, h - 1, k, v);
    SplitKidWf(t, h, b, SetT(l, h - 1, k, v).tree, r);
    SetKeepsWf(r, h - 1, k, v);
    SplitKidWf(t, h, b, l, SetT(r, h - 1, k, v).tree);
  }

  /** Either retry succeeds and leaves a node with at least one entry. */
  lemma HalvesGrow(t: Tree, h: nat, k: u32, v: nat)
    requires Wf(t, h) && WouldFill(t, k)
    ensures HalvesWork(t, h, k, v)
    ensures 0 < Size(Take(t, SPLIT)) && 0 < Size(Drop(t, SPLIT))
    ensures 0 < Size(SetT(Take(t, SPLIT), h, k, v).tree) && 0 < Size(SetT(Drop(t, SPLIT), h, k, v).tree)
  {
    HalvesHaveRoom(t, h, k, v);
    FullIsFull(t, k);
    TakeDropWf(t, h, SPLIT);
    SetKeepsWf(Take(t, SPLIT), h, k, v);
    SetKeepsWf(Drop(t, SPLIT), h, k, v);
  }

  // ---- contents after set

  /**
   Where a full child is cut: the first 127 entries and the other 383. The half that is not retried holds its entries as
   they were, the other one at most one entry more, and no other child changes.
   */
  lemma SplitCuts(t: Tree, h: nat, k: u32, v: nat)
    requires Wf(t, h) && t.Inner? && Size(t) < SIZE && WouldFill(t.kids[Route(t.kids, k)].sub, k)
    ensures SetT(t, h, k, v).tree.Inner?
    ensures var b, after := Route(t.kids, k), SetT(t, h, k, v).tree.kids;
            var sub := t.kids[b].sub;
            && |after| == |t.kids| + 1 && after[..b] == t.kids[..b] && after[b + 2..] == t.kids[b + 1..]
            && (if k <= t.kids[b].sep then after[b + 1].sub == Drop(sub, 127) && 127 <= Size(after[b].sub) <= 128
                else after[b].sub == Take(sub, 127) && 383 <= Size(after[b + 1].sub) <= 384)
  {
    hide SetT, Wf, Route, WouldFill, Take, Drop, SplitKid, LastKey;
    SetSplits(t, h, k, v);
    var b := Route(t.kids, k);
    var sub := t.kids[b].sub;
    KidWf(t, h, b);
    CutSizes(sub, h - 1, k, v);
    if k <= t.kids[b].sep {
      SplitKidParts(t.kids, b, SetT(Take(sub, SPLIT), h - 1, k, v).tree, Drop(sub, SPLIT));
    } else {
      SplitKidParts(t.kids, b, Take(sub, SPLIT), SetT(Drop(sub, SPLIT), h - 1, k, v).tree);
    }
  }

  lemma SplitKidParts(kids: seq<Kid>, b: nat, l: Tree, r: Tree)
    requires b < |kids|
    ensures SplitKid(kids, b, l, r).Inner?
    ensures var after := SplitKid(kids, b, l, r).kids;
            && |after| == |kids| + 1 && after[..b] == kids[..b] && after[b + 2..] == kids[b + 1..]
            && after[b].sub == l && after[b + 1].sub == r
  {
  }

  lemma CutSizes(t: Tree, h: nat, k: u32, v: nat)
    requires Wf(t, h) && WouldFill(t, k)
    ensures SPLIT <= Size(SetT(Take(t, SPLIT), h, k, v).tree) <= SPLIT + 1
    ensures SIZE - SPLIT <= Size(SetT(Drop(t, SPLIT), h, k, v).tree) <= SIZE - SPLIT + 1
  {
    FullIsFull(t, k);
    TakeDropWf(t, h, SPLIT);
    SetKeepsWf(Take(t, SPLIT), h, k, v);
    SetKeepsWf(Drop(t, SPLIT), h, k, v);
    hide SetT, Wf;
  }

  lemma HalvesValid(t: Tree, h: nat)
    requires Valid(t, h) && Size(t) == SIZE
    ensures Valid(Take(t, SPLIT), h) && Valid(Drop(t, SPLIT), h)
    ensures Flat(t) == Flat(Take(t, SPLIT)) + Flat(Drop(t, SPLIT))
    ensures Below(Flat(Take(t, SPLIT)), Flat(Drop(t, SPLIT)))
  {
    TakeDropWf(t, h, SPLIT);
    FlatTakeDrop(t, SPLIT);
    SortedConcat(Flat(Take(t, SPLIT)), Flat(Drop(t, SPLIT)));
  }

  lemma SplitSafeStep(t: Tree, h: nat, k: u32)
    requires t.Inner? && t.kids != [] && h > 0
    ensures var sub := t.kids[Route(t.kids, k)].sub;
            SplitSafe(t, h, k) ==
            if !WouldFill(sub, k) then SplitSafe(sub, h - 1, k)
            else if |t.kids| >= SIZE then true
            else if k <= t.kids[Route(t.kids, k)].sep then
              k < FirstKey(Drop(sub, SPLIT)) && SplitSafe(Take(sub, SPLIT), h - 1, k)
            else SplitSafe(Drop(sub, SPLIT), h - 1, k)
  {
  }

  /** In a well-formed tree a safe set is the ordered insert on the contents, through every cascade of splits. */
  lemma {:induction false} SafeSetUpserts(t: Tree, h: nat, k: u32, v: nat)
    requires Valid(t, h) && !WouldFill(t, k) && SplitSafe(t, h, k)
    ensures Flat(SetT(t, h, k, v).tree) == Upsert(Flat(t), k, v)
    decreases h, 0
  {
    hide SetT, SplitSafe, Upsert, Wf, Sorted, Route, Search;
    ShapeOf(t, h);
    if t.Leaf? {
      LeafUpserts(t.es, h, k, v);
    } else {
      FullIsWide(t, k);
      if WouldFill(t.kids[Route(t.kids, k)].sub, k) {
        SafeSplitUpserts(t, h, k, v);
      } else {
        SafePlainUpserts(t, h, k, v);
      }
    }
  }

  lemma LeafUpserts(es: seq<Slot>, h: nat, k: u32, v: nat)
    requires Sorted(es) && !WouldFill(Leaf(es), k)
    requires |es| <= SIZE
    ensures SetT(Leaf(es), h, k, v).tree == Leaf(Upsert(es, k, v))
  {
    SearchSorted(es, k);
    hide Sorted, Search, LowerBound;
  }

  /** A node whose routed child is full has room of its own, unless set reports FULL. */
  lemma FullIsWide(t: Tree, k: u32)
    requires t.Inner? && t.kids != [] && !WouldFill(t, k)
    ensures WouldFill(t.kids[Route(t.kids, k)].sub, k) ==> Size(t) != SIZE
  {
  }

  lemma {:induction false} SafePlainUpserts(t: Tree, h: nat, k: u32, v: nat)
    requires Valid(t, h) && t.Inner? && SplitSafe(t, h, k)
    requires !WouldFill(t.kids[Route(t.kids, k)].sub, k)
    ensures Flat(SetT(t, h, k, v).tree) == Upsert(Flat(t), k, v)
    decreases h - 1, 3
  {
    var sub := t.kids[Route(t.kids, k)].sub;
    KidValid(t, h, Route(t.kids, k));
    SplitSafeStep(t, h, k);
    SafeSetUpserts(sub, h - 1, k, v);
    SetPlain(t, h, k, v);
    UpsertThroughReplace(t, h, k, v, SetT(sub, h - 1, k, v).tree);
  }

  lemma UpsertThroughReplace(t: Tree, h: nat, k: u32, v: nat, u: Tree)
    requires Valid(t, h) && t.Inner? && t.kids != []
    requires Flat(u) == Upsert(Within(t, k), k, v)
    ensures Flat(Inner(t.kids[Route(t.kids, k) := MakeKid(u)])) == Upsert(Flat(t), k, v)
  {
    FlatReplace(t.kids, Route(t.kids, k), u);
    RouteFlat(t, h, k);
    RouteOwns(t, h, k);
    UpsertSplice(Before(t, k), Within(t, k), After(t, k), k, v);
  }

  lemma {:induction false} SafeSplitUpserts(t: Tree, h: nat, k: u32, v: nat)
    requires Valid(t, h) && t.Inner? && Size(t) < SIZE && SplitSafe(t, h, k)
    requires WouldFill(t.kids[Route(t.kids, k)].sub, k)
    ensures Flat(SetT(t, h, k, v).tree) == Upsert(Flat(t), k, v)
    decreases h - 1, 3
  {
    hide Valid, Wf, Owns, Upsert, Flat, SetT, SplitSafe, WouldFill, Route, Search, SplitKid;
    ValidIsWf(t, h);
    ShapeOf(t, h);
    var b := Route(t.kids, k);
    KidValid(t, h, b);
    FullIsFull(t.kids[b].sub, k);
    SplitSafeStep(t, h, k);
    RouteFlat(t, h, k);
    RouteOwns(t, h, k);
    SetSplits(t, h, k, v);
    if k <= t.kids[b].sep {
      SafeSplitLeft(t.kids, b, h, k, v);
    } else {
      SafeSplitRight(t.kids, b, h, k, v);
    }
  }

  lemma {:induction false} SafeSplitLeft(kids: seq<Kid>, b: nat, h: nat, k: u32, v: nat)
    requires b < |kids| && h > 0
    requires Valid(kids[b].sub, h - 1) && Size(kids[b].sub) == SIZE
    requires Owns(FlatKids(kids[..b]), Flat(kids[b].sub), FlatKids(kids[b + 1..]), k)
    requires k < FirstKey(Drop(kids[b].sub, SPLIT)) && SplitSafe(Take(kids[b].sub, SPLIT), h - 1, k)
    ensures var sub := kids[b].sub;
            Upsert(FlatKids(kids[..b]) + Flat(sub) + FlatKids(kids[b + 1..]), k, v) ==
            Flat(SplitKid(kids, b, SetT(Take(sub, SPLIT), h - 1, k, v).tree, Drop(sub, SPLIT)))
    decreases h - 1, 2
  {
    var sub := kids[b].sub;
    RetryLeftUpserts(sub, h - 1, FlatKids(kids[..b]), FlatKids(kids[b + 1..]), k, v);
    FlatSplitKid(kids, b, SetT(Take(sub, SPLIT), h - 1, k, v).tree, Drop(sub, SPLIT));
  }

  lemma {:induction false} SafeSplitRight(kids: seq<Kid>, b: nat, h: nat, k: u32, v: nat)
    requires b < |kids| && h > 0
    requires Valid(kids[b].sub, h - 1) && Size(kids[b].sub) == SIZE
    requires Owns(FlatKids(kids[..b]), Flat(kids[b].sub), FlatKids(kids[b + 1..]), k)
    requires LastKey(kids[b].sub) < k && SplitSafe(Drop(kids[b].sub, SPLIT), h - 1, k)
    ensures var sub := kids[b].sub;
            Upsert(FlatKids(kids[..b]) + Flat(sub) + FlatKids(kids[b + 1..]), k, v) ==
            Flat(SplitKid(kids, b, Take(sub, SPLIT), SetT(Drop(sub, SPLIT), h - 1, k, v).tree))
    decreases h - 1, 2
  {
    var sub := kids[b].sub;
    RetryRightUpserts(sub, h - 1, FlatKids(kids[..b]), FlatKids(kids[b + 1..]), k, v);
    FlatSplitKid(kids, b, Take(sub, SPLIT), SetT(Drop(sub, SPLIT), h - 1, k, v).tree);
  }

  lemma DropSize(t: Tree)
    requires Size(t) == SIZE
    ensures Size(Take(t, SPLIT)) == SPLIT && Size(Drop(t, SPLIT)) == SIZE - SPLIT
    ensures LastKey(Drop(t, SPLIT)) == LastKey(t)
  {
  }

  lemma {:induction false} RetryLeftUpserts(t: Tree, h: nat, pre: seq<Slot>, post: seq<Slot>, k: u32, v: nat)
    requires Valid(t, h) && Size(t) == SIZE && Owns(pre, Flat(t), post, k)
    requires k < FirstKey(Drop(t, SPLIT)) && SplitSafe(Take(t, SPLIT), h, k)
    ensures var u := SetT(Take(t, SPLIT), h, k, v).tree;
            Upsert(pre + Flat(t) + post, k, v) == pre + (Flat(u) + Flat(Drop(t, SPLIT))) + post
    decreases h, 1
  {
    hide Wf, Sorted, Upsert, Owns, Flat, SetT, SplitSafe, Take, Drop;
    DropSize(t);
    HalvesValid(t, h);
    FirstIsHead(Drop(t, SPLIT), h);
    SafeSetUpserts(Take(t, SPLIT), h, k, v);
    UpsertLeftHalf(pre, Flat(Take(t, SPLIT)), Flat(Drop(t, SPLIT)), post, k, v);
  }

  lemma {:induction false} RetryRightUpserts(t: Tree, h: nat, pre: seq<Slot>, post: seq<Slot>, k: u32, v: nat)
    requires Valid(t, h) && Size(t) == SIZE && Owns(pre, Flat(t), post, k)
    requires LastKey(t) < k && SplitSafe(Drop(t, SPLIT), h, k)
    ensures var u := SetT(Drop(t, SPLIT), h, k, v).tree;
            Upsert(pre + Flat(t) + post, k, v) == pre + (Flat(Take(t, SPLIT)) + Flat(u)) + post
    decreases h, 1
  {
    hide Wf, Sorted, Upsert, Owns, Flat, SetT, SplitSafe, Take, Drop;
    DropSize(t);
    HalvesValid(t, h);
    FlatLast(Drop(t, SPLIT), h);
    SafeSetUpserts(Drop(t, SPLIT), h, k, v);
    UpsertRightHalf(pre, Flat(Take(t, SPLIT)), Flat(Drop(t, SPLIT)), post, k, v);
  }

  // ---- the converse: an unsafe set hides a key that was stored

  /** A key that finds no room is a new key. */
  lemma {:induction false} WouldFillIsNew(t: Tree, h: nat, k: u32)
    requires Valid(t, h) && WouldFill(t, k)
    ensures Lookup(Flat(t), k) == None
    decreases h
  {
    hide Search, Bisect, Route, LowerBound, Wf, Sorted;
    if t.Inner? {
      var sub := t.kids[Route(t.kids, k)].sub;
      RouteFlat(t, h, k);
      RouteOwns(t, h, k);
      KidValid(t, h, Route(t.kids, k));
      WouldFillIsNew(sub, h - 1, k);
      LookupSplice(Before(t, k), Within(t, k), After(t, k), k);
    } else {
      SearchSorted(t.es, k);
    }
  }

  /** A key above everything stored is always safe: every split sends it to the right half. */
  lemma {:induction false} AboveMaxIsSafe(t: Tree, h: nat, k: u32)
    requires Valid(t, h) && LastKey(t) < k
    ensures SplitSafe(t, h, k)
    decreases h
  {
    if t.Inner? && t.kids != [] && h > 0 {
      hide Valid, WouldFill, Flat;
      var b := Route(t.kids, k);
      KidValid(t, h, b);
      if b < |t.kids| - 1 {
        SepsIncrease(t, h, b, |t.kids| - 1);
      }
      AboveMaxIsSafe(t.kids[b].sub, h - 1, k);
      if WouldFill(t.kids[b].sub, k) {
        FullIsFull(t.kids[b].sub, k);
        HalvesValid(t.kids[b].sub, h - 1);
        AboveMaxIsSafe(Drop(t.kids[b].sub, SPLIT), h - 1, k);
      }
    }
  }

  /** The old key that an unsafe set makes unreachable: stored before, not found after. */
  ghost predicate Lost(t: Tree, u: Tree, k: u32, m: u32) {
    m != k && HasKey(Flat(t), m) && GetT(u, m) == None && m <= LastKey(u)
  }

  lemma LostThroughReplace(t: Tree, h: nat, k: u32, u: Tree, m: u32)
    requires Valid(t, h) && t.Inner? && t.kids != []
    requires Lost(t.kids[Route(t.kids, k)].sub, u, k, m)
    ensures Lost(t, Inner(t.kids[Route(t.kids, k) := MakeKid(u)]), k, m)
  {
    hide Valid, Flat, HasKey, GetT, Route;
    var b := Route(t.kids, k);
    KeyInRange(t, h, k, m);
    SepsFrom(t, h, b);
    GetDescends(t.kids[b := MakeKid(u)], b, m);
  }

  lemma LostThroughSplit(t: Tree, h: nat, k: u32, u: Tree, r: Tree, m: u32)
    requires Valid(t, h) && t.Inner? && t.kids != []
    requires Lost(t.kids[Route(t.kids, k)].sub, u, k, m)
    requires LastKey(r) == t.kids[Route(t.kids, k)].sep
    ensures Lost(t, SplitKid(t.kids, Route(t.kids, k), u, r), k, m)
  {
    hide Valid, Flat, HasKey, GetT, Route;
    KeyInRange(t, h, k, m);
    SepsFrom(t, h, Route(t.kids, k));
    LastOfInner(t);
    GetSplitKid(t.kids, Route(t.kids, k), u, r, m);
    LastOfSplitKid(t.kids, Route(t.kids, k), u, r);
  }

  lemma SplitKidAt(kids: seq<Kid>, b: nat, u: Tree, r: Tree)
    requires b < |kids|
    ensures var after := kids[..b] + [MakeKid(u), MakeKid(r)] + kids[b + 1..];
            && |after| == |kids| + 1
            && (forall i :: 0 <= i < b ==> after[i] == kids[i])
            && after[b] == MakeKid(u) && after[b + 1] == MakeKid(r)
            && (forall i :: b + 1 < i < |after| ==> after[i] == kids[i - 1])
  {
  }

  lemma GetSplitKid(kids: seq<Kid>, b: nat, u: Tree, r: Tree, m: u32)
    requires b < |kids| && m <= LastKey(u) && m <= kids[b].sep == LastKey(r)
    requires forall i :: 0 <= i < b ==> kids[i].sep < m
    requires forall i :: b <= i < |kids| ==> kids[b].sep <= kids[i].sep
    ensures GetT(SplitKid(kids, b, u, r), m) == GetT(u, m)
  {
    var after := kids[..b] + [MakeKid(u), MakeKid(r)] + kids[b + 1..];
    SplitKidAt(kids, b, u, r);
    GetDescends(after, b, m);
  }

  lemma LastOfSplitKid(kids: seq<Kid>, b: nat, u: Tree, r: Tree)
    requires b < |kids| && LastKey(r) == kids[b].sep
    ensures LastKey(SplitKid(kids, b, u, r)) == kids[|kids| - 1].sep
  {
    SplitKidAt(kids, b, u, r);
  }

  lemma LastOfInner(t: Tree)
    requires t.Inner? && t.kids != []
    ensures LastKey(t) == t.kids[|t.kids| - 1].sep
  {
  }

  /** Retrying on the left half with a key above it hides the first key of the right half. */
  lemma LeftRetryLoses(t: Tree, h: nat, k: u32, v: nat) returns (m: u32)
    requires Valid(t, h) && WouldFill(t, k)
    requires FirstKey(Drop(t, SPLIT)) <= k
    ensures Lost(t, SetT(Take(t, SPLIT), h, k, v).tree, k, m)
  {
    var l, r := Take(t, SPLIT), Drop(t, SPLIT);
    m := FirstKey(r);
    FullIsFull(t, k);
    HalvesValid(t, h);
    LostIsRight(t, h, k, m);
    AboveLeftHalf(l, h, k, v, m);
  }

  lemma LostIsRight(t: Tree, h: nat, k: u32, m: u32)
    requires Valid(t, h) && WouldFill(t, k) && Size(t) == SIZE
    requires m == FirstKey(Drop(t, SPLIT)) <= k
    ensures m < k && HasKey(Flat(t), m)
    ensures LastKey(Take(t, SPLIT)) < m
  {
    var l, r := Take(t, SPLIT), Drop(t, SPLIT);
    HalvesValid(t, h);
    FirstIsHead(r, h);
    FlatLast(l, h);
    assert Flat(t)[|Flat(l)|] == Flat(r)[0];
    WouldFillIsNew(t, h, k);
    SplitAtLowerBound(Flat(t), k);
  }

  lemma AboveLeftHalf(l: Tree, h: nat, k: u32, v: nat, m: u32)
    requires Valid(l, h) && 0 < Size(l) < SIZE && LastKey(l) < m < k
    ensures var u := SetT(l, h, k, v).tree; GetT(u, m) == None && m <= LastKey(u)
  {
    hide Wf, Sorted;
    var u := SetT(l, h, k, v).tree;
    AboveMaxIsSafe(l, h, k);
    SafeSetValid(l, h, k, v);
    GetCorrect(u, h, m);
    LastIsMax(l, h, m);
    LastIsMax(u, h, k);
    MapOfKey(Flat(u), k);
  }

  lemma LastIsMax(t: Tree, h: nat, k: u32)
    requires Valid(t, h) && 0 < Size(t)
    ensures k in MapOf(Flat(t)) ==> k <= LastKey(t)
  {
    FlatLast(t, h);
    MapOfKey(Flat(t), k);
  }

  /** A safe set keeps the tree valid and binds k to v in its map. */
  lemma SafeSetValid(t: Tree, h: nat, k: u32, v: nat)
    requires Valid(t, h) && !WouldFill(t, k) && SplitSafe(t, h, k)
    ensures var u := SetT(t, h, k, v).tree;
            Valid(u, h) && 0 < Size(u) && MapOf(Flat(u)) == MapOf(Flat(t))[k := v]
  {
    SetKeepsWf(t, h, k, v);
    SafeSetUpserts(t, h, k, v);
    UpsertSorted(Flat(t), k, v);
  }

  lemma {:induction false} UnsafeSetLoses(t: Tree, h: nat, k: u32, v: nat) returns (m: u32)
    requires Valid(t, h) && !WouldFill(t, k) && !SplitSafe(t, h, k)
    ensures Lost(t, SetT(t, h, k, v).tree, k, m)
    decreases h, 0
  {
    if WouldFill(t.kids[Route(t.kids, k)].sub, k) {
      m := UnsafeSplitLoses(t, h, k, v);
    } else {
      m := UnsafePlainLoses(t, h, k, v);
    }
  }

  lemma {:induction false} UnsafePlainLoses(t: Tree, h: nat, k: u32, v: nat) returns (m: u32)
    requires Valid(t, h) && t.Inner? && !SplitSafe(t, h, k)
    requires !WouldFill(t.kids[Route(t.kids, k)].sub, k)
    ensures Lost(t, SetT(t, h, k, v).tree, k, m)
    decreases h - 1, 2
  {
    var sub := t.kids[Route(t.kids, k)].sub;
    KidValid(t, h, Route(t.kids, k));
    SplitSafeStep(t, h, k);
    hide SplitSafe, WouldFill, SetT, Lost, Route, Search, Flat;
    m := UnsafeSetLoses(sub, h - 1, k, v);
    SetPlain(t, h, k, v);
    LostThroughReplace(t, h, k, SetT(sub, h - 1, k, v).tree, m);
  }

  lemma {:induction false} UnsafeSplitLoses(t: Tree, h: nat, k: u32, v: nat) returns (m: u32)
    requires Valid(t, h) && t.Inner? && Size(t) < SIZE && !SplitSafe(t, h, k)
    requires WouldFill(t.kids[Route(t.kids, k)].sub, k)
    ensures Lost(t, SetT(t, h, k, v).tree, k, m)
    decreases h - 1, 2
  {
    var sub := t.kids[Route(t.kids, k)].sub;
    KidValid(t, h, Route(t.kids, k));
    UnsafeMeansLeft(t, h, k);
    hide Valid, WouldFill, SplitSafe, Lost, SetT, Route;
    m := UnsafeLeftLoses(sub, h - 1, k, v);
    ValidIsWf(t, h);
    SetSplits(t, h, k, v);
    DropSize(sub);
    LostThroughSplit(t, h, k, SetT(Take(sub, SPLIT), h - 1, k, v).tree, Drop(sub, SPLIT), m);
  }

  lemma ValidIsWf(t: Tree, h: nat)
    requires Valid(t, h)
    ensures Wf(t, h)
  {
  }

  /** The right half is never retried unsafely. */
  lemma UnsafeMeansLeft(t: Tree, h: nat, k: u32)
    requires Valid(t, h) && t.Inner? && Size(t) < SIZE && !SplitSafe(t, h, k)
    requires WouldFill(t.kids[Route(t.kids, k)].sub, k)
    ensures var sub := t.kids[Route(t.kids, k)].sub;
            && Size(sub) == SIZE && k <= t.kids[Route(t.kids, k)].sep
            && (FirstKey(Drop(sub, SPLIT)) <= k || !SplitSafe(Take(sub, SPLIT), h - 1, k))
  {
    hide Valid, SplitSafe, WouldFill, Route, Search, Flat;
    var sub := t.kids[Route(t.kids, k)].sub;
    KidValid(t, h, Route(t.kids, k));
    FullIsFull(sub, k);
    SplitSafeStep(t, h, k);
    if t.kids[Route(t.kids, k)].sep < k {
      HalvesValid(sub, h - 1);
      DropSize(sub);
      AboveMaxIsSafe(Drop(sub, SPLIT), h - 1, k);
    }
  }

  lemma HasKeyPrefix(a: seq<Slot>, b: seq<Slot>, m: u32)
    requires HasKey(a, m)
    ensures HasKey(a + b, m)
  {
    var j :| 0 <= j < |a| && a[j].key == m;
    assert (a + b)[j] == a[j];
  }

  lemma {:induction false} UnsafeLeftLoses(t: Tree, h: nat, k: u32, v: nat) returns (m: u32)
    requires Valid(t, h) && WouldFill(t, k)
    requires FirstKey(Drop(t, SPLIT)) <= k || !SplitSafe(Take(t, SPLIT), h, k)
    ensures Lost(t, SetT(Take(t, SPLIT), h, k, v).tree, k, m)
    decreases h, 1
  {
    FullIsFull(t, k);
    if FirstKey(Drop(t, SPLIT)) <= k {
      m := LeftRetryLoses(t, h, k, v);
    } else {
      HalvesValid(t, h);
      m := UnsafeSetLoses(Take(t, SPLIT), h, k, v);
      HasKeyPrefix(Flat(Take(t, SPLIT)), Flat(Drop(t, SPLIT)), m);
    }
  }

  // ---- main results

  /**
   For every well-formed tree with room: set binds k to v and leaves every other lookup as it was
   if and only if the set is split-safe; and then the tree stays well formed and ordered.
   */
  lemma SetCorrectIff(t: Tree, h: nat, k: u32, v: nat)
    requires Valid(t, h) && !WouldFill(t, k)
    ensures var u := SetT(t, h, k, v).tree;
            SplitSafe(t, h, k) ==> Valid(u, h) && MapOf(Flat(u)) == MapOf(Flat(t))[k := v]
    ensures var u := SetT(t, h, k, v).tree;
            SplitSafe(t, h, k) <==> forall x: u32 :: GetT(u, x) == if x == k then Some(v) else GetT(t, x)
  {
    var u := SetT(t, h, k, v).tree;
    if SplitSafe(t, h, k) {
      SafeSetValid(t, h, k, v);
      forall x: u32
        ensures GetT(u, x) == if x == k then Some(v) else GetT(t, x)
      {
        GetCorrect(u, h, x);
        GetCorrect(t, h, x);
      }
    } else {
      var m := UnsafeSetLoses(t, h, k, v);
      GetCorrect(t, h, m);
      MapOfKey(Flat(t), m);
    }
  }
}
