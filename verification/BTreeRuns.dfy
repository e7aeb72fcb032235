/**
 Root growth, the size of a tree of a given height, and whole histories of operations.
 */
module BTreeRuns {
  import opened Words
  import opened SortedSlots
  import opened BTreeModel
  import opened BTreeSearch
  import opened BTreeSet
  import opened BTreePop
  import opened BTreeOrder

  // ---- root growth

  /**
   Growing keeps the contents and adds one level; the left half takes half of the entries, rounded down, and the halves
   are full enough exactly from 2 * SPLIT entries on. The order of the contents plays no part.
   */
  lemma GrowCorrect(t: Tree, h: nat)
    requires Wf(t, h) && 2 <= Size(t)
    ensures Flat(GrowT(t)) == Flat(t) && Size(GrowT(t)) == 2
    ensures Wf(GrowT(t), h + 1) <==> 2 * SPLIT <= Size(t)
    ensures var kids := GrowT(t).kids;
            && Size(kids[0].sub) + Size(kids[1].sub) == Size(t)
            && Size(kids[0].sub) <= Size(kids[1].sub) <= Size(kids[0].sub) + 1
            && kids[0].sep == LastKey(kids[0].sub) && kids[1].sep == LastKey(t)
  {
    var n := Size(t) / 2;
    var l, r := Take(t, n), Drop(t, n);
    TakeDropWf(t, h, n);
    FlatTakeDrop(t, n);
    FlatKidsTwo(MakeKid(l), MakeKid(r));
    if 2 * SPLIT <= Size(t) {
      assert Fits(MakeKid(l)) && Fits(MakeKid(r));
    } else {
      assert !Fits(GrowT(t).kids[0]);
    }
  }

  // ---- size against height

  function Pow(base: nat, e: nat): nat {
    if e == 0 then 1 else base * Pow(base, e - 1)
  }

  /** A node over h levels stores at least SPLIT^h and at most SIZE^h pairs per entry of its own. */
  lemma {:induction false} EntriesPerSlot(t: Tree, h: nat)
    requires Wf(t, h)
    ensures Size(t) * Pow(SPLIT, h) <= |Flat(t)| <= Size(t) * Pow(SIZE, h)
    decreases h, 1
  {
    if t.Inner? {
      var n := |t.kids|;
      EntriesUpTo(t, h, n);
      assert t.kids[..n] == t.kids;
    }
  }

  lemma {:induction false} EntriesUpTo(t: Tree, h: nat, n: nat)
    requires Wf(t, h) && t.Inner? && n <= |t.kids|
    ensures n * Pow(SPLIT, h) <= |FlatKids(t.kids[..n])| <= n * Pow(SIZE, h)
    decreases h, 0, n
  {
    if n > 0 {
      var sub := t.kids[n - 1].sub;
      EntriesUpTo(t, h, n - 1);
      KidWf(t, h, n - 1);
      EntriesPerSlot(sub, h - 1);
      FlatSnoc(t.kids, n - 1);
      MulMono(SPLIT, Size(sub), Pow(SPLIT, h - 1));
      MulMono(Size(sub), SIZE, Pow(SIZE, h - 1));
      OneMore(n, Pow(SPLIT, h));
      OneMore(n, Pow(SIZE, h));
    }
  }

  lemma MulMono(a: nat, b: nat, c: nat)
    requires a <= b
    ensures a * c <= b * c
  {
  }

  lemma OneMore(n: nat, c: nat)
    requires n > 0
    ensures n * c == (n - 1) * c + c
  {
  }

  /** A tree whose internal root has two children stores at least 2 * SPLIT^h pairs over h internal levels. */
  lemma MinimumEntries(t: Tree, h: nat)
    requires Wf(t, h) && 2 <= Size(t)
    ensures 2 * Pow(SPLIT, h) <= |Flat(t)|
  {
    EntriesPerSlot(t, h);
    MulMono(2, Size(t), Pow(SPLIT, h));
  }

  lemma MaximumEntries(t: Tree, h: nat)
    requires Wf(t, h)
    ensures |Flat(t)| <= Pow(SIZE, h + 1)
  {
    EntriesPerSlot(t, h);
    MulMono(Size(t), SIZE, Pow(SIZE, h));
  }

  // ---- histories

  datatype Op = SetOp(k: u32, v: nat) | PopOp(k: u32)
  datatype Rooted = Rooted(t: Tree, h: nat)

  /** The tree a set works on: grown first when it reported FULL. */
  function Roomy(s: Rooted, k: u32): Rooted {
    if WouldFill(s.t, k) then Rooted(GrowT(s.t), s.h + 1) else s
  }

  function Step(s: Rooted, op: Op): Rooted {
    match op
    case SetOp(k, v) => var r := Roomy(s, k); Rooted(SetT(r.t, r.h, k, v).tree, r.h)
    case PopOp(k) => Rooted(PopT(s.t, k).tree, s.h)
  }

  function Run(s: Rooted, ops: seq<Op>): Rooted
    decreases |ops|
  {
    if ops == [] then s else Run(Step(s, ops[0]), ops[1..])
  }

  function MapStep(m: map<u32, nat>, op: Op): map<u32, nat> {
    match op case SetOp(k, v) => m[k := v] case PopOp(k) => m - {k}
  }

  function MapRun(m: map<u32, nat>, ops: seq<Op>): map<u32, nat>
    decreases |ops|
  {
    if ops == [] then m else MapRun(MapStep(m, ops[0]), ops[1..])
  }

  /**
   A set that is split-safe; a pop of a stored key whose merges fit and whose root has help at hand, or of a missing
   key not above the last.
   */
  ghost predicate Allowed(s: Rooted, op: Op) {
    match op
    case SetOp(k, _) => var r := Roomy(s, k); SplitSafe(r.t, r.h, k)
    case PopOp(k) => if HasKey(Flat(s.t), k) then MergeFits(s.t, k) && !RunsDry(s.t, k) else k <= LastKey(s.t)
  }

  ghost predicate AllAllowed(s: Rooted, ops: seq<Op>)
    decreases |ops|
  {
    ops == [] || (Allowed(s, ops[0]) && AllAllowed(Step(s, ops[0]), ops[1..]))
  }

  lemma StepRefinesMap(s: Rooted, op: Op)
    requires Valid(s.t, s.h) && Allowed(s, op)
    ensures Valid(Step(s, op).t, Step(s, op).h)
    ensures MapOf(Flat(Step(s, op).t)) == MapStep(MapOf(Flat(s.t)), op)
  {
    match op
    case SetOp(k, v) =>
      var r := Roomy(s, k);
      if WouldFill(s.t, k) {
        FullIsFull(s.t, k);
        GrowCorrect(s.t, s.h);
      }
      SafeSetValid(r.t, r.h, k, v);
    case PopOp(k) =>
      MapOfKey(Flat(s.t), k);
      if HasKey(Flat(s.t), k) {
        PopCorrectIff(s.t, s.h, k);
      } else {
        PopAbsent(s.t, s.h, k);
        assert MapOf(Flat(s.t)) - {k} == MapOf(Flat(s.t));
      }
  }

  /** After any history of allowed operations the tree is valid and stands for the map the history describes. */
  lemma {:induction false} RunRefinesMap(s: Rooted, ops: seq<Op>)
    requires Valid(s.t, s.h) && AllAllowed(s, ops)
    ensures Valid(Run(s, ops).t, Run(s, ops).h)
    ensures MapOf(Flat(Run(s, ops).t)) == MapRun(MapOf(Flat(s.t)), ops)
    decreases |ops|
  {
    if ops != [] {
      StepRefinesMap(s, ops[0]);
      RunRefinesMap(Step(s, ops[0]), ops[1..]);
    }
  }

  // ---- every tree that sets alone can reach

  predicate OnlySets(ops: seq<Op>) {
    forall i :: 0 <= i < |ops| ==> ops[i].SetOp?
  }

  /** The keys of every leaf increase. */
  ghost predicate LeavesSorted(t: Tree)
    decreases t
  {
    match t
    case Leaf(es) => Sorted(es)
    case Inner(kids) => forall i :: 0 <= i < |kids| ==> LeavesSorted(kids[i].sub)
  }

  /** What sets keep even when they are not split-safe: depth, exact separators, fill, a root of two, sorted leaves. */
  ghost predicate Reachable(s: Rooted) {
    Wf(s.t, s.h) && (s.h > 0 ==> 2 <= Size(s.t)) && LeavesSorted(s.t)
  }

  lemma HalvesSorted(t: Tree, n: nat)
    requires LeavesSorted(t)
    ensures LeavesSorted(Take(t, n)) && LeavesSorted(Drop(t, n))
  {
  }

  lemma LeafSetSorted(es: seq<Slot>, h: nat, k: u32, v: nat)
    requires LeavesSorted(Leaf(es))
    ensures LeavesSorted(SetT(Leaf(es), h, k, v).tree)
  {
    SearchSorted(es, k);
    UpsertSorted(es, k, v);
  }

  lemma {:induction false} SetKeepsLeaves(t: Tree, h: nat, k: u32, v: nat)
    requires LeavesSorted(t)
    ensures LeavesSorted(SetT(t, h, k, v).tree)
    decreases h
  {
    hide LeavesSorted, SetT, Take, Drop, Route;
    if t.Leaf? {
      LeafSetSorted(t.es, h, k, v);
    } else if h == 0 || t.kids == [] {
      SetStuck(t, h, k, v);
    } else {
      var sub := t.kids[Route(t.kids, k)].sub;
      KidSorted(t.kids, Route(t.kids, k));
      HalvesSorted(sub, SPLIT);
      SetKeepsLeaves(sub, h - 1, k, v);
      SetKeepsLeaves(Take(sub, SPLIT), h - 1, k, v);
      SetKeepsLeaves(Drop(sub, SPLIT), h - 1, k, v);
      InnerSetSorted(t, h, k, v);
    }
  }

  lemma SetStuck(t: Tree, h: nat, k: u32, v: nat)
    requires t.Inner? && (h == 0 || t.kids == [])
    ensures SetT(t, h, k, v).tree == t
  {
  }

  lemma KidSorted(kids: seq<Kid>, b: nat)
    requires b < |kids| && LeavesSorted(Inner(kids))
    ensures LeavesSorted(kids[b].sub)
  {
  }

  lemma InnerSetSorted(t: Tree, h: nat, k: u32, v: nat)
    requires t.Inner? && t.kids != [] && h > 0 && LeavesSorted(t)
    requires var sub := t.kids[Route(t.kids, k)].sub;
             var l, r := Take(sub, SPLIT), Drop(sub, SPLIT);
             && LeavesSorted(l) && LeavesSorted(r) && LeavesSorted(SetT(sub, h - 1, k, v).tree)
             && LeavesSorted(SetT(l, h - 1, k, v).tree) && LeavesSorted(SetT(r, h - 1, k, v).tree)
    ensures LeavesSorted(SetT(t, h, k, v).tree)
  {
    hide SetT, Take, Drop, Route, LeavesSorted, SplitKid;
    var b := Route(t.kids, k);
    var sub := t.kids[b].sub;
    var l, r := Take(sub, SPLIT), Drop(sub, SPLIT);
    SetStep(t, h, k, v);
    ReplaceKidSorted(t.kids, b, SetT(sub, h - 1, k, v).tree);
    SplitKidSorted(t.kids, b, SetT(l, h - 1, k, v).tree, r);
    SplitKidSorted(t.kids, b, l, SetT(r, h - 1, k, v).tree);
  }

  lemma ReplaceKidSorted(kids: seq<Kid>, b: nat, u: Tree)
    requires b < |kids| && LeavesSorted(Inner(kids)) && LeavesSorted(u)
    ensures LeavesSorted(Inner(kids[b := MakeKid(u)]))
  {
  }

  lemma SplitKidSorted(kids: seq<Kid>, b: nat, l: Tree, r: Tree)
    requires b < |kids| && LeavesSorted(Inner(kids)) && LeavesSorted(l) && LeavesSorted(r)
    ensures LeavesSorted(SplitKid(kids, b, l, r))
  {
  }

  lemma SetKeepsReachable(s: Rooted, k: u32, v: nat)
    requires Reachable(s)
    ensures Reachable(Step(s, SetOp(k, v)))
  {
    var r := Roomy(s, k);
    if WouldFill(s.t, k) {
      FullIsFull(s.t, k);
      GrowCorrect(s.t, s.h);
      HalvesSorted(s.t, Size(s.t) / 2);
    }
    SetKeepsWf(r.t, r.h, k, v);
    SetKeepsLeaves(r.t, r.h, k, v);
  }

  lemma {:induction false} RunKeepsReachable(s: Rooted, ops: seq<Op>)
    requires Reachable(s) && OnlySets(ops)
    ensures Reachable(Run(s, ops))
    decreases |ops|
  {
    if ops != [] {
      SetKeepsReachable(s, ops[0].k, ops[0].v);
      RunKeepsReachable(Step(s, ops[0]), ops[1..]);
    }
  }

  /**
   After any sequence of sets from an empty tree, growing the root whenever set reports FULL, split-safe or not: the
   tree is well formed, its leaves are sorted, and over h > 0 internal levels it stores at least 2 * SPLIT^h pairs.
   */
  lemma ReachedBySets(ops: seq<Op>)
    requires OnlySets(ops)
    ensures var s := Run(Rooted(Leaf([]), 0), ops);
            && Reachable(s)
            && (s.h > 0 ==> 2 * Pow(SPLIT, s.h) <= |Flat(s.t)|)
            && |Flat(s.t)| <= Pow(SIZE, s.h + 1)
  {
    var s := Run(Rooted(Leaf([]), 0), ops);
    RunKeepsReachable(Rooted(Leaf([]), 0), ops);
    MaximumEntries(s.t, s.h);
    if s.h > 0 {
      MinimumEntries(s.t, s.h);
    }
  }

  // ---- the order of node keys through runs of sets

  lemma GrowOrdered(t: Tree)
    requires Ordered(t) && 2 <= Size(t)
    ensures Ordered(GrowT(t))
  {
    var l, r := Take(t, Size(t) / 2), Drop(t, Size(t) / 2);
    HalvesOrdered(t, Size(t) / 2);
    hide Take, Drop;
    TwoOrdered(l, r);
  }

  lemma TwoOrdered(l: Tree, r: Tree)
    requires Ordered(l) && Ordered(r) && LastKey(l) < LastKey(r)
    ensures Ordered(Inner([MakeKid(l), MakeKid(r)]))
  {
    hide LastKey;
  }

  /** The condition under which a set, with grow when it reports FULL, keeps node keys increasing. */
  predicate StepKeepsOrder(s: Rooted, op: Op) {
    op.SetOp? ==> KeepsOrder(Roomy(s, op.k).t, Roomy(s, op.k).h, op.k)
  }

  lemma StepOrderIff(s: Rooted, k: u32, v: nat)
    requires Reachable(s) && Ordered(s.t)
    ensures Ordered(Step(s, SetOp(k, v)).t) <==> StepKeepsOrder(s, SetOp(k, v))
    ensures GetT(Step(s, SetOp(k, v)).t, k) == Some(v)
  {
    hide Wf, Ordered, KeepsOrder, SetT, GetT, LeavesSorted;
    var r := Roomy(s, k);
    if WouldFill(s.t, k) {
      FullIsFull(s.t, k);
      GrowCorrect(s.t, s.h);
      GrowOrdered(s.t);
    }
    OrderKeptIff(r.t, r.h, k, v);
    SetBindsKey(r.t, r.h, k, v);
  }

  predicate AllKeepOrder(s: Rooted, ops: seq<Op>)
    decreases |ops|
  {
    ops == [] || (StepKeepsOrder(s, ops[0]) && AllKeepOrder(Step(s, ops[0]), ops[1..]))
  }

  /** Node keys increase before, during and after the run. */
  ghost predicate AlwaysOrdered(s: Rooted, ops: seq<Op>) {
    forall n :: 0 <= n <= |ops| ==> Ordered(Run(s, ops[..n]).t)
  }

  lemma RunPrefix(s: Rooted, ops: seq<Op>, n: nat)
    requires 0 < n <= |ops|
    ensures Run(s, ops[..n]) == Run(Step(s, ops[0]), ops[1..][..n - 1])
  {
    hide Step;
    assert ops[..n][1..] == ops[1..][..n - 1];
  }

  lemma AlwaysOrderedStep(s: Rooted, ops: seq<Op>)
    requires ops != []
    ensures AlwaysOrdered(s, ops) <==> Ordered(s.t) && AlwaysOrdered(Step(s, ops[0]), ops[1..])
  {
    hide Step, Ordered;
    var s1, rest := Step(s, ops[0]), ops[1..];
    assert Run(s, ops[..0]) == s;
    if AlwaysOrdered(s, ops) {
      forall n | 0 <= n <= |rest|
        ensures Ordered(Run(s1, rest[..n]).t)
      {
        RunPrefix(s, ops, n + 1);
      }
    }
    if Ordered(s.t) && AlwaysOrdered(s1, rest) {
      forall n | 0 <= n <= |ops|
        ensures Ordered(Run(s, ops[..n]).t)
      {
        if n > 0 {
          RunPrefix(s, ops, n);
        }
      }
    }
  }

  /** A run of sets keeps node keys increasing throughout if and only if each of its sets meets the condition. */
  lemma {:induction false} RunOrderIff(s: Rooted, ops: seq<Op>)
    requires Reachable(s) && Ordered(s.t) && OnlySets(ops)
    ensures AlwaysOrdered(s, ops) <==> AllKeepOrder(s, ops)
    decreases |ops|
  {
    hide Reachable, Ordered, Run, Step, StepKeepsOrder, AlwaysOrdered, AllKeepOrder;
    if ops == [] {
      EmptyRunOrder(s);
    } else {
      SetKeepsReachable(s, ops[0].k, ops[0].v);
      StepOrderIff(s, ops[0].k, ops[0].v);
      AlwaysOrderedStep(s, ops);
      AllKeepOrderStep(s, ops);
      if StepKeepsOrder(s, ops[0]) {
        RunOrderIff(Step(s, ops[0]), ops[1..]);
      } else if AlwaysOrdered(s, ops) {
        OrderedFirst(Step(s, ops[0]), ops[1..]);
      }
    }
  }

  lemma EmptyRunOrder(s: Rooted)
    requires Ordered(s.t)
    ensures AlwaysOrdered(s, []) && AllKeepOrder(s, [])
  {
    hide Ordered;
  }

  lemma AllKeepOrderStep(s: Rooted, ops: seq<Op>)
    requires ops != []
    ensures AllKeepOrder(s, ops) <==> StepKeepsOrder(s, ops[0]) && AllKeepOrder(Step(s, ops[0]), ops[1..])
  {
    hide StepKeepsOrder, Step;
  }

  lemma OrderedFirst(s: Rooted, ops: seq<Op>)
    requires AlwaysOrdered(s, ops)
    ensures Ordered(s.t)
  {
    hide Ordered;
    assert Run(s, ops[..0]) == s;
  }

  /**
   So the node keys of every tree on the way from an empty one increase if and only if each set of the run meets the
   condition; and then each of them is found right after it was set (StepOrderIff).
   */
  lemma OrderReachedBySets(ops: seq<Op>)
    requires OnlySets(ops)
    ensures AlwaysOrdered(Rooted(Leaf([]), 0), ops) <==> AllKeepOrder(Rooted(Leaf([]), 0), ops)
    ensures AllKeepOrder(Rooted(Leaf([]), 0), ops) ==> Ordered(Run(Rooted(Leaf([]), 0), ops).t)
  {
    RunOrderIff(Rooted(Leaf([]), 0), ops);
    assert ops[..|ops|] == ops;
    hide Ordered, Run, AllKeepOrder;
  }
}
