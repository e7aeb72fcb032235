/**
 Concrete trees: a pop that loses its value, a pop that overruns a node, a set that loses a key, and a run of sets
 after which the separators of a node are out of order.
 */
module BTreeExamples {
  import opened Words
  import opened SortedSlots
  import opened BTreeModel
  import opened BTreeSearch
  import opened BTreeSet
  import opened BTreePop
  import opened BTreeOrder
  import opened BTreeRuns

  // ---- rows of leaves with consecutive keys

  /** The keys a, a + 1, .. a + n - 1, each bound to 1. */
  function Dense(a: nat, n: nat): (s: seq<Slot>)
    requires a + n <= WORD_LIMIT
    ensures |s| == n && forall i :: 0 <= i < n ==> s[i] == Slot(a + i, 1)
  {
    seq(n, i requires 0 <= i < n => Slot(a + i, 1))
  }

  lemma DenseConcat(a: nat, m: nat, n: nat)
    requires a + m + n <= WORD_LIMIT
    ensures Dense(a, m) + Dense(a + m, n) == Dense(a, m + n)
  {
  }

  /** The first key of leaf j, when every leaf holds SPLIT keys. */
  function First(j: nat): nat {
    127 * j
  }

  function DenseKid(j: nat): (kid: Kid)
    requires j < 1000
    ensures Wf(kid.sub, 0) && Fits(kid)
  {
    Kid(First(j + 1) - 1, Leaf(Dense(First(j), SPLIT)))
  }

  /** n leaves of SPLIT keys each, from leaf number f on. */
  function Row(f: nat, n: nat): (kids: seq<Kid>)
    requires f + n <= 1000
    ensures |kids| == n && forall i :: 0 <= i < n ==> kids[i] == DenseKid(f + i)
  {
    seq(n, i requires 0 <= i < n => DenseKid(f + i))
  }

  lemma RowSnoc(f: nat, n: nat)
    requires f + n <= 1000 && 0 < n
    ensures Row(f, n) == Row(f, n - 1) + [DenseKid(f + n - 1)]
  {
    hide DenseKid;
  }

  lemma {:induction false} RowFlat(f: nat, n: nat)
    requires f + n <= 1000
    ensures FlatKids(Row(f, n)) == Dense(First(f), 127 * n)
  {
    if n == 0 {
      assert Row(f, 0) == [];
    } else {
      RowFlat(f, n - 1);
      RowSnoc(f, n);
      var kid := DenseKid(f + n - 1);
      assert kid.sub == Leaf(Dense(First(f + n - 1), 127));
      hide Row, Dense, FlatKids, DenseKid;
      FlatKidsConcat(Row(f, n - 1), [kid]);
      FlatKidsOne(kid);
      DenseConcat(First(f), 127 * (n - 1), 127);
    }
  }

  lemma RowWf(f: nat, n: nat)
    requires f + n <= 1000 && 0 < n <= SIZE
    ensures Wf(Inner(Row(f, n)), 1) && LastKey(Inner(Row(f, n))) == First(f + n) - 1
  {
    hide Dense, Row, Fits;
    assert Row(f, n)[n - 1] == DenseKid(f + (n - 1));
  }

  /** The first key of leaf b of a row is searched there. */
  lemma RowRoute(f: nat, n: nat, b: nat)
    requires f + n <= 1000 && b < n
    ensures First(f + b) < WORD_LIMIT && Route(Row(f, n), First(f + b)) == b == Search(Seps(Row(f, n)), First(f + b))
  {
    hide Bisect, Search, Dense, Row;
    SearchUnique(Seps(Row(f, n)), First(f + b), b);
  }

  // ---- a pop that loses its value

  /** A node over 128 leaves with SPLIT keys each. */
  function Wide(): Tree {
    Inner(Row(0, 128))
  }

  lemma WideValid()
    ensures Valid(Wide(), 1) && HasKey(Flat(Wide()), 0)
  {
    RowWf(0, 128);
    RowFlat(0, 128);
    FlatIsKids(Wide());
    assert Flat(Wide())[0].key == 0;
  }

  lemma WideUnsafe()
    ensures MergeFits(Wide(), 0) && !MergeSafe(Wide(), 0) && !RunsDry(Wide(), 0)
  {
    hide Route, Search, Dense, Row;
    RowRoute(0, 128, 0);
    assert Row(0, 128)[0] == DenseKid(0) && Row(0, 128)[1] == DenseKid(1);
    LeafSizes(0);
    LeafSizes(1);
  }

  lemma LeafSizes(j: nat)
    requires j < 1000
    ensures DenseKid(j).sub.Leaf? && Size(DenseKid(j).sub) == SPLIT
    ensures forall k: u32 :: ReportsEmpty(DenseKid(j).sub, k) && MergeFits(DenseKid(j).sub, k)
  {
  }

  /**
   The first two leaves are merged, 127 children are left, and the code falls through to its error exit: key 0 was
   bound to 1 and is removed, and the caller reads 0.
   */
  lemma PopLosesValue()
    ensures var t := Wide();
            && Valid(t, 1) && 0 in MapOf(Flat(t)) && MapOf(Flat(t))[0] == 1
            && MergeFits(t, 0) && !MergeSafe(t, 0)
            && PopT(t, 0).value == 0 && MapOf(Flat(PopT(t, 0).tree)) == MapOf(Flat(t)) - {0}
  {
    WideValid();
    WideUnsafe();
    var t := Wide();
    RowFlat(0, 128);
    FlatIsKids(t);
    assert Flat(t)[0] == Slot(0, 1);
    hide Wide, Wf, PopT, MergeFits, MergeSafe, RunsDry;
    MapOfAt(Flat(t), 0);
    PopCorrectIff(t, 1, 0);
    UnsafePopLoses(t, 1, 0);
  }

  // ---- a pop that overruns a node

  /** A root over a node of 127 leaves and a node of 400. */
  function Lopsided(): Tree {
    Inner([MakeKid(Inner(Row(0, 127))), MakeKid(Inner(Row(127, 400)))])
  }

  lemma LopsidedFlat()
    ensures Flat(Lopsided()) == Dense(0, 66929)
  {
    hide Flat, FlatKids, Dense, Row, LastKey;
    var l, r := Inner(Row(0, 127)), Inner(Row(127, 400));
    RowFlat(0, 127);
    RowFlat(127, 400);
    FlatIsKids(Lopsided());
    FlatIsKids(l);
    FlatIsKids(r);
    FlatKidsTwo(MakeKid(l), MakeKid(r));
    DenseConcat(0, 16129, 50800);
  }

  lemma LopsidedValid()
    ensures Valid(Lopsided(), 2) && HasKey(Flat(Lopsided()), 16129)
  {
    LopsidedFlat();
    assert Flat(Lopsided())[16129].key == 16129 by {
      hide Flat, Row, Dense;
    }
    LopsidedWf();
  }

  lemma LopsidedWf()
    ensures Wf(Lopsided(), 2)
  {
    RowWf(0, 127);
    RowWf(127, 400);
    hide Flat, Dense, LastKey, Row;
    TwoWf(Inner(Row(0, 127)), Inner(Row(127, 400)), 1);
  }

  lemma TwoWf(l: Tree, r: Tree, h: nat)
    requires Wf(l, h) && Wf(r, h) && SPLIT <= Size(l) && SPLIT <= Size(r)
    ensures Wf(Inner([MakeKid(l), MakeKid(r)]), h + 1)
  {
    assert Fits(MakeKid(l)) && Fits(MakeKid(r));
  }

  lemma LopsidedRoute()
    ensures Route(Lopsided().kids, 16129) == 1
  {
    RowWf(0, 127);
    RowWf(127, 400);
    SearchUnique(Seps(Lopsided().kids), 16129, 1);
  }

  lemma RightDry()
    ensures ReportsEmpty(Inner(Row(127, 400)), 16129)
  {
    RowRoute(127, 400, 0);
    assert Row(127, 400)[0] == DenseKid(127) && Row(127, 400)[1] == DenseKid(128);
  }

  lemma LopsidedOverruns()
    ensures !MergeFits(Lopsided(), 16129)
  {
    LopsidedRoute();
    RightDry();
    hide Row, ReportsEmpty, Route;
  }

  /**
   Popping 16129 merges two leaves, leaves 399 children where SPLIT would do and yet reports EMPTY; the root then
   merges the nodes of 127 and 399 children, and the loop writes entries 510 to 525 of arrays that have 510.
   */
  lemma PopOverruns()
    ensures var t := Lopsided();
            && Valid(t, 2) && 16129 in MapOf(Flat(t)) && !MergeFits(t, 16129) && PopT(t, 16129).code == Overrun
  {
    LopsidedValid();
    LopsidedOverruns();
    hide Lopsided, Wf, PopT, MergeFits, Flat;
    MapOfKey(Flat(Lopsided()), 16129);
    PopCorrectIff(Lopsided(), 2, 16129);
  }

  // ---- leaves of even keys

  /** The keys a, a + 2, .. a + 2 * (n - 1). */
  function Evens(a: nat, n: nat): (s: seq<Slot>)
    requires a + 2 * n <= WORD_LIMIT
    ensures |s| == n && forall i :: 0 <= i < n ==> s[i] == Slot(a + 2 * i, 0)
  {
    seq(n, i requires 0 <= i < n => Slot(a + 2 * i, 0))
  }

  function EvenSets(a: nat, n: nat): (ops: seq<Op>)
    requires a + 2 * n <= WORD_LIMIT
    ensures |ops| == n && forall i :: 0 <= i < n ==> ops[i] == SetOp(a + 2 * i, 0)
  {
    seq(n, i requires 0 <= i < n => SetOp(a + 2 * i, 0))
  }

  lemma {:induction false} RunConcat(s: Rooted, a: seq<Op>, b: seq<Op>)
    ensures Run(s, a + b) == Run(Run(s, a), b)
    decreases |a|
  {
    if a == [] {
      assert a + b == b;
    } else {
      assert (a + b)[1..] == a[1..] + b;
      RunConcat(Step(s, a[0]), a[1..], b);
    }
  }

  lemma RunOne(s: Rooted, op: Op)
    ensures Run(s, [op]) == Step(s, op)
  {
    hide Step;
    assert [op][1..] == [];
  }

  /** The first of the sets of even keys, and the others. */
  lemma RunEvens(s: Rooted, a: nat, n: nat)
    requires 0 < n && a + 2 * n <= WORD_LIMIT
    ensures Run(s, EvenSets(a, n)) == Run(Step(s, SetOp(a, 0)), EvenSets(a + 2, n - 1))
  {
    hide Step;
    assert EvenSets(a, n)[1..] == EvenSets(a + 2, n - 1);
  }

  lemma RunNothing(s: Rooted, a: nat)
    requires a <= WORD_LIMIT
    ensures Run(s, EvenSets(a, 0)) == s
  {
    hide Step;
  }

  /** A set that succeeds without growing the root. */
  lemma StepPlain(s: Rooted, k: u32, t: Tree)
    requires !WouldFill(s.t, k) && SetT(s.t, s.h, k, 0).tree == t
    ensures Step(s, SetOp(k, 0)) == Rooted(t, s.h)
  {
    hide WouldFill, SetT, GrowT;
  }

  /** The next even key goes to the end of a leaf. */
  lemma LeafAppends(a: nat, m: nat)
    requires a + 2 * m + 2 <= WORD_LIMIT && m < SIZE
    ensures SetT(Leaf(Evens(a, m)), 0, a + 2 * m, 0) == SetResult(Ok, Leaf(Evens(a, m + 1)))
    ensures !WouldFill(Leaf(Evens(a, m)), a + 2 * m)
  {
    SearchUnique(Keys(Evens(a, m)), a + 2 * m, m);
    assert InsertAt(Evens(a, m), m, Slot(a + 2 * m, 0)) == Evens(a, m + 1);
  }

  lemma {:induction false} LeafFills(j: nat, n: nat)
    requires j + n <= SIZE
    ensures Run(Rooted(Leaf(Evens(0, j)), 0), EvenSets(2 * j, n)) == Rooted(Leaf(Evens(0, j + n)), 0)
    decreases n
  {
    hide Run, Step, SetT, WouldFill, Evens, EvenSets;
    var s := Rooted(Leaf(Evens(0, j)), 0);
    if n == 0 {
      RunNothing(s, 2 * j);
    } else {
      LeafAppends(0, j);
      StepPlain(s, 2 * j, Leaf(Evens(0, j + 1)));
      LeafFills(j + 1, n - 1);
      RunEvens(s, 2 * j, n);
    }
  }

  /** A tree of height 1 whose last leaf holds m even keys from a on. */
  function Ending(pre: seq<Kid>, a: nat, m: nat): Tree
    requires a + 2 * m <= WORD_LIMIT
  {
    Inner(pre + [MakeKid(Leaf(Evens(a, m)))])
  }

  /** The next even key, above all separators, goes to the last child. */
  lemma EndingRoute(pre: seq<Kid>, a: nat, m: nat)
    requires 0 < m && a + 2 * m < WORD_LIMIT && forall i :: 0 <= i < |pre| ==> pre[i].sep < a + 2 * m
    ensures Route(Ending(pre, a, m).kids, a + 2 * m) == |pre|
    ensures Ending(pre, a, m).kids[|pre|] == Kid(a + 2 * m - 2, Leaf(Evens(a, m)))
  {
    SearchUnique(Seps(Ending(pre, a, m).kids), a + 2 * m, |pre| + 1);
  }

  lemma EndingAppends(pre: seq<Kid>, a: nat, m: nat)
    requires 0 < m < SIZE && a + 2 * m + 2 <= WORD_LIMIT
    requires forall i :: 0 <= i < |pre| ==> pre[i].sep < a + 2 * m
    ensures SetT(Ending(pre, a, m), 1, a + 2 * m, 0) == SetResult(Ok, Ending(pre, a, m + 1))
    ensures !WouldFill(Ending(pre, a, m), a + 2 * m)
  {
    EndingRoute(pre, a, m);
    LeafAppends(a, m);
    SetStep(Ending(pre, a, m), 1, a + 2 * m, 0);
    hide Route, SetT, Search;
    var kids := Ending(pre, a, m).kids;
    assert kids[|pre| := MakeKid(Leaf(Evens(a, m + 1)))] == pre + [MakeKid(Leaf(Evens(a, m + 1)))];
  }

  lemma {:induction false} EndingFills(pre: seq<Kid>, a: nat, m: nat, n: nat)
    requires 0 < m && m + n <= SIZE && a + 2 * (m + n) <= WORD_LIMIT
    requires forall i :: 0 <= i < |pre| ==> pre[i].sep < a + 2 * m
    ensures Run(Rooted(Ending(pre, a, m), 1), EvenSets(a + 2 * m, n)) == Rooted(Ending(pre, a, m + n), 1)
    decreases n
  {
    hide Run, Step, SetT, WouldFill, Ending, EvenSets;
    var s := Rooted(Ending(pre, a, m), 1);
    if n == 0 {
      RunNothing(s, a + 2 * m);
    } else {
      EndingAppends(pre, a, m);
      StepPlain(s, a + 2 * m, Ending(pre, a, m + 1));
      EndingFills(pre, a, m + 1, n - 1);
      RunEvens(s, a + 2 * m, n);
    }
  }

  // ---- a set that loses a key

  /** A root over one full leaf with the keys 0, 2, .. 1018. */
  function EvensTree(): Tree {
    Ending([], 0, SIZE)
  }

  lemma EvensValid()
    ensures Valid(EvensTree(), 1)
  {
    FlatKidsOne(EvensTree().kids[0]);
  }

  lemma EvensFull()
    ensures EvensTree().kids[Route(EvensTree().kids, 1017)] == Kid(1018, Leaf(Evens(0, SIZE)))
    ensures WouldFill(Leaf(Evens(0, SIZE)), 1017) && !WouldFill(EvensTree(), 1017) && !SplitSafe(EvensTree(), 1, 1017)
  {
    SearchUnique(Keys(Evens(0, SIZE)), 1017, 509);
    SearchUnique(NodeKeys(EvensTree()), 1017, 0);
    hide Search, Bisect;
  }

  lemma EvensBefore()
    ensures GetT(EvensTree(), 254) == Some(0)
  {
    SearchUnique(Keys(Evens(0, SIZE)), 254, 127);
    SearchUnique(NodeKeys(EvensTree()), 254, 0);
  }

  /** The left half with 1017 added, and the right half. */
  lemma EvensAfter(v: nat)
    ensures var t := Leaf(Evens(0, SIZE));
            var u := SplitKid(EvensTree().kids, 0, SetT(Take(t, SPLIT), 0, 1017, v).tree, Drop(t, SPLIT));
            GetT(u, 254) == None
  {
    var es := Evens(0, SIZE);
    var left := es[..SPLIT] + [Slot(1017, v)];
    SearchUnique(Keys(es[..SPLIT]), 1017, SPLIT);
    assert InsertAt(es[..SPLIT], SPLIT, Slot(1017, v)) == left;
    var kids := [MakeKid(Leaf(left)), MakeKid(Drop(Leaf(es), SPLIT))];
    assert SplitKid(EvensTree().kids, 0, Leaf(left), Drop(Leaf(es), SPLIT)) == Inner(kids);
    SearchUnique(Seps(kids), 254, 0);
    SearchUnique(Keys(left), 254, SPLIT);
  }

  /**
   A set that is not split-safe: the full leaf is split at 254, and 1017 is retried in the left half
   although it belongs in the right one. Key 254, stored before, is not found afterwards.
   */
  lemma SetLosesAKey(v: nat)
    ensures var t := EvensTree();
            && Valid(t, 1) && !WouldFill(t, 1017) && !SplitSafe(t, 1, 1017)
            && GetT(t, 254) == Some(0) && GetT(SetT(t, 1, 1017, v).tree, 254) == None
  {
    EvensValid();
    EvensFull();
    EvensBefore();
    EvensAfter(v);
    ValidIsWf(EvensTree(), 1);
    hide Wf, GetT, Valid, WouldFill, SplitSafe;
    SetSplits(EvensTree(), 1, 1017, v);
  }

  // ---- a run of sets after which separators fall

  const FIRST: Kid := Kid(508, Leaf(Evens(0, 255)))
  const SECOND: Kid := Kid(1527, Leaf(Evens(510, 127) + [Slot(1527, 0)]))

  lemma EvensCut(a: nat, m: nat, n: nat)
    requires a + 2 * (m + n) <= WORD_LIMIT
    ensures Evens(a, m + n)[..m] == Evens(a, m) && Evens(a, m + n)[m..] == Evens(a + 2 * m, n)
  {
  }

  /** An even key above a full leaf finds no room there; so does an odd one between its last two. */
  lemma LeafFull(a: nat, k: u32)
    requires a + 2 * SIZE <= WORD_LIMIT && a + 2 * SIZE - 4 < k && k != a + 2 * SIZE - 2
    ensures WouldFill(Leaf(Evens(a, SIZE)), k)
  {
    SearchUnique(Keys(Evens(a, SIZE)), k, if k < a + 2 * SIZE - 2 then SIZE - 1 else SIZE);
  }

  lemma StepGrows(t: Tree, k: u32, g: Tree, u: Tree)
    requires WouldFill(t, k) && GrowT(t) == g && SetT(g, 1, k, 0).tree == u
    ensures Step(Rooted(t, 0), SetOp(k, 0)) == Rooted(u, 1)
  {
    hide WouldFill, SetT, GrowT;
  }

  lemma GrownEvens()
    ensures GrowT(Leaf(Evens(0, 510))) == Ending([FIRST], 510, 255)
  {
    EvensCut(0, 255, 255);
  }

  /** Key 1020 finds the full leaf of 0 to 1018, which grows a root. */
  lemma FirstGrowth()
    ensures Step(Rooted(Leaf(Evens(0, 510)), 0), SetOp(1020, 0)) == Rooted(Ending([FIRST], 510, 256), 1)
  {
    hide WouldFill, SetT, GrowT, Ending, Evens, Step;
    LeafFull(0, 1020);
    GrownEvens();
    EndingAppends([FIRST], 510, 255);
    StepGrows(Leaf(Evens(0, 510)), 1020, Ending([FIRST], 510, 255), Ending([FIRST], 510, 256));
  }

  /** The tree of height 1 with two last leaves after pre. */
  function Ends(pre: seq<Kid>, l: Tree, r: Tree): Tree {
    Inner(pre + [MakeKid(l), MakeKid(r)])
  }

  /** One split of a full leaf at the end of a tree of height 1, and the retry. */
  lemma LastSplits(pre: seq<Kid>, a: nat, k: u32)
    requires a + 2 * SIZE <= WORD_LIMIT && a + 2 * SIZE - 4 < k && k != a + 2 * SIZE - 2
    requires |pre| < 10 && forall i :: 0 <= i < |pre| ==> pre[i].sep < k
    ensures var l, r := Leaf(Evens(a, SPLIT)), Leaf(Evens(a + 2 * SPLIT, SIZE - SPLIT));
            Step(Rooted(Ending(pre, a, SIZE), 1), SetOp(k, 0)) ==
            Rooted(if k < a + 2 * SIZE - 2 then Ends(pre, SetT(l, 0, k, 0).tree, r)
                   else Ends(pre, l, SetT(r, 0, k, 0).tree), 1)
  {
    hide SetT, Route, SplitKid, Evens, WouldFill, Ends, Step, Wf;
    var t := Ending(pre, a, SIZE);
    LastRoute(pre, a, k);
    LeafFull(a, k);
    LeafHalves(a, k);
    SetStep(t, 1, k, 0);
    EndsSplit(pre, a, SetT(Leaf(Evens(a, SPLIT)), 0, k, 0).tree, Leaf(Evens(a + 2 * SPLIT, SIZE - SPLIT)));
    EndsSplit(pre, a, Leaf(Evens(a, SPLIT)), SetT(Leaf(Evens(a + 2 * SPLIT, SIZE - SPLIT)), 0, k, 0).tree);
    NotFull(t, k);
    StepPlain(Rooted(t, 1), k, SetT(t, 1, k, 0).tree);
  }

  lemma NotFull(t: Tree, k: u32)
    requires Size(t) < SIZE
    ensures !WouldFill(t, k)
  {
  }

  lemma EndsSplit(pre: seq<Kid>, a: nat, l: Tree, r: Tree)
    requires a + 2 * SIZE <= WORD_LIMIT
    ensures SplitKid(Ending(pre, a, SIZE).kids, |pre|, l, r) == Ends(pre, l, r)
  {
    var kids := Ending(pre, a, SIZE).kids;
    assert kids[..|pre|] == pre && kids[|pre| + 1..] == [];
  }

  /** The first attempt in a full leaf fails, and its halves have room. */
  lemma LeafHalves(a: nat, k: u32)
    requires a + 2 * SIZE <= WORD_LIMIT && WouldFill(Leaf(Evens(a, SIZE)), k)
    ensures var t := Leaf(Evens(a, SIZE));
            && SetT(t, 0, k, 0).code == Full && HalvesWork(t, 0, k, 0)
            && Take(t, SPLIT) == Leaf(Evens(a, SPLIT)) && Drop(t, SPLIT) == Leaf(Evens(a + 2 * SPLIT, SIZE - SPLIT))
  {
    hide SetT, Evens, HalvesWork, WouldFill;
    var t := Leaf(Evens(a, SIZE));
    EvensCut(a, SPLIT, SIZE - SPLIT);
    assert Wf(t, 0);
    SetFullIff(t, 0, k, 0);
    HalvesHaveRoom(t, 0, k, 0);
  }

  lemma LastRoute(pre: seq<Kid>, a: nat, k: u32)
    requires a + 2 * SIZE <= WORD_LIMIT && forall i :: 0 <= i < |pre| ==> pre[i].sep < k
    ensures Route(Ending(pre, a, SIZE).kids, k) == |pre|
    ensures Ending(pre, a, SIZE).kids[|pre|] == Kid(a + 2 * SIZE - 2, Leaf(Evens(a, SIZE)))
  {
    SearchUnique(Seps(Ending(pre, a, SIZE).kids), k, if k <= a + 2 * SIZE - 2 then |pre| else |pre| + 1);
  }

  /** Key 1527 splits the full leaf of 510 to 1528, and the retry puts it in the left half. */
  lemma UnsafeSplit()
    ensures Step(Rooted(Ending([FIRST], 510, 510), 1), SetOp(1527, 0)) == Rooted(Ending([FIRST, SECOND], 764, 383), 1)
  {
    hide SetT, Step, Evens;
    LastSplits([FIRST], 510, 1527);
    OddAtEnd();
    assert Ends([FIRST], SECOND.sub, Leaf(Evens(764, 383))) == Ending([FIRST, SECOND], 764, 383);
  }

  lemma OddAtEnd()
    ensures SetT(Leaf(Evens(510, 127)), 0, 1527, 0).tree == SECOND.sub
  {
    SearchUnique(Keys(Evens(510, 127)), 1527, 127);
    assert InsertAt(Evens(510, 127), 127, Slot(1527, 0)) == Evens(510, 127) + [Slot(1527, 0)];
  }

  /** The tree the run ends with; its separators are 508, 1527, 1016 and 1784. */
  function Wandered(): Tree {
    Ends([FIRST, SECOND], Leaf(Evens(764, 127)), Leaf(Evens(1018, 384)))
  }

  /** Key 1784 splits the full leaf of 764 to 1782 at 1016. */
  lemma SecondSplit()
    ensures Step(Rooted(Ending([FIRST, SECOND], 764, 510), 1), SetOp(1784, 0)) == Rooted(Wandered(), 1)
  {
    hide SetT, Step, Evens, Ends;
    LastSplits([FIRST, SECOND], 764, 1784);
    LeafAppends(1018, 383);
  }

  lemma WanderedSeps()
    ensures Wandered().Inner? && Seps(Wandered().kids) == [508, 1527, 1016, 1784]
    ensures Wandered().kids[3].sub == Leaf(Evens(1018, 384))
  {
    assert Evens(764, 127)[126] == Slot(1016, 0);
    assert Evens(1018, 384)[383] == Slot(1784, 0);
  }

  /** All sets: 0 to 1528 in steps of 2, then 1527, then 1530 to 1784 in steps of 2. */
  function Wandering(): seq<Op> {
    EvenSets(0, 510) + [SetOp(1020, 0)] + EvenSets(1022, 254) + [SetOp(1527, 0)] + EvenSets(1530, 127)
    + [SetOp(1784, 0)]
  }

  lemma WanderingEnds()
    ensures Run(Rooted(Leaf([]), 0), Wandering()).t == Wandered()
  {
    hide Run, Step, Ending, EvenSets, OnlySets, Wandering, Wandered;
    FirstHalf();
    SecondHalf();
    RunConcat(Rooted(Leaf([]), 0), EvenSets(0, 510) + [SetOp(1020, 0)] + EvenSets(1022, 254),
      [SetOp(1527, 0)] + EvenSets(1530, 127) + [SetOp(1784, 0)]);
    WanderingIs();
  }

  /**
   Sets alone, from an empty tree, leave the separators of a node out of order: 1527 comes before 1016. So some set of
   the run does not meet the condition under which the node keys of reached trees increase (OrderReachedBySets).
   */
  lemma SeparatorsCanFall()
    ensures OnlySets(Wandering()) && !AllKeepOrder(Rooted(Leaf([]), 0), Wandering())
    ensures var t := Run(Rooted(Leaf([]), 0), Wandering()).t;
            t.Inner? && Seps(t.kids) == [508, 1527, 1016, 1784] && !Ordered(t)
  {
    hide Run, Step, Ending, EvenSets, OnlySets, Wandering, Ordered, AllKeepOrder, Wandered;
    WanderingEnds();
    WanderedSeps();
    WanderingIs();
    var kids := Wandered().kids;
    assert Seps(kids)[1] == kids[1].sep && Seps(kids)[2] == kids[2].sep;
    KidsOrdered(kids);
    OrderReachedBySets(Wandering());
  }

  /**
   In that tree the search goes by its middle keys: for 1100 it passes 1016 and ends at the last child, which stores it,
   and not at child 1, whose separator is the first one that is not below 1100.
   */
  lemma SearchAmongFallen()
    ensures var t := Run(Rooted(Leaf([]), 0), Wandering()).t;
            t.Inner? && LowerBound(Seps(t.kids), 1100) == 1 && Route(t.kids, 1100) == 3 && GetT(t, 1100) == Some(0)
  {
    hide Run, Wandering, Wandered, Evens, Bisect, Search;
    WanderingEnds();
    WanderedSeps();
    SearchSeps();
    FoundLate();
  }

  lemma SearchSeps()
    ensures var ks: seq<u32> := [508, 1527, 1016, 1784]; LowerBound(ks, 1100) == 1 && Search(ks, 1100) == 3
  {
    hide Bisect, Search, LowerBound;
    var ks: seq<u32> := [508, 1527, 1016, 1784];
    LowerBoundUnique(ks, 1100, 1);
    SearchHalves(ks, 1100);
    assert ks[3..] == [1784];
    SearchUnique([1784], 1100, 0);
  }

  lemma FoundLate()
    ensures GetT(Leaf(Evens(1018, 384)), 1100) == Some(0)
  {
    SearchUnique(Keys(Evens(1018, 384)), 1100, 41);
    hide Bisect, Search;
  }

  lemma WanderingIs()
    ensures Wandering() == (EvenSets(0, 510) + [SetOp(1020, 0)] + EvenSets(1022, 254))
                         + ([SetOp(1527, 0)] + EvenSets(1530, 127) + [SetOp(1784, 0)])
    ensures OnlySets(Wandering())
  {
  }

  lemma RunThree(s: Rooted, a: seq<Op>, b: seq<Op>, c: seq<Op>)
    ensures Run(s, a + b + c) == Run(Run(Run(s, a), b), c)
  {
    RunConcat(s, a + b, c);
    RunConcat(s, a, b);
  }

  lemma FirstHalf()
    ensures Run(Rooted(Leaf([]), 0), EvenSets(0, 510) + [SetOp(1020, 0)] + EvenSets(1022, 254))
         == Rooted(Ending([FIRST], 510, 510), 1)
  {
    hide Run, Step, Ending;
    assert Evens(0, 0) == [];
    RunThree(Rooted(Leaf([]), 0), EvenSets(0, 510), [SetOp(1020, 0)], EvenSets(1022, 254));
    LeafFills(0, 510);
    RunOne(Rooted(Leaf(Evens(0, 510)), 0), SetOp(1020, 0));
    FirstGrowth();
    EndingFills([FIRST], 510, 256, 254);
  }

  lemma SecondHalf()
    ensures var ops := [SetOp(1527, 0)] + EvenSets(1530, 127) + [SetOp(1784, 0)];
            Run(Rooted(Ending([FIRST], 510, 510), 1), ops).t == Wandered()
  {
    hide Run, Step, Ending, Wandered;
    RunThree(Rooted(Ending([FIRST], 510, 510), 1), [SetOp(1527, 0)], EvenSets(1530, 127), [SetOp(1784, 0)]);
    RunOne(Rooted(Ending([FIRST], 510, 510), 1), SetOp(1527, 0));
    UnsafeSplit();
    EndingFills([FIRST, SECOND], 764, 383, 127);
    RunOne(Rooted(Ending([FIRST, SECOND], 764, 510), 1), SetOp(1784, 0));
    SecondSplit();
  }
}
