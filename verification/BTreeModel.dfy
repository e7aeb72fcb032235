/**
 The B+ tree as a value: what each operation does to the tree stored below a block,
 with block ids abstracted away. The methods of BTreeStore.Db are proved against these functions.

 The functions are total; on trees that are not well formed (an internal node without children,
 siblings of different kinds) they return some value that no method ever produces.
 */
module BTreeModel {
  import opened Words
  import opened SortedSlots

  /** Entries a node can hold, and the fill below which a node asks its parent for help. */
  const SIZE: nat := 510
  const SPLIT: nat := SIZE / 4

  /** A leaf holds key/value pairs; an internal node holds a separator per child. */
  datatype Tree = Leaf(es: seq<Slot>) | Inner(kids: seq<Kid>)
  datatype Kid = Kid(sep: u32, sub: Tree)

  /**
   Result codes; Overrun stands for a merge loop that runs past the end of its node, where nothing can be relied on.
   */
  datatype Code = Ok | InvalidKey | Full | Empty | ReallyEmpty | Corrupt | Overrun

  // ---- nodes

  function Size(t: Tree): nat {
    match t case Leaf(es) => |es| case Inner(kids) => |kids|
  }

  function Seps(kids: seq<Kid>): seq<u32> {
    seq(|kids|, i requires 0 <= i < |kids| => kids[i].sep)
  }

  /** The key array of the root node. */
  function NodeKeys(t: Tree): (ks: seq<u32>)
    ensures |ks| == Size(t)
  {
    match t case Leaf(es) => Keys(es) case Inner(kids) => Seps(kids)
  }

  /** The last entry of the root node's key array. */
  function LastKey(t: Tree): u32 {
    if Size(t) == 0 then 0 else
    match t case Leaf(es) => es[|es| - 1].key case Inner(kids) => kids[|kids| - 1].sep
  }

  /** The first n entries of the root node, and the rest. */
  function Take(t: Tree, n: nat): Tree {
    if n > Size(t) then t else
    match t case Leaf(es) => Leaf(es[..n]) case Inner(kids) => Inner(kids[..n])
  }

  function Drop(t: Tree, n: nat): Tree {
    if n > Size(t) then t else
    match t case Leaf(es) => Leaf(es[n..]) case Inner(kids) => Inner(kids[n..])
  }

  /** Two nodes of the same kind, one after the other. */
  function Join(t: Tree, u: Tree): Tree {
    match (t, u)
    case (Leaf(es), Leaf(fs)) => Leaf(es + fs)
    case (Inner(kids), Inner(more)) => Inner(kids + more)
    case _ => t
  }

  function MakeKid(t: Tree): Kid {
    Kid(LastKey(t), t)
  }

  // ---- contents

  /** All pairs of the leaves, left to right. */
  function Flat(t: Tree): seq<Slot>
    decreases t, 1
  {
    match t case Leaf(es) => es case Inner(kids) => FlatKids(kids)
  }

  function FlatKids(kids: seq<Kid>): seq<Slot>
    decreases kids, 0
  {
    if kids == [] then [] else FlatKid(kids[0]) + FlatKids(kids[1..])
  }

  function FlatKid(kid: Kid): seq<Slot>
    decreases kid, 2
  {
    Flat(kid.sub)
  }

  // ---- invariants

  /** Uniform depth h, exact separators, no node over SIZE, and every node below this one at least SPLIT full. */
  ghost predicate Wf(t: Tree, h: nat)
    decreases h
  {
    && Size(t) <= SIZE
    && match t
       case Leaf(_) => h == 0
       case Inner(kids) =>
         && h > 0 && kids != []
         && forall i :: 0 <= i < |kids| ==> Wf(kids[i].sub, h - 1) && Fits(kids[i])
  }

  ghost predicate Fits(kid: Kid) {
    SPLIT <= Size(kid.sub) && kid.sep == LastKey(kid.sub)
  }

  /** A tree that stands for a map: well formed, and its pairs in strictly increasing order. */
  ghost predicate Valid(t: Tree, h: nat) {
    Wf(t, h) && Sorted(Flat(t))
  }

  // ---- search

  /** The child that covers k: where the bisection of the separators ends, or the last one. */
  function Route(kids: seq<Kid>, k: u32): (b: nat)
    requires kids != []
    ensures b < |kids|
    ensures b > 0 && k <= kids[b].sep ==> kids[b - 1].sep < k
    ensures b < |kids| - 1 ==> k <= kids[b].sep
  {
    var b := Search(Seps(kids), k);
    assert b > 0 ==> Seps(kids)[b - 1] == kids[b - 1].sep;
    assert b < |kids| ==> Seps(kids)[b] == kids[b].sep;
    if b == |kids| then b - 1 else b
  }

  function GetT(t: Tree, k: u32): Option<nat> {
    var b := Search(NodeKeys(t), k);
    if b == Size(t) then None else
    match t
    case Leaf(es) => if es[b].key == k then Some(es[b].data) else None
    case Inner(kids) => GetT(kids[b].sub, k)
  }

  function FirstT(t: Tree): Option<Slot> {
    if Size(t) == 0 then None else
    match t case Leaf(es) => Some(es[0]) case Inner(kids) => FirstT(kids[0].sub)
  }

  function LastT(t: Tree): Option<Slot> {
    if Size(t) == 0 then None else
    match t case Leaf(es) => Some(es[|es| - 1]) case Inner(kids) => LastT(kids[|kids| - 1].sub)
  }

  // ---- root growth

  /** The new root above the two halves of a full root. */
  function GrowT(t: Tree): Tree {
    var n := Size(t) / 2;
    Inner([MakeKid(Take(t, n)), MakeKid(Drop(t, n))])
  }

  // ---- set

  datatype SetResult = SetResult(code: Code, tree: Tree)

  /** Set in a tree of height at most h. */
  function SetT(t: Tree, h: nat, k: u32, v: nat): SetResult
    decreases h
  {
    match t
    case Leaf(es) =>
      var b := Search(Keys(es), k);
      if b < |es| && es[b].key == k then SetResult(Ok, Leaf(es[b := Slot(k, v)]))
      else if |es| >= SIZE then SetResult(Full, t)
      else SetResult(Ok, Leaf(InsertAt(es, b, Slot(k, v))))
    case Inner(kids) =>
      if h == 0 || kids == [] then SetResult(Corrupt, t) else
      var b := Route(kids, k);
      var sub := kids[b].sub;
      var r := SetT(sub, h - 1, k, v);
      if r.code == Ok then SetResult(Ok, Inner(kids[b := MakeKid(r.tree)]))
      else if r.code != Full || |kids| >= SIZE then SetResult(r.code, t)
      else
        var left, right := Take(sub, SPLIT), Drop(sub, SPLIT);
        if k <= kids[b].sep then
          var s := SetT(left, h - 1, k, v);
          SetResult(s.code, SplitKid(kids, b, s.tree, right))
        else
          var s := SetT(right, h - 1, k, v);
          SetResult(s.code, SplitKid(kids, b, left, s.tree))
  }

  /** The node after child b was replaced by two children. */
  function SplitKid(kids: seq<Kid>, b: nat, left: Tree, right: Tree): Tree
    requires b < |kids|
  {
    Inner(kids[..b] + [MakeKid(left), MakeKid(right)] + kids[b + 1..])
  }

  /** Set finds no room: k is new, and every node on its path is full. */
  predicate WouldFill(t: Tree, k: u32) {
    Size(t) == SIZE &&
    match t
    case Leaf(es) => var b := Search(Keys(es), k); !(b < |es| && es[b].key == k)
    case Inner(kids) => WouldFill(kids[Route(kids, k)].sub, k)
  }

  /** The smallest key below a node, read down its left edge. */
  function FirstKey(t: Tree): u32 {
    var f := FirstT(t);
    if f.None? then 0 else f.value.key
  }

  /**
   What a caller can check before a set: wherever the path meets a full child that must be split,
   k is above that child's old maximum or below every key that moves to the right half.
   */
  predicate SplitSafe(t: Tree, h: nat, k: u32)
    decreases h
  {
    match t
    case Leaf(_) => true
    case Inner(kids) =>
      if h == 0 || kids == [] then true else
      var b := Route(kids, k);
      var sub := kids[b].sub;
      if !WouldFill(sub, k) then SplitSafe(sub, h - 1, k)
      else if |kids| >= SIZE then true
      else if k <= kids[b].sep then k < FirstKey(Drop(sub, SPLIT)) && SplitSafe(Take(sub, SPLIT), h - 1, k)
      else SplitSafe(Drop(sub, SPLIT), h - 1, k)
  }

  // ---- pop

  datatype PopResult = PopResult(code: Code, value: nat, tree: Tree)

  function PopT(t: Tree, k: u32): PopResult
    decreases t
  {
    var b := Search(NodeKeys(t), k);
    if b == Size(t) then PopResult(InvalidKey, 0, t) else
    match t
    case Leaf(es) =>
      if es[b].key != k then PopResult(InvalidKey, 0, t)
      else PopResult(if |es| - 1 < SPLIT then Empty else Ok, es[b].data, Leaf(RemoveAt(es, b)))
    case Inner(kids) =>
      var r := PopT(kids[b].sub, k);
      if r.code == Ok then
        PopResult(Ok, r.value, Inner(kids[b := MakeKid(r.tree)]))
      else if r.code == Empty && |kids| > 1 then
        Refill(kids, b, r)
      else
        PopResult(if r.code == Empty then ReallyEmpty else r.code, 0, Inner(kids[b := Kid(kids[b].sep, r.tree)]))
  }

  /** The neighbour that helps child b: the right one, except for the last child. */
  function Helper(n: nat, b: nat): (other: nat)
    requires 1 < n && b < n
    ensures other < n && (other == b + 1 || other + 1 == b)
  {
    if b + 1 == n then b - 1 else b + 1
  }

  /** Child b became r.tree and is too small: steal one entry from a neighbour, or merge with it. */
  function Refill(kids: seq<Kid>, b: nat, r: PopResult): PopResult
    requires 1 < |kids| && b < |kids|
  {
    var other := Helper(|kids|, b);
    var t, u := r.tree, kids[other].sub;
    if Size(u) > SPLIT then
      var n := Size(u) - 1;
      if other < b then
        PopResult(Ok, r.value, Inner(kids[b := MakeKid(Join(Drop(u, n), t))][other := MakeKid(Take(u, n))]))
      else
        PopResult(Ok, r.value, Inner(kids[b := MakeKid(Join(t, Take(u, 1)))][other := MakeKid(Drop(u, 1))]))
    else if Size(t) + Size(u) > SIZE then
      PopResult(Overrun, 0, Inner(kids[b := Kid(kids[b].sep, t)]))
    else
      var first := if other < b then other else b;
      var joined := if other < b then Join(u, t) else Join(t, u);
      var merged := kids[..first] + [MakeKid(joined)] + kids[first + 2..];
      // a merge that leaves SPLIT children or more falls through to the error exit, which zeroes the value
      PopResult(Empty, if |merged| < SPLIT then r.value else 0, Inner(merged))
  }

  /** What a caller can tell from sizes: popping the stored key k makes this node report EMPTY to its parent. */
  predicate ReportsEmpty(t: Tree, k: u32)
    decreases t
  {
    match t
    case Leaf(es) => |es| - 1 < SPLIT
    case Inner(kids) =>
      1 < |kids| &&
      var b := Route(kids, k);
      ReportsEmpty(kids[b].sub, k) && Size(kids[Helper(|kids|, b)].sub) <= SPLIT
  }

  /**
   Checked before a pop, from sizes alone: every merge on the path fills its node with at most SIZE entries. A child
   that reports EMPTY has lost one entry.
   */
  predicate MergeFits(t: Tree, k: u32)
    decreases t
  {
    match t
    case Leaf(_) => true
    case Inner(kids) =>
      kids != [] &&
      var b := Route(kids, k);
      && MergeFits(kids[b].sub, k)
      && (ReportsEmpty(kids[b].sub, k) && |kids| > 1 ==>
            var helper := Size(kids[Helper(|kids|, b)].sub);
            helper <= SPLIT ==> Size(kids[b].sub) - 1 + helper <= SIZE)
  }

  /** Checked before a pop: the root's only child reports EMPTY, and there is no neighbour to help it. */
  predicate RunsDry(t: Tree, k: u32) {
    t.Inner? && |t.kids| == 1 && ReportsEmpty(t.kids[0].sub, k)
  }

  /**
   Checked before a pop: wherever the path's child reports EMPTY there is a neighbour, and it can lend an entry or
   the merge leaves this node with fewer than SPLIT children.
   */
  predicate MergeSafe(t: Tree, k: u32)
    decreases t
  {
    match t
    case Leaf(_) => true
    case Inner(kids) =>
      kids != [] &&
      var b := Route(kids, k);
      && MergeSafe(kids[b].sub, k)
      && (ReportsEmpty(kids[b].sub, k) ==>
            |kids| > 1 && (Size(kids[Helper(|kids|, b)].sub) > SPLIT || |kids| <= SPLIT))
  }
}
