/**
 Copy-on-write transactions over a block file, as steps on a state: what a client may ask for between begin and
 commit or abort, and what the file, the free list and the marks of the transaction become.
 */
module TxnModel {
  import opened Words
  import opened BitMath
  import opened Arithmetic

  const PRIMARY: nat := 1
  const SECONDARY: nat := 2
  const OBJLIST: nat := 3
  const USER_DATA: nat := 4

  /** Entries that fit the free list while it is kept inside its root block. */
  const INLINE: nat := 1021

  /** The content of a block, as words; the two free list roots hold the free ids. */
  type Page = seq<nat>

  /** What the transaction has noted about a block; a block it has no note of is Unset. */
  datatype Mark = Unset | Allocated | Freed | CopyOf(block: nat)

  datatype Txn = Txn(nblocks: nat, marks: map<nat, Mark>)

  datatype State = State(pages: map<nat, Page>, nblocks: nat, freelist: nat, objlist: nat, txn: Option<Txn>)

  function MarkOf(marks: map<nat, Mark>, b: nat): Mark {
    if b in marks then marks[b] else Unset
  }

  /** The file has blocks 0 up to n. */
  ghost predicate Blocks(pages: map<nat, Page>, n: nat) {
    forall b: nat :: b in pages <==> b < n
  }

  function Range(a: nat, b: nat): (r: seq<nat>)
    ensures |r| == if a <= b then b - a else 0
  {
    if a < b then seq(b - a, i requires 0 <= i < b - a => a + i) else []
  }

  // ---- the free list

  function List(s: State): Page {
    if s.freelist in s.pages then s.pages[s.freelist] else []
  }

  function WithList(s: State, list: Page): State {
    s.(pages := s.pages[s.freelist := list])
  }

  function Push(s: State, b: nat): State {
    WithList(s, List(s) + [b])
  }

  /** The file after growing; the content of the new blocks is whatever fill says. */
  function Extended(s: State, fill: nat -> Page): State {
    var n := GrownSize(s.nblocks);
    s.(pages := s.pages + (map i | s.nblocks <= i < n :: fill(i)), nblocks := n)
  }

  datatype Taken = Taken(state: State, block: nat)

  /** Pops the last free id, or grows the file, keeps its first new block and lists the others. */
  function Take(s: State, fill: nat -> Page): Taken {
    var list := List(s);
    if list != [] then Taken(WithList(s, list[..|list| - 1]), list[|list| - 1])
    else
      var g := Extended(s, fill);
      Taken(WithList(g, Range(s.nblocks + 1, g.nblocks)), s.nblocks)
  }

  // ---- the steps of a transaction

  function Marked(s: State, b: nat, mark: Mark): State {
    if s.txn.None? then s else s.(txn := Some(s.txn.value.(marks := s.txn.value.marks[b := mark])))
  }

  function MarkIn(s: State, b: nat): Mark {
    if s.txn.None? then Unset else MarkOf(s.txn.value.marks, b)
  }

  function Begun(s: State): State {
    var first := if PRIMARY in s.pages then s.pages[PRIMARY] else [];
    s.(pages := s.pages[SECONDARY := first], freelist := SECONDARY,
       txn := Some(Txn(s.nblocks, map[SECONDARY := CopyOf(PRIMARY)])))
  }

  function AllocatedIn(s: State, fill: nat -> Page): Taken {
    var t := Take(s, fill);
    Taken(Marked(t.state, t.block, Allocated), t.block)
  }

  /** The writable version of block b: itself when this transaction allocated it, otherwise a copy. */
  function ModifiedIn(s: State, b: nat, fill: nat -> Page): Taken {
    if MarkIn(s, b).Allocated? || MarkIn(s, b).CopyOf? then Taken(s, b)
    else
      var t := Take(s, fill);
      var page := if b in t.state.pages then t.state.pages[b] else [];
      Taken(Marked(t.state.(pages := t.state.pages[t.block := page]), t.block, CopyOf(b)), t.block)
  }

  function FreedIn(s: State, b: nat): State {
    match MarkIn(s, b)
    case Allocated => Push(Marked(s, b, Unset), b)
    case CopyOf(original) => Push(Marked(Marked(s, b, Unset), original, Freed), b)
    case Unset => Marked(s, b, Freed)
    case Freed => s
  }

  function Written(s: State, b: nat, page: Page): State {
    s.(pages := s.pages[b := page])
  }

  /** What the entry of block k adds to the free list at commit. */
  function Released(k: nat, mark: Mark, objlist: nat): seq<nat> {
    if k == SECONDARY then []
    else if k == objlist then [k]
    else match mark
      case Freed => [k]
      case CopyOf(original) => [original]
      case _ => []
  }

  function ReleasedAll(order: seq<nat>, marks: map<nat, Mark>, objlist: nat): seq<nat> {
    if order == [] then [] else
    var n := |order| - 1;
    ReleasedAll(order[..n], marks, objlist) + Released(order[n], MarkOf(marks, order[n]), objlist)
  }

  /** Commit, with the marks visited in the given order. */
  function Committed(s: State, order: seq<nat>): State {
    if s.txn.None? then s else
    var list := List(s) + ReleasedAll(order, s.txn.value.marks, s.objlist);
    var objects := if s.objlist in s.pages then s.pages[s.objlist] else [];
    State(s.pages[OBJLIST := objects][SECONDARY := list][PRIMARY := list], s.nblocks, PRIMARY, OBJLIST, None)
  }

  function Aborted(s: State): State {
    if s.txn.None? then s else
    var n := s.txn.value.nblocks;
    State(map i | i in s.pages && i < n :: s.pages[i], n, PRIMARY, OBJLIST, None)
  }

  // ---- what holds between transactions and inside one

  /** The free ids are blocks of the file outside the fixed ones, each listed once. */
  ghost predicate FreeOk(list: Page, n: nat) {
    && (forall i :: 0 <= i < |list| ==> USER_DATA <= list[i] < n)
    && (forall i, j :: 0 <= i < j < |list| ==> list[i] != list[j])
  }

  ghost predicate Closed(s: State) {
    && s.txn.None? && s.freelist == PRIMARY && s.objlist == OBJLIST
    && USER_DATA <= s.nblocks && Blocks(s.pages, s.nblocks)
    && FreeOk(List(s), s.nblocks)
  }

  /** In use when the transaction began. */
  ghost predicate Old(s0: State, b: nat) {
    USER_DATA <= b < s0.nblocks && b !in List(s0)
  }

  /** In use now, and not when the transaction began. */
  ghost predicate New(s0: State, s: State, b: nat) {
    USER_DATA <= b < s.nblocks && !Old(s0, b) && b !in List(s)
  }

  /** What a mark says about its block, given the state s0 at begin and the state s now. */
  ghost predicate MarkOk(s0: State, s: State, k: nat, mark: Mark) {
    match mark
    case Unset => !New(s0, s, k)
    case Allocated => New(s0, s, k)
    case Freed => Old(s0, k)
    case CopyOf(original) =>
      && New(s0, s, k)
      && if original == OBJLIST then k == s.objlist else Old(s0, original) && MarkIn(s, original).Unset?
  }

  /** The state s belongs to a transaction that began in s0, except that block x may still have to be marked. */
  ghost predicate Almost(s0: State, s: State, x: nat) {
    && Closed(s0) && s.txn.Some? && s.txn.value.nblocks == s0.nblocks <= s.nblocks
    && Blocks(s.pages, s.nblocks) && s.freelist == SECONDARY
    && FreeOk(List(s), s.nblocks) && (forall b :: b in List(s) ==> !Old(s0, b))
    && MarkIn(s, SECONDARY) == CopyOf(PRIMARY) && OBJLIST !in s.txn.value.marks
    && (s.objlist == OBJLIST || (s.objlist != SECONDARY && MarkIn(s, s.objlist) == CopyOf(OBJLIST)))
    && (forall k :: k != SECONDARY && k != x ==> MarkOk(s0, s, k, MarkIn(s, k)))
    && (forall j, k :: j != k && MarkIn(s, j).CopyOf? && MarkIn(s, k).CopyOf? ==> MarkIn(s, j) != MarkIn(s, k))
    && Kept(s0, s)
  }

  ghost predicate During(s0: State, s: State) {
    Almost(s0, s, SECONDARY)
  }

  /** Nothing that the last commit refers to has been written. */
  ghost predicate Kept(s0: State, s: State) {
    forall b :: b in s0.pages && (Old(s0, b) || b == PRIMARY || b == OBJLIST) ==>
      b in s.pages && s.pages[b] == s0.pages[b]
  }

  /** Blocks that the next commit will free. */
  ghost predicate Pending(s: State, b: nat) {
    USER_DATA <= b && (MarkIn(s, b).Freed? || exists k :: MarkIn(s, k) == CopyOf(b))
  }

  /** Blocks the client may use. */
  ghost predicate Live(s: State, b: nat) {
    USER_DATA <= b < s.nblocks && b !in List(s) && !Pending(s, b)
  }

  // ---- begin

  lemma BeginStarts(s0: State)
    requires Closed(s0)
    ensures During(s0, Begun(s0))
    ensures forall b :: Live(Begun(s0), b) <==> Live(s0, b)
  {
    var s := Begun(s0);
    assert List(s) == List(s0);
    assert s.pages.Keys == s0.pages.Keys;
    forall k | k != SECONDARY
      ensures MarkIn(s, k).Unset? && !New(s0, s, k)
    {
    }
  }

  // ---- the steps

  /** The free list is a stack: the id that was listed last is the next one handed out, and the state is as before. */
  lemma PushThenTake(s: State, b: nat, fill: nat -> Page)
    requires s.freelist in s.pages
    ensures Take(Push(s, b), fill) == Taken(s, b)
  {
    assert s.pages[s.freelist := List(s) + [b]][s.freelist := List(s)] == s.pages;
    assert (List(s) + [b])[..|List(s)|] == List(s);
  }

  /** The last id of the list comes off it, or the first new block of the file is handed out. */
  lemma TakenFrom(s: State, fill: nat -> Page)
    requires s.freelist in s.pages
    ensures var t := AllocatedIn(s, fill);
            if List(s) == [] then t.block == s.nblocks else List(s) == List(t.state) + [t.block]
  {
  }

  /** So allocate gives back the block that was freed last, and undoes the free of a block got from allocate. */
  lemma FreeThenAllocate(s: State, b: nat, fill: nat -> Page)
    requires s.freelist in s.pages && (MarkIn(s, b).Allocated? || MarkIn(s, b).CopyOf?)
    ensures var t := AllocatedIn(FreedIn(s, b), fill);
            && t.block == b
            && t.state == if MarkIn(s, b).Allocated? then s
                          else Marked(Marked(s, MarkIn(s, b).block, Freed), b, Allocated)
  {
    var marks: map<nat, Mark> := s.txn.value.marks;
    if MarkIn(s, b).Allocated? {
      PushThenTake(Marked(s, b, Unset), b, fill);
      assert marks[b := Unset][b := Allocated] == marks;
    } else {
      var original := MarkIn(s, b).block;
      PushThenTake(Marked(Marked(s, b, Unset), original, Freed), b, fill);
      assert marks[b := Unset][original := Freed][b := Allocated] == marks[original := Freed][b := Allocated];
    }
    hide Take, Push;
  }

  lemma TakeGrows(s: State, fill: nat -> Page)
    requires Blocks(s.pages, s.nblocks) && s.freelist < s.nblocks && USER_DATA <= s.nblocks && List(s) == []
    ensures var t := Take(s, fill);
            && t.block == s.nblocks < t.state.nblocks == GrownSize(s.nblocks)
            && Blocks(t.state.pages, t.state.nblocks)
            && List(t.state) == Range(s.nblocks + 1, t.state.nblocks)
            && (forall i :: 0 <= i < |List(t.state)| ==> List(t.state)[i] == s.nblocks + 1 + i)
            && FreeOk(List(t.state), t.state.nblocks)
            && (forall b :: b in s.pages && b != s.freelist ==> t.state.pages[b] == s.pages[b])
  {
    GrownSizeIs(s.nblocks);
    hide GrownSize;
  }

  /** The file and the free list changed, but the marks still fit: only block x came into use. */
  lemma Reframe(s0: State, s: State, s': State, x: nat)
    requires During(s0, s) && s'.txn == s.txn && s'.objlist == s.objlist && s'.freelist == s.freelist
    requires s.nblocks <= s'.nblocks && Blocks(s'.pages, s'.nblocks) && FreeOk(List(s'), s'.nblocks)
    requires (forall b :: b in List(s') ==> !Old(s0, b)) && Kept(s0, s')
    requires !New(s0, s, x) && !Old(s0, x) && x != SECONDARY
    requires forall k :: k != x ==> (New(s0, s', k) <==> New(s0, s, k))
    ensures Almost(s0, s', x) && MarkIn(s', x).Unset?
  {
    hide New, Old, Kept, Blocks, FreeOk, List, Closed;
    assert MarkOk(s0, s, x, MarkIn(s, x));
    assert forall k :: MarkIn(s', k) == MarkIn(s, k);
    forall k | k != SECONDARY && k != x
      ensures MarkOk(s0, s', k, MarkIn(s', k))
    {
      assert MarkOk(s0, s, k, MarkIn(s, k));
    }
  }

  lemma TakePops(s0: State, s: State, fill: nat -> Page)
    requires During(s0, s) && List(s) != []
    ensures var t := Take(s, fill);
            && Blocks(t.state.pages, t.state.nblocks) && FreeOk(List(t.state), t.state.nblocks) && Kept(s0, t.state)
            && (forall b :: b in List(t.state) ==> !Old(s0, b))
            && !New(s0, s, t.block) && !Old(s0, t.block) && New(s0, t.state, t.block)
            && forall k :: k != t.block ==> (New(s0, t.state, k) <==> New(s0, s, k))
  {
    var list := List(s);
    assert forall b :: b in list <==> b in list[..|list| - 1] || b == list[|list| - 1];
    assert list[|list| - 1] in list;
  }

  lemma TakeExtends(s0: State, s: State, fill: nat -> Page)
    requires During(s0, s) && List(s) == []
    ensures var t := Take(s, fill);
            && s.nblocks <= t.state.nblocks
            && Blocks(t.state.pages, t.state.nblocks) && FreeOk(List(t.state), t.state.nblocks) && Kept(s0, t.state)
            && (forall b :: b in List(t.state) ==> !Old(s0, b))
            && !New(s0, s, t.block) && !Old(s0, t.block) && New(s0, t.state, t.block)
            && forall k :: k != t.block ==> (New(s0, t.state, k) <==> New(s0, s, k))
  {
    TakeGrows(s, fill);
    RangeHas(s.nblocks + 1, Take(s, fill).state.nblocks);
    hide Range, GrownSize, Take;
  }

  lemma RangeHas(a: nat, b: nat)
    ensures forall x: nat :: x in Range(a, b) <==> a <= x < b
  {
    forall x: nat | a <= x < b
      ensures x in Range(a, b)
    {
      assert Range(a, b)[x - a] == x;
    }
  }

  /** A block taken from the free list or from the end of the file was not in use, and no longer is listed. */
  lemma TakeKeeps(s0: State, s: State, fill: nat -> Page)
    requires During(s0, s)
    ensures var t := Take(s, fill);
            && Almost(s0, t.state, t.block) && New(s0, t.state, t.block) && MarkIn(t.state, t.block).Unset?
            && t.state.objlist == s.objlist && t.state.txn == s.txn
            && (forall k :: k != t.block ==> (New(s0, t.state, k) <==> New(s0, s, k)))
  {
    var t := Take(s, fill);
    if List(s) == [] {
      TakeExtends(s0, s, fill);
    } else {
      TakePops(s0, s, fill);
    }
    hide New, Old, Kept, Blocks, FreeOk, Closed;
    Reframe(s0, s, t.state, t.block);
  }

  /** Almost everything of During, apart from the marks: what no change of marks can break. */
  lemma Remark(s0: State, s: State, x: nat, b: nat, mark: Mark)
    requires Almost(s0, s, x) && b != SECONDARY
    ensures Marked(s, b, mark).pages == s.pages && List(Marked(s, b, mark)) == List(s)
    ensures forall k :: MarkIn(Marked(s, b, mark), k) == if k == b then mark else MarkIn(s, k)
    ensures forall k :: New(s0, Marked(s, b, mark), k) <==> New(s0, s, k)
  {
  }

  lemma AllocateKeeps(s0: State, s: State, fill: nat -> Page)
    requires During(s0, s)
    ensures var t := AllocatedIn(s, fill);
            During(s0, t.state) && New(s0, t.state, t.block) && MarkIn(t.state, t.block) == Allocated
  {
    var t := Take(s, fill);
    TakeKeeps(s0, s, fill);
    Remark(s0, t.state, t.block, t.block, Allocated);
    hide Take, New, Old, Kept, Blocks, FreeOk, List, Closed;
    var s' := Marked(t.state, t.block, Allocated);
    forall k | k != SECONDARY
      ensures MarkOk(s0, s', k, MarkIn(s', k))
    {
      assert k != t.block ==> MarkOk(s0, t.state, k, MarkIn(t.state, k));
    }
  }

  /** Writing to a block that came into use in this transaction touches nothing of the last commit. */
  lemma WriteAlmost(s0: State, s: State, x: nat, b: nat, page: Page)
    requires Almost(s0, s, x) && New(s0, s, b)
    ensures Almost(s0, Written(s, b, page), x) && List(Written(s, b, page)) == List(s)
    ensures forall k :: New(s0, Written(s, b, page), k) <==> New(s0, s, k)
    ensures forall k :: MarkIn(Written(s, b, page), k) == MarkIn(s, k)
  {
    var s' := Written(s, b, page);
    assert forall k :: MarkIn(s', k) == MarkIn(s, k);
    assert forall k :: New(s0, s', k) <==> New(s0, s, k);
    forall k | k != SECONDARY && k != x
      ensures MarkOk(s0, s', k, MarkIn(s', k))
    {
      assert MarkOk(s0, s, k, MarkIn(s, k));
    }
  }

  lemma WriteKeeps(s0: State, s: State, b: nat, page: Page)
    requires During(s0, s) && b != SECONDARY && (MarkIn(s, b).Allocated? || MarkIn(s, b).CopyOf?)
    ensures During(s0, Written(s, b, page))
  {
    assert MarkOk(s0, s, b, MarkIn(s, b));
    WriteAlmost(s0, s, SECONDARY, b, page);
  }

  /** A copy of block b, which has no mark and no other copy. */
  lemma CopyKeeps(s0: State, s: State, b: nat, fill: nat -> Page)
    requires During(s0, s) && MarkIn(s, b).Unset? && (forall k :: MarkIn(s, k) != CopyOf(b))
    requires Old(s0, b) || (b == OBJLIST == s.objlist)
    ensures var t := ModifiedIn(s, b, fill);
            && During(s0, if b == OBJLIST then t.state.(objlist := t.block) else t.state)
            && b in s.pages && t.block in t.state.pages && t.state.pages[t.block] == s.pages[b]
            && New(s0, t.state, t.block) && MarkIn(t.state, t.block) == CopyOf(b)
  {
    var t := Take(s, fill);
    TakeKeeps(s0, s, fill);
    PagesKept(s0, s, t.state, b);
    assert t.block != b && t.block != SECONDARY;
    assert forall k :: MarkIn(t.state, k) == MarkIn(s, k);
    var page := t.state.pages[b];
    var s1 := Written(t.state, t.block, page);
    WriteAlmost(s0, t.state, t.block, t.block, page);
    Remark(s0, s1, t.block, t.block, CopyOf(b));
    hide Take, Old, Kept, Blocks, FreeOk, List, Closed;
    var s2 := Marked(s1, t.block, CopyOf(b));
    assert s2 == ModifiedIn(s, b, fill).state;
    FinishCopy(s0, s1, t.block, b, s2);
  }

  /** A copy is made in the last listed id, or in the first new block of the file, like an allocated block. */
  lemma CopiedTo(s0: State, s: State, b: nat, fill: nat -> Page)
    requires During(s0, s)
    ensures var t := ModifiedIn(s, b, fill);
            t.block == b || if List(s) == [] then t.block == s.nblocks else List(s) == List(t.state) + [t.block]
  {
    hide During, Almost, New, Take, ModifiedIn, AllocatedIn, List;
    RootIsFixed(s0, s);
    TakenFrom(s, fill);
    TakeKeeps(s0, s, fill);
    NewIsUser(s0, Take(s, fill).state, Take(s, fill).block);
    CopyLists(s, b, fill);
  }

  lemma RootIsFixed(s0: State, s: State)
    requires During(s0, s)
    ensures s.freelist == SECONDARY && s.freelist in s.pages
  {
  }

  lemma NewIsUser(s0: State, s: State, b: nat)
    requires New(s0, s, b)
    ensures USER_DATA <= b
  {
  }

  lemma CopyLists(s: State, b: nat, fill: nat -> Page)
    requires s.freelist == SECONDARY && Take(s, fill).block != SECONDARY
    ensures var t, a := ModifiedIn(s, b, fill), AllocatedIn(s, fill);
            t.block == b || (t.block == a.block && List(t.state) == List(a.state))
  {
  }

  lemma PagesKept(s0: State, s: State, s': State, b: nat)
    requires Almost(s0, s, SECONDARY) && Kept(s0, s') && (Old(s0, b) || b == OBJLIST)
    ensures b in s.pages && b in s'.pages && s'.pages[b] == s.pages[b]
  {
    assert b in s0.pages;
  }

  lemma FinishCopy(s0: State, s1: State, x: nat, b: nat, s2: State)
    requires Almost(s0, s1, x) && New(s0, s1, x) && MarkIn(s1, x).Unset? && MarkIn(s1, b).Unset?
    requires (forall k :: MarkIn(s1, k) != CopyOf(b)) && (Old(s0, b) || b == OBJLIST == s1.objlist)
    requires s2 == Marked(s1, x, CopyOf(b))
    requires x != SECONDARY && x != b
    ensures During(s0, if b == OBJLIST then s2.(objlist := x) else s2)
    ensures New(s0, s2, x) && MarkIn(s2, x) == CopyOf(b)
  {
    Remark(s0, s1, x, x, CopyOf(b));
    var s3 := if b == OBJLIST then s2.(objlist := x) else s2;
    assert List(s3) == List(s1) && s3.pages == s1.pages;
    assert forall k :: (New(s0, s3, k) <==> New(s0, s1, k)) && MarkIn(s3, k) == MarkIn(s2, k);
    hide Kept, Blocks, FreeOk, List, Closed;
    forall k | k != SECONDARY
      ensures MarkOk(s0, s3, k, MarkIn(s3, k))
    {
      assert k != x ==> MarkOk(s0, s1, k, MarkIn(s1, k));
    }
  }

  /** A block in use goes back to the free list; block b lost its mark before. */
  lemma PushKeeps(s0: State, s: State, b: nat)
    requires Almost(s0, s, b) && New(s0, s, b) && MarkIn(s, b).Unset? && b != s.objlist
    requires forall k :: MarkIn(s, k) != CopyOf(b)
    ensures During(s0, Push(s, b)) && !New(s0, Push(s, b), b)
  {
    var s' := Push(s, b);
    assert List(s') == List(s) + [b];
    assert forall k :: MarkIn(s', k) == MarkIn(s, k);
    assert forall k :: k != b ==> (New(s0, s', k) <==> New(s0, s, k));
    forall k | k != SECONDARY
      ensures MarkOk(s0, s', k, MarkIn(s', k))
    {
      assert k != b ==> MarkOk(s0, s, k, MarkIn(s, k));
    }
  }

  /** An old block is noted as freed. */
  lemma FreedMark(s0: State, s: State, x: nat, b: nat)
    requires Almost(s0, s, x) && Old(s0, b) && MarkIn(s, b).Unset? && b != x
    requires forall k :: k != x ==> MarkIn(s, k) != CopyOf(b)
    requires MarkIn(s, x).CopyOf? ==> x == SECONDARY
    ensures Almost(s0, Marked(s, b, Freed), x)
  {
    Remark(s0, s, x, b, Freed);
    var s' := Marked(s, b, Freed);
    hide New, Old, Kept, Blocks, FreeOk, List, Closed;
    forall k | k != SECONDARY && k != x
      ensures MarkOk(s0, s', k, MarkIn(s', k))
    {
      assert MarkOk(s0, s, k, MarkIn(s, k));
    }
  }

  lemma FreeInvariant(s0: State, s: State, b: nat)
    requires During(s0, s) && Live(s, b) && b != s.objlist
    ensures During(s0, FreedIn(s, b))
  {
    assert MarkOk(s0, s, b, MarkIn(s, b));
    match MarkIn(s, b)
    case Unset =>
      FreedMark(s0, s, SECONDARY, b);
    case Allocated =>
      Unmark(s0, s, b);
      PushKeeps(s0, Marked(s, b, Unset), b);
    case CopyOf(original) =>
      Unmark(s0, s, b);
      FreedMark(s0, Marked(s, b, Unset), b, original);
      Remark(s0, Marked(s, b, Unset), b, original, Freed);
      PushKeeps(s0, Marked(Marked(s, b, Unset), original, Freed), b);
    case Freed =>
  }

  lemma Unmark(s0: State, s: State, b: nat)
    requires During(s0, s) && b != SECONDARY && b != OBJLIST && b != s.objlist
    ensures Almost(s0, Marked(s, b, Unset), b)
    ensures forall k :: MarkIn(Marked(s, b, Unset), k) == if k == b then Unset else MarkIn(s, k)
    ensures forall k :: New(s0, Marked(s, b, Unset), k) <==> New(s0, s, k)
  {
    Remark(s0, s, SECONDARY, b, Unset);
    var s' := Marked(s, b, Unset);
    hide New, Old, Kept, Blocks, FreeOk, List, Closed;
    forall k | k != SECONDARY && k != b
      ensures MarkOk(s0, s', k, MarkIn(s', k))
    {
      assert MarkOk(s0, s, k, MarkIn(s, k));
    }
  }

  /** A mark on some block, and none on another one, as seen through the marks of all blocks. */
  lemma FreedPending(s0: State, s: State, b: nat)
    requires During(s0, s) && Live(s, b) && b != s.objlist
    ensures forall x :: Pending(FreedIn(s, b), x) <==> Pending(s, x) || (x == b && Old(s0, b))
  {
    var s' := FreedIn(s, b);
    assert MarkOk(s0, s, b, MarkIn(s, b));
    forall x | USER_DATA <= x
      ensures Pending(s', x) <==> Pending(s, x) || (x == b && Old(s0, b))
    {
      assert x != SECONDARY ==> MarkOk(s0, s, x, MarkIn(s, x));
      assert forall k :: k != b && MarkIn(s, k) == CopyOf(x) ==> MarkIn(s', k) == CopyOf(x);
    }
  }

  /**
   A free takes its block away from the client, and no other: a block that came into use in this transaction goes on
   the free list at once; an older one, and the original of a copy, is left to the commit.
   */
  lemma FreeKeeps(s0: State, s: State, b: nat)
    requires During(s0, s) && Live(s, b) && b != s.objlist
    ensures var s' := FreedIn(s, b);
            && During(s0, s')
            && (forall x :: Live(s', x) <==> Live(s, x) && x != b)
            && (forall x :: Pending(s', x) <==> Pending(s, x) || (x == b && Old(s0, b)))
            && List(s') == (if Old(s0, b) then List(s) else List(s) + [b])
            && (MarkIn(s', b).Freed? <==> Old(s0, b))
  {
    FreeInvariant(s0, s, b);
    FreedPending(s0, s, b);
    assert MarkOk(s0, s, b, MarkIn(s, b));
    assert forall x :: x in List(s) + [b] <==> x in List(s) || x == b;
    hide Pending, During;
  }

  // ---- runs

  datatype Op =
    | Allocate(fill: nat -> Page)
    | Modify(b: nat, fill: nat -> Page)
    | ModifyObjects(fill: nat -> Page)
    | Free(b: nat)
    | Write(b: nat, page: Page)

  function Step(s: State, op: Op): State {
    match op
    case Allocate(fill) => AllocatedIn(s, fill).state
    case Modify(b, fill) => ModifiedIn(s, b, fill).state
    case ModifyObjects(fill) => var t := ModifiedIn(s, s.objlist, fill); t.state.(objlist := t.block)
    case Free(b) => FreedIn(s, b)
    case Write(b, page) => Written(s, b, page)
  }

  /**
   What a well-behaved client asks for: it modifies and frees only blocks that are live, leaves the object list
   to ModifyObjects, and writes only to blocks it got from allocate or modify.
   */
  ghost predicate Allowed(s: State, op: Op) {
    match op
    case Allocate(_) => true
    case Modify(b, _) => Live(s, b)
    case ModifyObjects(_) => true
    case Free(b) => Live(s, b) && b != s.objlist
    case Write(b, _) => b != SECONDARY && (MarkIn(s, b).Allocated? || MarkIn(s, b).CopyOf?)
  }

  lemma StepKeeps(s0: State, s: State, op: Op)
    requires During(s0, s) && Allowed(s, op)
    ensures During(s0, Step(s, op))
  {
    match op
    case Allocate(fill) =>
      AllocateKeeps(s0, s, fill);
    case Modify(b, fill) =>
      ModifyKeeps(s0, s, b, fill);
    case ModifyObjects(fill) =>
      if s.objlist == OBJLIST {
        assert MarkIn(s, OBJLIST).Unset?;
        assert forall k :: MarkIn(s, k) == CopyOf(OBJLIST) ==> MarkOk(s0, s, k, MarkIn(s, k));
        CopyKeeps(s0, s, OBJLIST, fill);
      }
    case Free(b) =>
      FreeKeeps(s0, s, b);
    case Write(b, page) =>
      WriteKeeps(s0, s, b, page);
  }

  lemma ModifyKeeps(s0: State, s: State, b: nat, fill: nat -> Page)
    requires During(s0, s) && Live(s, b)
    ensures var t := ModifiedIn(s, b, fill);
            && During(s0, t.state) && New(s0, t.state, t.block)
            && (MarkIn(t.state, t.block).Allocated? || MarkIn(t.state, t.block).CopyOf?)
  {
    assert MarkOk(s0, s, b, MarkIn(s, b));
    if MarkIn(s, b).Unset? {
      CopyKeeps(s0, s, b, fill);
    }
  }

  ghost function Run(s: State, ops: seq<Op>): State {
    if ops == [] then s else Step(Run(s, ops[..|ops| - 1]), ops[|ops| - 1])
  }

  ghost predicate AllAllowed(s: State, ops: seq<Op>) {
    forall i :: 0 <= i < |ops| ==> Allowed(Run(s, ops[..i]), ops[i])
  }

  lemma {:induction false} RunKeeps(s0: State, s: State, ops: seq<Op>)
    requires During(s0, s) && AllAllowed(s, ops)
    ensures During(s0, Run(s, ops))
  {
    if ops != [] {
      var n := |ops| - 1;
      forall i | 0 <= i < n
        ensures Allowed(Run(s, ops[..n][..i]), ops[..n][i])
      {
        assert ops[..n][..i] == ops[..i];
      }
      RunKeeps(s0, s, ops[..n]);
      assert ops[..n][..n] == ops[..n];
      StepKeeps(s0, Run(s, ops[..n]), ops[n]);
    }
  }

  // ---- abort

  /** The state s is what s0 was: file size, free list, object list, and every block in use with its content. */
  ghost predicate Restored(s0: State, s: State) {
    && Closed(s) && s.nblocks == s0.nblocks && List(s) == List(s0)
    && OBJLIST in s.pages && OBJLIST in s0.pages && s.pages[OBJLIST] == s0.pages[OBJLIST]
    && (forall b :: Live(s, b) <==> Live(s0, b))
    && (forall b :: Live(s0, b) ==> b in s.pages && b in s0.pages && s.pages[b] == s0.pages[b])
  }

  lemma AbortRestores(s0: State, s: State)
    requires During(s0, s)
    ensures Restored(s0, Aborted(s))
  {
    var s' := Aborted(s);
    assert PRIMARY in s0.pages && OBJLIST in s0.pages;
    assert forall k :: MarkIn(s', k).Unset? && MarkIn(s0, k).Unset?;
    assert forall b :: Live(s0, b) <==> Old(s0, b);
  }

  /** Whatever a well-behaved client does in a transaction, abort brings back the state at begin. */
  lemma AbortAfterRun(s0: State, ops: seq<Op>)
    requires Closed(s0) && AllAllowed(Begun(s0), ops)
    ensures Restored(s0, Aborted(Run(Begun(s0), ops)))
  {
    BeginStarts(s0);
    RunKeeps(s0, Begun(s0), ops);
    AbortRestores(s0, Run(Begun(s0), ops));
  }

  /** No block that the last commit refers to is written at any point of a transaction. */
  lemma CommittedUntouched(s0: State, ops: seq<Op>, b: nat)
    requires Closed(s0) && AllAllowed(Begun(s0), ops)
    requires Live(s0, b) || b == PRIMARY || b == OBJLIST
    ensures var s := Run(Begun(s0), ops); b in s0.pages && b in s.pages && s.pages[b] == s0.pages[b]
  {
    BeginStarts(s0);
    RunKeeps(s0, Begun(s0), ops);
  }

  // ---- conservation

  /** Each user block of the file is in exactly one place: on the free list, live, or pending. */
  lemma Partition(s0: State, s: State, b: nat)
    requires During(s0, s)
    ensures b in List(s) || Pending(s, b) || Live(s, b) ==> USER_DATA <= b < s.nblocks
    ensures USER_DATA <= b < s.nblocks ==>
              (if b in List(s) then 1 else 0) + (if Pending(s, b) then 1 else 0) + (if Live(s, b) then 1 else 0) == 1
    ensures Pending(s, b) ==> Old(s0, b)
    ensures Live(s, b) <==> (Old(s0, b) && !Pending(s, b)) || New(s0, s, b)
  {
    assert b != SECONDARY ==> MarkOk(s0, s, b, MarkIn(s, b));
    if Pending(s, b) && !MarkIn(s, b).Freed? {
      var k :| MarkIn(s, k) == CopyOf(b);
      assert MarkOk(s0, s, k, MarkIn(s, k));
    }
  }

  // ---- commit

  /** The order in which the marks are visited: each block with an entry once. */
  ghost predicate Visits(order: seq<nat>, s: State) {
    && s.txn.Some?
    && (forall k :: k in s.txn.value.marks <==> k in order)
    && (forall i, j :: 0 <= i < j < |order| ==> order[i] != order[j])
  }

  lemma {:induction false} ReleasedHas(order: seq<nat>, marks: map<nat, Mark>, objlist: nat, b: nat)
    ensures b in ReleasedAll(order, marks, objlist)
       <==> exists k :: k in order && b in Released(k, MarkOf(marks, k), objlist)
  {
    if order != [] {
      var n := |order| - 1;
      ReleasedHas(order[..n], marks, objlist, b);
      assert order == order[..n] + [order[n]];
    }
  }

  /** The next entry of a visit, and what it adds. */
  lemma NextReleased(order: seq<nat>, i: nat, marks: map<nat, Mark>, objlist: nat)
    requires i < |order|
    ensures ReleasedAll(order[..i + 1], marks, objlist)
         == ReleasedAll(order[..i], marks, objlist) + Released(order[i], MarkOf(marks, order[i]), objlist)
    ensures |ReleasedAll(order[..i + 1], marks, objlist)| <= |ReleasedAll(order, marks, objlist)|
  {
    assert order[..i + 1][..i] == order[..i];
    ReleasedGrows(order, i + 1, marks, objlist);
  }

  lemma {:induction false} ReleasedGrows(order: seq<nat>, i: nat, marks: map<nat, Mark>, objlist: nat)
    requires i <= |order|
    ensures |ReleasedAll(order[..i], marks, objlist)| <= |ReleasedAll(order, marks, objlist)|
    decreases |order|
  {
    if i < |order| {
      var n := |order| - 1;
      ReleasedGrows(order[..n], i, marks, objlist);
      assert order[..n][..i] == order[..i];
    } else {
      assert order[..i] == order;
    }
  }

  /** The state after the entries in done were visited. */
  ghost function CommitPart(s: State, done: seq<nat>): State
    requires s.txn.Some? && s.objlist in s.pages && OBJLIST in s.pages
  {
    PartOf(s, s.objlist in done, List(s) + ReleasedAll(done, s.txn.value.marks, s.objlist))
  }

  ghost function PartOf(s: State, copied: bool, list: Page): State
    requires s.objlist in s.pages && OBJLIST in s.pages
  {
    s.(pages := s.pages[OBJLIST := s.pages[if copied then s.objlist else OBJLIST]][SECONDARY := list],
       objlist := if copied then OBJLIST else s.objlist)
  }

  lemma PushPart(s: State, copied: bool, list: Page, x: nat)
    requires s.objlist in s.pages && OBJLIST in s.pages && s.freelist == SECONDARY
    ensures Push(PartOf(s, copied, list), x) == PartOf(s, copied, list + [x])
  {
    var pages: map<nat, Page> := s.pages[OBJLIST := s.pages[if copied then s.objlist else OBJLIST]];
    assert pages[SECONDARY := list][SECONDARY := list + [x]] == pages[SECONDARY := list + [x]];
  }

  lemma CopyPart(s: State, list: Page, x: nat)
    requires s.objlist in s.pages && OBJLIST in s.pages && s.freelist == SECONDARY && s.objlist !in {SECONDARY, OBJLIST}
    ensures var p := PartOf(s, false, list);
            && p.pages[s.objlist] == s.pages[s.objlist]
            && Push(p.(pages := p.pages[OBJLIST := p.pages[s.objlist]]), x).(objlist := OBJLIST)
               == PartOf(s, true, list + [x])
  {
    var p := PartOf(s, false, list);
    assert p.pages[OBJLIST := p.pages[s.objlist]][SECONDARY := list + [x]] == PartOf(s, true, list + [x]).pages;
  }

  lemma CommitPartStart(s0: State, s: State)
    requires During(s0, s)
    ensures s.objlist in s.pages && OBJLIST in s.pages && CommitPart(s, []) == s
  {
    assert s.objlist != SECONDARY ==> MarkOk(s0, s, s.objlist, MarkIn(s, s.objlist));
    assert List(s) + [] == List(s);
    assert s.pages[OBJLIST := s.pages[OBJLIST]][SECONDARY := List(s)] == s.pages;
  }

  lemma CommitPartEnd(s0: State, s: State, order: seq<nat>)
    requires During(s0, s) && Visits(order, s) && s.objlist in s.pages && OBJLIST in s.pages
    ensures var p := CommitPart(s, order);
            Committed(s, order)
              == p.(pages := p.pages[PRIMARY := List(p)], freelist := PRIMARY, objlist := OBJLIST, txn := None)
  {
    assert s.objlist == OBJLIST || s.objlist in order;
  }

  /** One turn of the commit loop. */
  lemma CommitPartNext(s0: State, s: State, order: seq<nat>, i: nat)
    requires During(s0, s) && Visits(order, s) && i < |order| && s.objlist in s.pages && OBJLIST in s.pages
    ensures var p, p' := CommitPart(s, order[..i]), CommitPart(s, order[..i + 1]);
            var k := order[i];
            && p.txn == s.txn && p.freelist == SECONDARY && p.objlist in p.pages && k != OBJLIST
            && if k == SECONDARY then p' == p
               else if k == p.objlist then
                 USER_DATA <= k && p' == Push(p.(pages := p.pages[OBJLIST := p.pages[k]]), k).(objlist := OBJLIST)
               else match MarkIn(s, k)
                 case Freed => USER_DATA <= k && p' == Push(p, k)
                 case CopyOf(original) => USER_DATA <= original && p' == Push(p, original)
                 case _ => p' == p
    ensures |List(CommitPart(s, order[..i + 1]))| <= |List(s)| + |ReleasedAll(order, s.txn.value.marks, s.objlist)|
  {
    var k, marks := order[i], s.txn.value.marks;
    var copied, list := s.objlist in order[..i], List(s) + ReleasedAll(order[..i], marks, s.objlist);
    assert order[..i + 1] == order[..i] + [k];
    assert k in order && k !in order[..i];
    assert MarkIn(s, k) == MarkOf(marks, k);
    NextReleased(order, i, marks, s.objlist);
    ReleasedIs(s0, s, k);
    var released := Released(k, MarkOf(marks, k), s.objlist);
    assert list + released == List(s) + ReleasedAll(order[..i + 1], marks, s.objlist);
    if released == [] {
      assert list + released == list;
    } else {
      PushPart(s, copied, list, released[0]);
    }
    if k == s.objlist {
      CopyPart(s, list, k);
    }
    if k != SECONDARY {
      assert MarkOk(s0, s, k, MarkIn(s, k));
    }
    hide ReleasedAll, Visits, PartOf, Push, List, MarkOk;
  }

  ghost predicate Separate(order: seq<nat>, marks: map<nat, Mark>, objlist: nat) {
    forall j, k, b :: j in order && k in order && j != k && b in Released(j, MarkOf(marks, j), objlist) ==>
      b !in Released(k, MarkOf(marks, k), objlist)
  }

  lemma {:induction false} ReleasedOnce(order: seq<nat>, marks: map<nat, Mark>, objlist: nat)
    requires forall i, j :: 0 <= i < j < |order| ==> order[i] != order[j]
    requires Separate(order, marks, objlist)
    ensures forall i, j :: 0 <= i < j < |ReleasedAll(order, marks, objlist)| ==>
              ReleasedAll(order, marks, objlist)[i] != ReleasedAll(order, marks, objlist)[j]
  {
    if order != [] {
      var n := |order| - 1;
      var rest, last := ReleasedAll(order[..n], marks, objlist), Released(order[n], MarkOf(marks, order[n]), objlist);
      assert order == order[..n] + [order[n]];
      ReleasedOnce(order[..n], marks, objlist);
      forall i | 0 <= i < |rest|
        ensures rest[i] !in last
      {
        ReleasedHas(order[..n], marks, objlist, rest[i]);
      }
    }
  }

  /** What one entry releases: a pending block, or the private copy of the object list. */
  lemma ReleasedIs(s0: State, s: State, k: nat)
    requires During(s0, s) && k in s.txn.value.marks
    ensures forall b :: b in Released(k, MarkIn(s, k), s.objlist) ==>
              if k == s.objlist then b == k && New(s0, s, b)
              else Old(s0, b) && (MarkIn(s, k) == CopyOf(b) || (b == k && MarkIn(s, k).Freed?))
  {
    assert k != SECONDARY ==> MarkOk(s0, s, k, MarkIn(s, k));
  }

  lemma EntriesSeparate(s0: State, s: State, order: seq<nat>)
    requires During(s0, s) && Visits(order, s)
    ensures Separate(order, s.txn.value.marks, s.objlist)
  {
    var marks := s.txn.value.marks;
    forall j, k, b | j in order && k in order && j != k && b in Released(j, MarkOf(marks, j), s.objlist)
      ensures b !in Released(k, MarkOf(marks, k), s.objlist)
    {
      ReleasedIs(s0, s, j);
      ReleasedIs(s0, s, k);
      assert MarkIn(s, j) == MarkOf(marks, j) && MarkIn(s, k) == MarkOf(marks, k);
      assert j != SECONDARY ==> MarkOk(s0, s, j, MarkIn(s, j));
      assert k != SECONDARY ==> MarkOk(s0, s, k, MarkIn(s, k));
    }
  }

  /** All entries together release the pending blocks and the private copy of the object list, and nothing else. */
  lemma ReleasedIsPending(s0: State, s: State, order: seq<nat>, b: nat)
    requires During(s0, s) && Visits(order, s)
    ensures b in ReleasedAll(order, s.txn.value.marks, s.objlist) <==>
              Pending(s, b) || (b == s.objlist && b != OBJLIST)
  {
    var marks := s.txn.value.marks;
    ReleasedHas(order, marks, s.objlist, b);
    if b in ReleasedAll(order, marks, s.objlist) {
      var k :| k in order && b in Released(k, MarkOf(marks, k), s.objlist);
      ReleasedIs(s0, s, k);
      assert MarkIn(s, k) == MarkOf(marks, k);
    }
    if Pending(s, b) {
      var k := b;
      if !MarkIn(s, b).Freed? {
        k :| MarkIn(s, k) == CopyOf(b);
      }
      assert k != SECONDARY ==> MarkOk(s0, s, k, MarkIn(s, k));
      assert k in order && b in Released(k, MarkOf(marks, k), s.objlist);
    }
    if b == s.objlist && b != OBJLIST {
      assert b in order && b in Released(b, MarkOf(marks, b), s.objlist);
    }
  }

  /** The state s' publishes the transaction that led to s. */
  ghost predicate Published(s: State, s': State) {
    && Closed(s') && s'.nblocks == s.nblocks
    && (forall b :: b in List(s') <==> b in List(s) || Pending(s, b) || (b == s.objlist && b != OBJLIST))
    && (forall b :: Live(s', b) <==> Live(s, b) && b != s.objlist)
    && (forall b :: Live(s', b) ==> b in s'.pages && b in s.pages && s'.pages[b] == s.pages[b])
    && OBJLIST in s'.pages && s.objlist in s.pages && s'.pages[OBJLIST] == s.pages[s.objlist]
  }

  lemma FreeConcat(a: Page, c: Page, n: nat)
    requires FreeOk(a, n)
    requires forall b: nat :: b in c ==> USER_DATA <= b < n && b !in a
    requires forall i, j :: 0 <= i < j < |c| ==> c[i] != c[j]
    ensures FreeOk(a + c, n)
  {
    forall i | 0 <= i < |c|
      ensures USER_DATA <= c[i] < n && c[i] !in a
    {
      assert c[i] in c;
    }
  }

  lemma CommitPublishes(s0: State, s: State, order: seq<nat>)
    requires During(s0, s) && Visits(order, s)
    ensures Published(s, Committed(s, order))
  {
    var marks, s' := s.txn.value.marks, Committed(s, order);
    var all := ReleasedAll(order, marks, s.objlist);
    EntriesSeparate(s0, s, order);
    ReleasedOnce(order, marks, s.objlist);
    forall b: nat
      ensures b in all <==> Pending(s, b) || (b == s.objlist && b != OBJLIST)
      ensures b in all ==> USER_DATA <= b < s.nblocks && b !in List(s)
    {
      ReleasedIsPending(s0, s, order, b);
      Partition(s0, s, b);
      assert s.objlist != SECONDARY ==> MarkOk(s0, s, s.objlist, MarkIn(s, s.objlist));
    }
    FreeConcat(List(s), all, s.nblocks);
    assert List(s') == List(s) + all;
    assert forall k :: MarkIn(s', k).Unset?;
    assert s.objlist != SECONDARY ==> MarkOk(s0, s, s.objlist, MarkIn(s, s.objlist));
  }

  /** Whichever of the three ways a block was freed, the next commit lists it. */
  lemma FreedIsListed(s0: State, s: State, b: nat, order: seq<nat>)
    requires During(s0, s) && Live(s, b) && b != s.objlist && Visits(order, FreedIn(s, b))
    ensures b in List(Committed(FreedIn(s, b), order)) && !Live(Committed(FreedIn(s, b), order), b)
  {
    FreeKeeps(s0, s, b);
    Partition(s0, s, b);
    hide FreedIn, Committed, List, During, Old, New;
    CommitPublishes(s0, FreedIn(s, b), order);
  }

  /**
   A block is freed twice in a row. The second free is refused, and nothing happens, if and only if the block was in
   use at begin. A block that came into use since lost its mark: the second free notes it as freed, and the commit
   lists it a second time.
   */
  lemma SecondFree(s0: State, s: State, b: nat, order: seq<nat>)
    requires During(s0, s) && Live(s, b) && b != s.objlist
    ensures var s1, s2 := FreedIn(s, b), FreedIn(FreedIn(s, b), b);
            && (MarkIn(s1, b).Freed? <==> Old(s0, b))
            && (Old(s0, b) ==> s2 == s1)
            && (!Old(s0, b) ==> MarkIn(s2, b).Freed? && List(s2) == List(s) + [b])
    ensures !Old(s0, b) && Visits(order, FreedIn(FreedIn(s, b), b)) ==>
              !FreeOk(List(Committed(FreedIn(FreedIn(s, b), b), order)), s.nblocks)
  {
    FreeKeeps(s0, s, b);
    var s1 := FreedIn(s, b);
    assert MarkOk(s0, s1, b, MarkIn(s1, b));
    var s2 := FreedIn(s1, b);
    if !Old(s0, b) && Visits(order, s2) {
      ReleasedHas(order, s2.txn.value.marks, s2.objlist, b);
      assert s2.objlist == s.objlist;
      assert b in order && b in Released(b, MarkOf(s2.txn.value.marks, b), s2.objlist);
      ListedTwice(List(s2), ReleasedAll(order, s2.txn.value.marks, s2.objlist), b, s.nblocks);
    }
  }

  /** In any file at all: begin, allocate, free that block twice, commit; the free list then has it twice. */
  lemma FreeTwiceListsTwice(s0: State, fill: nat -> Page, order: seq<nat>)
    requires Closed(s0)
    requires var t := AllocatedIn(Begun(s0), fill); Visits(order, FreedIn(FreedIn(t.state, t.block), t.block))
    ensures var t := AllocatedIn(Begun(s0), fill);
            var s := Committed(FreedIn(FreedIn(t.state, t.block), t.block), order);
            !FreeOk(List(s), t.state.nblocks) && !Closed(s)
  {
    hide FreedIn, Committed, AllocatedIn, Visits, Begun;
    BeginStarts(s0);
    AllocateKeeps(s0, Begun(s0), fill);
    AllocatedObjects(Begun(s0), fill);
    BegunObjects(s0);
    var t := AllocatedIn(Begun(s0), fill);
    Partition(s0, t.state, t.block);
    SecondFree(s0, t.state, t.block, order);
    CommittedSize(t.state, t.block, order);
    hide During, New, Old, Live;
  }

  lemma AllocatedObjects(s: State, fill: nat -> Page)
    ensures AllocatedIn(s, fill).state.objlist == s.objlist
  {
  }

  lemma BegunObjects(s0: State)
    requires Closed(s0)
    ensures Begun(s0).objlist == OBJLIST
  {
  }

  lemma CommittedSize(s: State, b: nat, order: seq<nat>)
    ensures Committed(FreedIn(FreedIn(s, b), b), order).nblocks == s.nblocks
  {
  }

  lemma ListedTwice(a: Page, c: Page, b: nat, n: nat)
    requires b in a && b in c
    ensures !FreeOk(a + c, n)
  {
    var i :| 0 <= i < |a| && a[i] == b;
    var j :| 0 <= j < |c| && c[j] == b;
    assert (a + c)[i] == (a + c)[|a| + j];
  }

  /** Commit after any run of a well-behaved client publishes exactly what the transaction shows. */
  lemma CommitAfterRun(s0: State, ops: seq<Op>, order: seq<nat>)
    requires Closed(s0) && AllAllowed(Begun(s0), ops)
    requires Visits(order, Run(Begun(s0), ops))
    ensures Published(Run(Begun(s0), ops), Committed(Run(Begun(s0), ops), order))
  {
    BeginStarts(s0);
    RunKeeps(s0, Begun(s0), ops);
    CommitPublishes(s0, Run(Begun(s0), ops), order);
  }

  /** The order in which the marks are visited makes no difference to the set of free blocks or to their number. */
  lemma CommitOrderFree(s0: State, s: State, order: seq<nat>, order': seq<nat>)
    requires During(s0, s) && Visits(order, s) && Visits(order', s)
    ensures multiset(List(Committed(s, order))) == multiset(List(Committed(s, order')))
  {
    CommitPublishes(s0, s, order);
    CommitPublishes(s0, s, order');
    SameElements(List(Committed(s, order)), List(Committed(s, order')));
  }

  lemma {:induction false} CountOnce(a: seq<nat>, x: nat)
    requires forall i, j :: 0 <= i < j < |a| ==> a[i] != a[j]
    ensures multiset(a)[x] == if x in a then 1 else 0
  {
    if a != [] {
      var n := |a| - 1;
      assert a == a[..n] + [a[n]];
      CountOnce(a[..n], x);
    }
  }

  lemma SameElements(a: seq<nat>, c: seq<nat>)
    requires forall i, j :: 0 <= i < j < |a| ==> a[i] != a[j]
    requires forall i, j :: 0 <= i < j < |c| ==> c[i] != c[j]
    requires forall x: nat :: x in a <==> x in c
    ensures multiset(a) == multiset(c)
  {
    forall x: nat
      ensures multiset(a)[x] == multiset(c)[x]
    {
      CountOnce(a, x);
      CountOnce(c, x);
    }
  }

  // ---- the inline free list

  /** In a file of at most 1025 blocks the free list never outgrows its root block. */
  lemma InlineFits(list: Page, n: nat)
    requires FreeOk(list, n) && USER_DATA <= n <= USER_DATA + INLINE
    ensures |list| <= n - USER_DATA <= INLINE
  {
    DistinctIn(list, Between(USER_DATA, n));
  }

  /** So neither a free nor a commit in such a file pushes more than the root block can hold. */
  lemma NoOverflow(s0: State, s: State, b: nat, order: seq<nat>)
    requires During(s0, s) && s.nblocks <= USER_DATA + INLINE && Visits(order, s)
    ensures Live(s, b) && b != s.objlist ==> |List(FreedIn(s, b))| <= INLINE
    ensures |List(Committed(s, order))| <= INLINE
  {
    CommitPublishes(s0, s, order);
    InlineFits(List(Committed(s, order)), s.nblocks);
    if Live(s, b) && b != s.objlist {
      FreeKeeps(s0, s, b);
      InlineFits(List(FreedIn(s, b)), s.nblocks);
    }
  }

  ghost function Between(a: nat, n: nat): (s: set<nat>)
    requires a <= n
    ensures |s| == n - a
    ensures forall x: nat :: x in s <==> a <= x < n
  {
    if a == n then {} else Between(a, n - 1) + {n - 1}
  }
}
