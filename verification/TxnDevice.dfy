/**
 The transaction layer as the block device the B+ tree works on: allocate, modify, free and writes do what the tree
 operations rely on, committed trees survive an abort, and live trees a commit.
 */
module TxnDevice {
  import opened TxnModel
  import opened BitMath
  import B = BTreeSteps
  import H = BTreeHeap
  import M = BTreeModel

  /**
   The user blocks of a transaction that began in s0, with their content read by any view: the blocks in use are those
   not on the free list, and writable are those that came into use since.
   */
  ghost function Device(s0: State, s: State, view: Page -> H.View): H.Heap {
    H.Heap(map b | b in s.pages && USER_DATA <= b :: view(s.pages[b]),
           set b | b in s.pages && USER_DATA <= b && b !in List(s),
           set b | b in s.pages && New(s0, s, b))
  }

  /** In use are the blocks that were in use at begin and those that came into use since. */
  lemma DeviceIs(s0: State, s: State, view: Page -> H.View)
    requires During(s0, s)
    ensures var d := Device(s0, s, view);
            && (forall x :: x in d.used <==> Old(s0, x) || New(s0, s, x))
            && (forall x :: x in d.writable <==> New(s0, s, x))
            && (forall x :: x in d.mem <==> x in s.pages && USER_DATA <= x)
            && (forall x :: x in d.mem ==> d.mem[x] == view(s.pages[x]))
  {
  }

  /** Taking a block writes none that the tree can see. */
  lemma TakePages(s0: State, s: State, fill: nat -> Page)
    requires During(s0, s)
    ensures var t := Take(s, fill);
            && t.block in t.state.pages && USER_DATA <= t.block
            && forall b :: b in s.pages && USER_DATA <= b ==> b in t.state.pages && t.state.pages[b] == s.pages[b]
  {
    if List(s) == [] {
      TakeGrows(s, fill);
      hide GrownSize, Range;
    } else {
      assert List(s)[|List(s)| - 1] in List(s);
    }
  }

  /** One block came into use, with new content perhaps; everything else the tree can see is as it was. */
  lemma CameIntoUse(s0: State, s: State, s': State, x: nat, view: Page -> H.View)
    requires During(s0, s) && During(s0, s') && New(s0, s', x) && !New(s0, s, x)
    requires forall k :: k != x ==> (New(s0, s', k) <==> New(s0, s, k))
    requires forall b :: b in s.pages && USER_DATA <= b && b != x ==> b in s'.pages && s'.pages[b] == s.pages[b]
    ensures B.Allocated(Device(s0, s, view), Device(s0, s', view), x)
  {
    DeviceIs(s0, s, view);
    DeviceIs(s0, s', view);
    assert New(s0, s', x) ==> !Old(s0, x) && x in s'.pages && USER_DATA <= x;
    hide During, New, Old, Device;
    var d, d' := Device(s0, s, view), Device(s0, s', view);
    assert d'.used == d.used + {x};
    assert d'.writable == d.writable + {x};
  }

  /** Allocation hands out a block that was not in use and disturbs no other. */
  lemma AllocateIsDevice(s0: State, s: State, fill: nat -> Page, view: Page -> H.View)
    requires During(s0, s)
    ensures var t := AllocatedIn(s, fill);
            During(s0, t.state) && B.Allocated(Device(s0, s, view), Device(s0, t.state, view), t.block)
  {
    AllocateKeeps(s0, s, fill);
    TakeKeeps(s0, s, fill);
    TakePages(s0, s, fill);
    var t, t' := Take(s, fill), AllocatedIn(s, fill);
    assert forall k :: New(s0, t'.state, k) <==> New(s0, t.state, k);
    TakenWasFree(s0, s, fill);
    hide Take, During, New, Old;
    CameIntoUse(s0, s, t'.state, t.block, view);
  }

  lemma TakenWasFree(s0: State, s: State, fill: nat -> Page)
    requires During(s0, s)
    ensures !New(s0, s, Take(s, fill).block)
  {
    if List(s) == [] {
      TakeExtends(s0, s, fill);
    } else {
      TakePops(s0, s, fill);
    }
  }

  /** Modify is copy on write as the tree expects it: the block itself, or a private copy of it. */
  lemma ModifyIsDevice(s0: State, s: State, b: nat, fill: nat -> Page, view: Page -> H.View)
    requires During(s0, s) && Live(s, b)
    ensures var t := ModifiedIn(s, b, fill);
            During(s0, t.state) && B.Modified(Device(s0, s, view), Device(s0, t.state, view), b, t.block)
  {
    ModifyKeeps(s0, s, b, fill);
    DeviceIs(s0, s, view);
    assert MarkOk(s0, s, b, MarkIn(s, b));
    if MarkIn(s, b).Unset? {
      CopyIsDevice(s0, s, b, fill, view);
    }
  }

  lemma CopyIsDevice(s0: State, s: State, b: nat, fill: nat -> Page, view: Page -> H.View)
    requires During(s0, s) && Live(s, b) && MarkIn(s, b).Unset?
    ensures var t := ModifiedIn(s, b, fill);
            B.Modified(Device(s0, s, view), Device(s0, t.state, view), b, t.block)
  {
    assert MarkOk(s0, s, b, MarkIn(s, b));
    CopyKeeps(s0, s, b, fill);
    TakeKeeps(s0, s, fill);
    TakePages(s0, s, fill);
    TakenWasFree(s0, s, fill);
    var t, t' := Take(s, fill), ModifiedIn(s, b, fill);
    assert forall k :: New(s0, t'.state, k) <==> New(s0, t.state, k);
    DeviceIs(s0, s, view);
    DeviceIs(s0, t'.state, view);
    hide Take, During, New, Old, Device;
    CameIntoUse(s0, s, t'.state, t.block, view);
  }

  /** Freeing a block of this transaction takes it out of use; freeing an older one leaves it to the commit. */
  lemma FreeIsDevice(s0: State, s: State, b: nat, view: Page -> H.View)
    requires During(s0, s) && Live(s, b) && b != s.objlist
    ensures During(s0, FreedIn(s, b))
    ensures var d := Device(s0, s, view);
            Device(s0, FreedIn(s, b), view) ==
              if New(s0, s, b) then H.Heap(d.mem, d.used - {b}, d.writable - {b}) else d
    ensures !Live(FreedIn(s, b), b) && (Pending(FreedIn(s, b), b) <==> !New(s0, s, b))
  {
    FreeKeeps(s0, s, b);
    assert MarkOk(s0, s, b, MarkIn(s, b));
  }

  /** A write to a block of this transaction is a write to the device. */
  lemma WriteIsDevice(s0: State, s: State, b: nat, page: Page, view: Page -> H.View)
    requires During(s0, s) && New(s0, s, b)
    ensures B.Wrote(Device(s0, s, view), Device(s0, Written(s, b, page), view), b, view(page))
  {
  }

  // ---- trees across transactions

  /** Abort brings back every tree that was stored at begin. */
  lemma TreeSurvivesAbort(s0: State, ops: seq<Op>, id: nat, t: M.Tree, view: Page -> H.View)
    requires Closed(s0) && AllAllowed(Begun(s0), ops) && H.Holds(Device(s0, s0, view), id, t)
    ensures var s := Aborted(Run(Begun(s0), ops)); Closed(s) && H.Holds(Device(s, s, view), id, t)
  {
    AbortAfterRun(s0, ops);
    var s := Aborted(Run(Begun(s0), ops));
    var d, d' := Device(s0, s0, view), Device(s, s, view);
    assert forall b :: Live(s0, b) <==> b in d.used;
    assert forall b :: Live(s, b) <==> b in d'.used;
    hide Device;
    H.OwnedFrame(d.mem, d'.mem, id, t);
  }

  /** Begin changes nothing the tree can see, and nothing is writable yet: every stored tree is a committed one. */
  lemma BeginIsDevice(s0: State, id: nat, t: M.Tree, view: Page -> H.View)
    requires Closed(s0) && H.Holds(Device(s0, s0, view), id, t)
    ensures B.Committed(Device(s0, Begun(s0), view), id, t)
  {
    var d, d' := Device(s0, s0, view), Device(s0, Begun(s0), view);
    assert d'.mem == d.mem && d'.used == d.used && d'.writable == {};
  }

  /** Commit hands every tree in live blocks on to the next transaction. */
  lemma TreeSurvivesCommit(s0: State, s: State, order: seq<nat>, id: nat, t: M.Tree, view: Page -> H.View)
    requires During(s0, s) && Visits(order, s) && H.Holds(Device(s0, s, view), id, t)
    requires forall x :: x in H.Foot(Device(s0, s, view).mem, id, t) ==> Live(s, x) && x != s.objlist
    ensures var s' := Committed(s, order); Closed(s') && H.Holds(Device(s', s', view), id, t)
  {
    CommitPublishes(s0, s, order);
    var s' := Committed(s, order);
    var d, d' := Device(s0, s, view), Device(s', s', view);
    assert forall b :: Live(s', b) ==> b in d'.used && d'.mem[b] == d.mem[b];
    hide Device;
    H.OwnedFrame(d.mem, d'.mem, id, t);
  }
}
