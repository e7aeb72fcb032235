/**
 The transaction layer of the database object: begin, allocate, modify, free, commit and abort change its fields in
 place, and each is proved to take the step of TxnModel. While a transaction is open the free list root is its own
 copy, so asking for a writable version of it returns it unchanged.
 */
module TxnStore {
  import opened Words
  import opened BitMath
  import opened TxnModel

  datatype Code =
    Ok | NoTransaction | NotImplemented | InvalidBlock | ModifyAfterFree | BadFreelist | BadObjlist | BadState
    | Rejected(block: nat)

  class Db {
    var pages: map<nat, Page>
    var nblocks: nat
    var freelist: nat
    var objlist: nat
    var txn: Option<Txn>

    function S(): State
      reads this
    {
      State(pages, nblocks, freelist, objlist, txn)
    }

    /** The free list root can be written, and what is about to be added to it fits the root block. */
    ghost predicate Ready(more: nat)
      reads this
    {
      freelist in pages && |List(S())| + more <= INLINE
    }

    // ---- the free list

    /** Pops the last free id; an empty list makes the file grow, and all new blocks but the first are listed. */
    method FreelistAllocate(fill: nat -> Page) returns (b: nat)
      requires Ready(0) && Blocks(pages, nblocks) && nblocks < GROW_LIMIT
      requires List(S()) == [] ==> GrownSize(nblocks) - nblocks - 1 <= INLINE
      modifies this
      ensures Taken(S(), b) == Take(old(S()), fill)
    {
      var list := pages[freelist];
      if |list| > 0 {
        b := list[|list| - 1];
        pages := pages[freelist := list[..|list| - 1]];
        return;
      }
      ghost var g := Extended(S(), fill);
      GrownSizeIs(nblocks);
      b := nblocks;
      var size := NextSize(nblocks);
      hide GrownSize;
      pages := pages + (map i | nblocks <= i < size :: fill(i));
      nblocks := size;
      assert g == S() && List(g) == [];
      ListNew(b + 1, size, g);
    }

    /** The loop that lists the new blocks. */
    method ListNew(first: nat, size: nat, ghost g: State)
      requires first <= size && size - first <= INLINE && (first < size ==> USER_DATA <= first)
      requires S() == g && List(g) == [] && freelist in pages
      modifies this`pages
      ensures S() == WithList(g, Range(first, size))
    {
      assert pages[freelist := []] == pages;
      for i := first to size
        invariant S() == WithList(g, Range(first, i))
      {
        RangeGrows(first, i);
        var code := FreelistFree(i);
        assert pages == g.pages[freelist := Range(first, i + 1)];
      }
    }

    lemma RangeGrows(a: nat, b: nat)
      requires a <= b
      ensures Range(a, b + 1) == Range(a, b) + [b]
    {
    }

    /** Pushes a free id; the fixed blocks are rejected. */
    method FreelistFree(b: nat) returns (code: Code)
      requires USER_DATA <= b ==> Ready(1)
      modifies this`pages
      ensures if b < USER_DATA then code == Rejected(b) && S() == old(S()) else code == Ok && S() == Push(old(S()), b)
    {
      if b < USER_DATA {
        return Rejected(b);
      }
      pages := pages[freelist := pages[freelist] + [b]];
      code := Ok;
    }

    // ---- steps of a transaction

    method AllocateBlock(fill: nat -> Page, ghost s0: State) returns (code: Code, b: nat)
      requires txn.Some? ==> During(s0, S()) && Room(1, 0)
      modifies this
      ensures old(txn).None? ==> code == NoTransaction && S() == old(S())
      ensures old(txn).Some? ==> code == Ok && Taken(S(), b) == AllocatedIn(old(S()), fill) && During(s0, S())
      ensures code == Ok ==> if old(List(S())) == [] then b == old(nblocks) else old(List(S())) == List(S()) + [b]
    {
      if txn.None? {
        return NoTransaction, 0;
      }
      AllocateKeeps(s0, S(), fill);
      TakenFrom(S(), fill);
      hide Take, During;
      b := FreelistAllocate(fill);
      txn := Some(txn.value.(marks := txn.value.marks[b := Allocated]));
      code := Ok;
    }

    /** Growing the file, and pushing as many ids as given, keeps the free list inside its root. */
    ghost predicate Room(grow: nat, more: nat)
      reads this
    {
      && nblocks < GROW_LIMIT && |List(S())| + more <= INLINE
      && (0 < grow && List(S()) == [] ==> GrownSize(nblocks) - nblocks - 1 <= INLINE)
    }

    /** Copy on write: a block this transaction owns is returned as it is, an older one is copied to a new block. */
    method ModifyBlock(b: nat, fill: nat -> Page, ghost s0: State) returns (code: Code, c: nat)
      requires txn.Some? ==> During(s0, S()) && b < nblocks && Room(1, 0)
      modifies this
      ensures old(txn).None? ==> code == NoTransaction && S() == old(S())
      ensures old(txn).Some? && MarkIn(old(S()), b).Freed? ==> code == ModifyAfterFree && S() == old(S())
      ensures old(txn).Some? && !MarkIn(old(S()), b).Freed? ==>
                code == Ok && Taken(S(), c) == ModifiedIn(old(S()), b, fill)
      ensures code == Ok && c != b ==>
                if old(List(S())) == [] then c == old(nblocks) else old(List(S())) == List(S()) + [c]
      ensures old(txn).Some? && old(Live(S(), b)) ==> During(s0, S())
    {
      if txn.None? {
        return NoTransaction, 0;
      }
      var mark := MarkOf(txn.value.marks, b);
      if mark == Allocated {
        return Ok, b;
      }
      if mark == Freed {
        return ModifyAfterFree, 0;
      }
      if mark != Unset {
        return Ok, b;
      }
      TakeKeeps(s0, S(), fill);
      CopiedTo(s0, S(), b, fill);
      if Live(S(), b) {
        ModifyKeeps(s0, S(), b, fill);
      }
      c := FreelistAllocate(fill);
      pages := pages[c := pages[b]];
      txn := Some(txn.value.(marks := txn.value.marks[c := CopyOf(b)]));
      code := Ok;
    }

    /** Frees a block: at once when it came into use in this transaction, at commit when it is older. */
    method FreeBlock(b: nat, ghost s0: State) returns (code: Code)
      requires txn.Some? ==> During(s0, S()) && b != SECONDARY && Room(0, 1)
      modifies this
      ensures old(txn).None? ==> code == NoTransaction && S() == old(S())
      ensures old(txn).Some? ==>
                S() == FreedIn(old(S()), b) && code == if MarkIn(old(S()), b).Freed? then InvalidBlock else Ok
      ensures old(txn).Some? && old(Live(S(), b)) && b != old(objlist) ==>
                && During(s0, S()) && code == Ok
                && (forall x :: Live(S(), x) <==> old(Live(S(), x)) && x != b)
    {
      if txn.None? {
        return NoTransaction;
      }
      ghost var s := S();
      assert MarkOk(s0, s, b, MarkIn(s, b));
      if Live(s, b) && b != objlist {
        FreeKeeps(s0, s, b);
      }
      hide During, Live;
      var marks := txn.value.marks;
      var mark := MarkOf(marks, b);
      if mark == Allocated {
        txn := Some(txn.value.(marks := marks[b := Unset]));
        code := FreelistFree(b);
        return Ok;
      } else if mark == Freed {
        return InvalidBlock;
      } else if mark != Unset {
        txn := Some(txn.value.(marks := marks[b := Unset]));
        txn := Some(txn.value.(marks := txn.value.marks[mark.block := Freed]));
        code := FreelistFree(b);
        return Ok;
      } else {
        txn := Some(txn.value.(marks := marks[b := Freed]));
      }
      code := Ok;
    }

    // ---- begin, commit, abort

    /** Starts a transaction on a private copy of the free list root; transactions do not nest. */
    method Begin() returns (code: Code)
      requires txn.None? ==> Closed(S())
      modifies this
      ensures old(txn).Some? ==> code == NotImplemented && S() == old(S())
      ensures old(txn).None? ==> code == Ok && S() == Begun(old(S())) && During(old(S()), S())
    {
      if txn.Some? {
        return NotImplemented;
      }
      BeginStarts(S());
      txn := Some(Txn(nblocks, map[]));
      if freelist != PRIMARY {
        return BadFreelist;
      }
      if objlist != OBJLIST {
        return BadObjlist;
      }
      pages := pages[SECONDARY := pages[PRIMARY]];
      txn := Some(txn.value.(marks := txn.value.marks[SECONDARY := CopyOf(PRIMARY)]));
      freelist := SECONDARY;
      code := Ok;
    }

    /**
     Visits the marks in the given order, releases what they hold back, and copies the roots to their fixed blocks.
     */
    method Commit(order: seq<nat>, ghost s0: State) returns (code: Code)
      requires txn.Some? ==> During(s0, S()) && Visits(order, S())
      requires txn.Some? ==> |List(S())| + |ReleasedAll(order, txn.value.marks, objlist)| <= INLINE
      modifies this
      ensures old(txn).None? ==> code == NoTransaction && S() == old(S())
      ensures old(txn).Some? ==> code == Ok && S() == Committed(old(S()), order) && Published(old(S()), S())
    {
      if txn.None? {
        return NoTransaction;
      }
      ghost var s := S();
      CommitPublishes(s0, s, order);
      CommitPartStart(s0, s);
      var marks := txn.value.marks;
      if MarkOf(marks, SECONDARY) != CopyOf(PRIMARY) {
        return BadState;
      }
      assert order[..0] == [];
      for i := 0 to |order|
        invariant S() == CommitPart(s, order[..i])
      {
        CommitEntry(order[i], s0, s, order, i);
      }
      assert order[..|order|] == order;
      CommitPartEnd(s0, s, order);
      pages := pages[PRIMARY := pages[freelist]];
      freelist, txn := PRIMARY, None;
      code := Ok;
    }

    /** One turn of the commit loop. */
    method CommitEntry(k: nat, ghost s0: State, ghost s: State, ghost order: seq<nat>, ghost i: nat)
      requires During(s0, s) && Visits(order, s) && i < |order| && k == order[i]
      requires s.objlist in s.pages && OBJLIST in s.pages && S() == CommitPart(s, order[..i])
      requires |List(s)| + |ReleasedAll(order, s.txn.value.marks, s.objlist)| <= INLINE
      modifies this`pages, this`objlist
      ensures S() == CommitPart(s, order[..i + 1])
    {
      CommitPartNext(s0, s, order, i);
      hide During, CommitPart, Visits;
      var code;
      if k == SECONDARY {
        return;
      }
      if k == objlist {
        pages := pages[OBJLIST := pages[objlist]];
        code := FreelistFree(k);
        objlist := OBJLIST;
        return;
      }
      match MarkOf(txn.value.marks, k)
      case Allocated =>
      case Freed => code := FreelistFree(k);
      case CopyOf(original) => code := FreelistFree(original);
      case Unset => code := FreelistFree(0);
    }

    /** Forgets the transaction: the old roots, and the old size of the file. */
    method Abort(ghost s0: State) returns (code: Code)
      modifies this
      ensures old(txn).None? ==> code == NoTransaction && S() == old(S())
      ensures old(txn).Some? ==> code == Ok && S() == Aborted(old(S()))
      ensures During(s0, old(S())) ==> Restored(s0, S())
    {
      if txn.None? {
        return NoTransaction;
      }
      if During(s0, S()) {
        AbortRestores(s0, S());
      }
      freelist, objlist := PRIMARY, OBJLIST;
      var n := txn.value.nblocks;
      pages, nblocks := map i | i in pages && i < n :: pages[i], n;
      txn := None;
      code := Ok;
    }
  }
}
