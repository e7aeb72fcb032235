/**
 The B+ tree operations over a block device: nodes are blocks changed in place, children are block ids,
 and a block that belongs to the last commit is copied before it is written.
 */
module BTreeStore {
  import opened Words
  import opened SortedSlots
  import opened BTreeModel
  import opened BTreeSearch
  import opened BTreeSet
  import opened BTreePop
  import opened BTreeHeap
  import opened BTreeSteps
  import opened BTreeNode

  /** Every block below nblocks has node objects of its own. */
  ghost predicate Wired(nodes: map<nat, Node>, nblocks: nat, owner: map<object, nat>) {
    && (forall id :: id in nodes <==> id < nblocks)
    && (forall id {:trigger nodes[id]} :: id in nodes ==>
          var n := nodes[id];
          && n in owner && owner[n] == id
          && n.key in owner && owner[n.key] == id
          && n.data in owner && owner[n.data] == id)
  }

  function WithNode(owner: map<object, nat>, node: Node, id: nat): map<object, nat> {
    owner[node := id][node.key := id][node.data := id]
  }

  lemma WiredMore(nodes: map<nat, Node>, nblocks: nat, owner: map<object, nat>, node: Node)
    requires Wired(nodes, nblocks, owner)
    requires {node as object, node.key, node.data} !! owner.Keys
    ensures Wired(nodes[nblocks := node], nblocks + 1, WithNode(owner, node, nblocks))
    ensures WithNode(owner, node, nblocks).Keys == owner.Keys + {node as object, node.key, node.data}
  {
  }

  /** The free ids are existing blocks, each listed once, none of them in use. */
  ghost predicate FreeOk(free: seq<nat>, nblocks: nat, used: set<nat>) {
    && (forall i :: 0 <= i < |free| ==> free[i] < nblocks && free[i] !in used)
    && (forall i, j :: 0 <= i < j < |free| ==> free[i] != free[j])
  }

  lemma FreeMore(free: seq<nat>, nblocks: nat, used: set<nat>)
    requires FreeOk(free, nblocks, used)
    ensures FreeOk(free, nblocks + 1, used)
  {
  }

  ghost predicate IsNode(magic: u32) {
    magic == INNER_MAGIC || magic == LEAF_MAGIC
  }

  class Db {
    /** Blocks by id, the ids that can be handed out again, and the blocks this transaction may write. */
    var nodes: map<nat, Node>
    var nblocks: nat
    var free: seq<nat>
    var writable: set<nat>

    ghost var used: set<nat>
    ghost var mem: Mem
    /** The block each node object and each of its arrays belongs to. */
    ghost var owner: map<object, nat>
    ghost var Repr: set<object>

    ghost function H(): Heap
      reads this
    {
      Heap(mem, used, writable)
    }

    ghost predicate Valid()
      reads this, Repr
    {
      && this !in Repr && owner.Keys == Repr
      && Wired(nodes, nblocks, owner)
      && mem.Keys == nodes.Keys
      && (forall id {:trigger nodes[id]} :: id in nodes ==> nodes[id].Reads(mem[id]))
      && Sane(H())
      && FreeOk(free, nblocks, used)
    }

    // ---- single-node edits

    /** Only the blocks in f were edited, and mem was brought up to date for them. */
    twostate lemma Edited(f: set<nat>)
      requires old(Valid())
      requires unchanged(`nodes, `nblocks, `free, `writable, `used, `owner, `Repr)
      requires forall o :: o in owner && owner[o] !in f ==> unchanged(o)
      requires mem.Keys == old(mem.Keys)
      requires forall x {:trigger mem[x]} :: x in mem && x !in f ==> mem[x] == old(mem[x])
      requires forall x :: x in f && x in nodes ==> nodes[x].Reads(mem[x])
      ensures Valid()
    {
      forall x | x in nodes
        ensures nodes[x].Reads(mem[x])
      {
        var n := nodes[x];
        assert old(n.Reads(mem[x]));
        if x !in f {
          assert old(Wired(nodes, nblocks, owner));
          assert owner[n] == x && owner[n.key] == x && owner[n.data] == x;
          assert unchanged(n) && unchanged(n.key) && unchanged(n.data);
        }
      }
      assert Sane(H());
    }

    lemma Objects(id: nat)
      ensures Valid() ==> mem.Keys == nodes.Keys
      ensures Valid() && id in nodes ==> {nodes[id] as object, nodes[id].key, nodes[id].data} <= Repr
    {
    }

    lemma Facts()
      ensures Valid() ==> Sane(H()) && mem.Keys == nodes.Keys && this !in Repr
    {
    }

    method Insert(id: nat, j: nat, k: u32, d: nat)
      requires Valid() && id in nodes && j <= |mem[id].slots| < SIZE
      modifies this`mem, nodes[id], nodes[id].key, nodes[id].data
      ensures Valid()
      ensures mem == old(mem)[id := View(old(mem[id].magic), InsertAt(old(mem[id].slots), j, Slot(k, d)))]
    {
      hide Zip, Node.Contents, Node.Slots, InsertAt, RemoveAt;
      nodes[id].Insert(j, k, d);
      mem := mem[id := nodes[id].Contents()];
      Edited({id});
    }

    method Remove(id: nat, j: nat)
      requires Valid() && id in nodes && j < |mem[id].slots|
      modifies this`mem, nodes[id], nodes[id].key, nodes[id].data
      ensures Valid()
      ensures mem == old(mem)[id := View(old(mem[id].magic), RemoveAt(old(mem[id].slots), j))]
    {
      hide Zip, Node.Contents, Node.Slots, InsertAt, RemoveAt;
      nodes[id].Remove(j);
      mem := mem[id := nodes[id].Contents()];
      Edited({id});
    }

    method Init(id: nat)
      requires Valid() && id in nodes
      modifies this`mem, nodes[id], nodes[id].key, nodes[id].data
      ensures Valid() && mem == old(mem)[id := View(LEAF_MAGIC, [])]
    {
      hide Zip, Node.Contents, Node.Slots, InsertAt, RemoveAt;
      nodes[id].Init();
      mem := mem[id := nodes[id].Contents()];
      Edited({id});
    }

    /** Writes entry j of a node. */
    method Put(id: nat, j: nat, k: u32, d: nat)
      requires Valid() && id in nodes && j < |mem[id].slots|
      modifies this`mem, nodes[id].key, nodes[id].data
      ensures Valid()
      ensures mem == old(mem)[id := View(old(mem[id].magic), old(mem[id].slots)[j := Slot(k, d)])]
    {
      hide Zip, Node.Contents, Node.Slots, InsertAt, RemoveAt;
      nodes[id].Put(j, k, d);
      mem := mem[id := nodes[id].Contents()];
      Edited({id});
    }

    method SplitInto(c: nat, d: nat, n: nat)
      requires Valid() && c in nodes && d in nodes && c != d && n <= |mem[c].slots|
      modifies this`mem, nodes[c], nodes[d], nodes[d].key, nodes[d].data
      ensures Valid()
      ensures mem == CutMem(old(mem), c, d, n)
    {
      hide Zip, Node.Contents, Node.Slots, InsertAt, RemoveAt;
      nodes[c].SplitInto(nodes[d], n);
      mem := mem[c := nodes[c].Contents()][d := nodes[d].Contents()];
      Edited({c, d});
    }

    method Append(c: nat, d: nat)
      requires Valid() && c in nodes && d in nodes && c != d && |mem[c].slots| + |mem[d].slots| <= SIZE
      modifies this`mem, nodes[c], nodes[c].key, nodes[c].data
      ensures Valid()
      ensures mem == old(mem)[c := View(old(mem[c].magic), old(mem[c].slots) + old(mem[d].slots))]
    {
      hide Zip, Node.Contents, Node.Slots, InsertAt, RemoveAt;
      nodes[c].Append(nodes[d]);
      mem := mem[c := nodes[c].Contents()];
      Edited({c});
    }

    method MakeRoot(id: nat, k0: u32, d0: nat, k1: u32, d1: nat)
      requires Valid() && id in nodes
      modifies this`mem, nodes[id], nodes[id].key, nodes[id].data
      ensures Valid() && mem == old(mem)[id := View(INNER_MAGIC, [Slot(k0, d0), Slot(k1, d1)])]
    {
      hide Zip, Node.Contents, Node.Slots, InsertAt, RemoveAt;
      nodes[id].MakeRoot(k0, d0, k1, d1);
      mem := mem[id := nodes[id].Contents()];
      Edited({id});
    }

    // ---- the block device

    /** The node object was added as the last block, and no other one written. */
    twostate lemma Adopted(node: Node)
      requires old(Valid()) && node.Valid() && {node as object, node.key, node.data} !! old(Repr)
      requires this !in {node as object, node.key, node.data}
      requires nodes == old(nodes)[old(nblocks) := node] && nblocks == old(nblocks) + 1
      requires mem == old(mem)[old(nblocks) := node.Contents()] && owner == WithNode(old(owner), node, old(nblocks))
      requires Repr == old(Repr) + {node as object, node.key, node.data} && unchanged(`free, `used, `writable)
      requires forall o :: o in old(Repr) ==> unchanged(o)
      ensures Valid()
    {
      hide Zip, Node.Contents, Node.Slots;
      FreeMore(free, old(nblocks), used);
      WiredMore(old(nodes), old(nblocks), old(owner), node);
      forall id | id in nodes
        ensures nodes[id].Reads(mem[id])
      {
        if id != old(nblocks) {
          var n := nodes[id];
          assert old(n.Reads(mem[id]));
          assert old(Wired(nodes, nblocks, owner));
          assert n in old(owner) && n.key in old(owner) && n.data in old(owner);
          assert unchanged(n) && unchanged(n.key) && unchanged(n.data);
        }
      }
      hide WithNode, Wired, FreeOk;
      assert Sane(H());
    }

    lemma NextIsNew()
      requires Valid()
      ensures nblocks !in mem && this !in Repr
    {
    }

    /** A new node object becomes the last block of the file. */
    method Adopt(node: Node)
      requires Valid() && node.Valid()
      requires this !in {node as object, node.key, node.data}
      requires {node as object, node.key, node.data} !! Repr
      modifies this`nodes, this`nblocks, this`mem, this`owner, this`Repr
      ensures Valid() && nblocks == old(nblocks) + 1
      ensures Repr == old(Repr) + {node as object, node.key, node.data}
      ensures Extended(old(H()), H())
    {
      hide Zip, Node.Contents, Node.Slots, WithNode, Extended, Valid;
      ghost var s := H();
      NextIsNew();
      ExtendedBy(s, nblocks, node.Contents());
      nodes := nodes[nblocks := node];
      mem := mem[nblocks := node.Contents()];
      owner := WithNode(owner, node, nblocks);
      Repr := Repr + {node, node.key, node.data};
      nblocks := nblocks + 1;
      Adopted(node);
    }

    /** Grows the file by one block of unknown content. */
    method Extend() returns (id: nat)
      requires Valid()
      modifies this`nodes, this`nblocks, this`mem, this`owner, this`Repr
      ensures Valid() && old(Repr) <= Repr && fresh(Repr - old(Repr))
      ensures id == old(nblocks) && nblocks == id + 1 && id !in used && id !in free
      ensures Extended(old(H()), H())
    {
      id := nblocks;
      assert id !in mem.Keys;
      var node := new Node();
      Adopt(node);
    }

    /** Pops the last free id. */
    method Recycle() returns (id: nat)
      requires Valid() && free != []
      modifies this`free
      ensures Valid() && id < nblocks && id !in used && id !in free
      ensures old(free) == free + [id]
    {
      id := free[|free| - 1];
      free := free[..|free| - 1];
    }

    /** Records a block as allocated in this transaction. */
    method Claim(id: nat)
      requires Valid() && id < nblocks && id !in used && id !in free
      modifies this`used, this`writable
      ensures Valid() && H() == Heap(mem, old(used) + {id}, old(writable) + {id})
    {
      assert id in mem.Keys;
      used := used + {id};
      writable := writable + {id};
      assert Sane(H());
      assert FreeOk(free, nblocks, used);
    }

    /** Hands out a free block, or grows the file. */
    method Allocate() returns (id: nat)
      requires Valid()
      modifies this
      ensures Valid() && old(Repr) <= Repr && fresh(Repr - old(Repr))
      ensures Allocated(old(H()), H(), id) && old(mem.Keys) <= mem.Keys
      ensures if old(free) == [] then id == old(nblocks) && nblocks == id + 1 && free == []
              else nblocks == old(nblocks) && old(free) == free + [id]
    {
      ghost var s := H();
      if free != [] {
        id := Recycle();
        assert Extended(s, H());
      } else {
        id := Extend();
      }
      ghost var s1 := H();
      Claim(id);
      AllocatedBy(s, s1, H(), id);
    }

    /** Copies the content of block c0 to block c. */
    method Copy(c: nat, c0: nat)
      requires Valid() && c in nodes && c0 in nodes && c != c0
      modifies this`mem, nodes[c], nodes[c].key, nodes[c].data
      ensures Valid() && mem == old(mem)[c := old(mem[c0])]
    {
      hide Zip, Node.Contents, Node.Slots;
      nodes[c].CopyFrom(nodes[c0]);
      mem := mem[c := nodes[c].Contents()];
      Edited({c});
    }

    /** Copy on write: a block this transaction already owns is returned as it is. */
    method Modify(c0: nat) returns (c: nat)
      requires Valid() && c0 in used
      modifies this, Repr
      ensures Valid() && old(Repr) <= Repr && fresh(Repr - old(Repr))
      ensures Modified(old(H()), H(), c0, c) && old(mem.Keys) <= mem.Keys
    {
      hide FreeOk, Node.Reads;
      if c0 in writable {
        c := c0;
      } else {
        ghost var s := H();
        c := Allocate();
        ghost var s1 := H();
        Copy(c, c0);
        ModifiedBy(s, s1, H(), c0, c);
      }
    }

    /** A new block, set up as an empty leaf. */
    method NewNode() returns (d: nat)
      requires Valid()
      modifies this, Repr
      ensures Valid() && old(Repr) <= Repr && fresh(Repr - old(Repr))
      ensures Allocated(old(H()), H(), d) && mem[d] == View(LEAF_MAGIC, [])
    {
      hide FreeOk, Node.Reads;
      ghost var s := H();
      d := Allocate();
      ghost var s1, repr := H(), Repr;
      assert fresh(repr - old(Repr));
      Objects(d);
      Init(d);
      assert Repr == repr;
      AllocatedThenWritten(s, s1, H(), d);
    }

    /** A block of this transaction goes back to the free list. */
    method Free(c: nat)
      requires Valid() && c in writable
      modifies this`free, this`used, this`writable
      ensures Valid() && H() == Heap(old(mem), old(used) - {c}, old(writable) - {c}) && free == old(free) + [c]
    {
      used := used - {c};
      writable := writable - {c};
      free := free + [c];
    }

    // ---- the tree operations

    /** A block that carries one of the two magic words holds the root of tree t, well formed and of height h. */
    ghost predicate Sound(root: nat, t: Tree, h: nat)
      reads this
    {
      root in mem && (IsNode(mem[root].magic) ==> Holds(H(), root, t) && Wf(t, h))
    }

    method Find(id: nat, k: u32, ghost t: Tree) returns (b: nat)
      requires Valid() && Holds(H(), id, t)
      ensures b == Search(NodeKeys(t), k)
    {
      OwnedKeys(mem, id, t);
      assert nodes[id].Reads(mem[id]);
      assert forall i :: 0 <= i < Size(t) ==> nodes[id].key[i] == Keys(mem[id].slots)[i];
      b := nodes[id].Find(k);
    }

    method SizeOf(id: nat) returns (n: nat)
      requires Valid() && id in nodes
      ensures n == |mem[id].slots| <= SIZE
    {
      assert nodes[id].Reads(mem[id]);
      n := nodes[id].size;
    }

    method MagicOf(id: nat) returns (m: u32)
      requires Valid() && id in nodes
      ensures m == mem[id].magic
    {
      assert nodes[id].Reads(mem[id]);
      m := nodes[id].magic;
    }

    method SlotOf(id: nat, j: nat) returns (k: u32, d: nat)
      requires Valid() && id in nodes && j < |mem[id].slots|
      ensures Slot(k, d) == mem[id].slots[j]
    {
      assert nodes[id].Reads(mem[id]);
      k, d := nodes[id].key[j], nodes[id].data[j];
    }

    /** What the root block of a sound tree shows, and its child b when it has one. */
    lemma Look(root: nat, t: Tree, h: nat, b: int)
      requires Valid() && Sound(root, t, h) && IsNode(mem[root].magic)
      ensures mem[root].magic == Magic(t) && |mem[root].slots| == Size(t)
      ensures t.Leaf? ==> mem[root].slots == t.es
      ensures t.Inner? && 0 <= b < |t.kids| ==>
                var c := mem[root].slots[b].data;
                h > 0 && Sound(c, t.kids[b].sub, h - 1) && IsNode(mem[c].magic)
    {
      OwnedKeys(mem, root, t);
      if t.Leaf? {
        OwnedLeaf(mem, root, t);
      } else if 0 <= b < |t.kids| {
        ChildHeld(H(), root, t.kids, b);
        KidWf(t, h, b);
      }
    }

    /** The value bound to k, or INVALID_KEY. */
    method Get(root: nat, k: u32, ghost t: Tree, ghost h: nat) returns (code: Code, value: nat)
      requires Valid() && Sound(root, t, h)
      ensures !IsNode(mem[root].magic) ==> code == Corrupt && value == 0
      ensures IsNode(mem[root].magic) ==>
                match GetT(t, k) case Some(v) => code == Ok && value == v case None => code == InvalidKey && value == 0
      decreases h
    {
      var magic := MagicOf(root);
      if magic != INNER_MAGIC && magic != LEAF_MAGIC {
        return Corrupt, 0;
      }
      var b := Find(root, k, t);
      Look(root, t, h, b);
      hide Sound, Valid, Wf, Search, Holds;
      var n := SizeOf(root);
      if b >= n {
        return InvalidKey, 0;
      }
      var key, data := SlotOf(root, b);
      if magic == LEAF_MAGIC {
        if key != k {
          return InvalidKey, 0;
        }
        return Ok, data;
      }
      code, value := Get(data, k, t.kids[b].sub, h - 1);
    }

    /** The smallest pair: down the left edge. */
    method First(root: nat, ghost t: Tree, ghost h: nat) returns (code: Code, key: u32, value: nat)
      requires Valid() && Sound(root, t, h)
      ensures !IsNode(mem[root].magic) ==> code == Corrupt && key == 0 && value == 0
      ensures IsNode(mem[root].magic) ==>
                match FirstT(t)
                case Some(e) => code == Ok && Slot(key, value) == e
                case None => code == InvalidKey && key == 0 && value == 0
      decreases h
    {
      var magic := MagicOf(root);
      if magic != INNER_MAGIC && magic != LEAF_MAGIC {
        return Corrupt, 0, 0;
      }
      Look(root, t, h, 0);
      hide Sound, Valid, Wf;
      var n := SizeOf(root);
      if n == 0 {
        return InvalidKey, 0, 0;
      }
      key, value := SlotOf(root, 0);
      if magic == LEAF_MAGIC {
        return Ok, key, value;
      }
      code, key, value := First(value, t.kids[0].sub, h - 1);
    }

    /** The largest pair: down the right edge. */
    method Last(root: nat, ghost t: Tree, ghost h: nat) returns (code: Code, key: u32, value: nat)
      requires Valid() && Sound(root, t, h)
      ensures !IsNode(mem[root].magic) ==> code == Corrupt && key == 0 && value == 0
      ensures IsNode(mem[root].magic) ==>
                match LastT(t)
                case Some(e) => code == Ok && Slot(key, value) == e
                case None => code == InvalidKey && key == 0 && value == 0
      decreases h
    {
      var magic := MagicOf(root);
      if magic != INNER_MAGIC && magic != LEAF_MAGIC {
        return Corrupt, 0, 0;
      }
      Look(root, t, h, Size(t) - 1);
      hide Sound, Valid, Wf;
      var n := SizeOf(root);
      if n == 0 {
        return InvalidKey, 0, 0;
      }
      key, value := SlotOf(root, n - 1);
      if magic == LEAF_MAGIC {
        return Ok, key, value;
      }
      code, key, value := Last(value, t.kids[n - 1].sub, h - 1);
    }

    /** Makes child b of an internal node writable and enters its block id in the node. */
    method OpenChild(root: nat, b: nat, ghost kids: seq<Kid>) returns (c: nat)
      requires Valid() && Holds(H(), root, Inner(kids)) && root in writable && b < |kids|
      modifies this, Repr
      ensures Valid() && old(Repr) <= Repr && fresh(Repr - old(Repr))
      ensures Outcome(old(H()), H(), root, Inner(kids), Inner(kids))
      ensures Holds(H(), c, kids[b].sub) && c in writable
      ensures root in mem && |mem[root].slots| == |kids| && mem[root].slots[b] == Slot(kids[b].sep, c)
      ensures root in old(mem) && |old(mem[root].slots)| == |kids|
      ensures mem[root].slots == old(mem[root].slots)[b := Slot(kids[b].sep, c)] && old(writable) <= writable
    {
      hide FreeOk, Node.Reads, Wired;
      ghost var s := H();
      ChildHeld(s, root, kids, b);
      var k, c0 := SlotOf(root, b);
      c := Modify(c0);
      ghost var s1, repr := H(), Repr;
      assert fresh(repr - old(Repr));
      OpenedParent(s, s1, root, kids, b, c);
      Objects(root);
      Put(root, b, k, c);
      assert Wrote(s1, H(), root, View(INNER_MAGIC, s.mem[root].slots[b := Slot(kids[b].sep, c)]));
      assert Repr == repr;
      Descend(s, s1, H(), root, kids, b, c);
    }

    /** Enters the last key of node c as the separator of entry j of its parent. */
    method Seal(root: nat, j: nat, c: nat)
      requires Valid() && root in nodes && c in nodes && j < |mem[root].slots| && mem[c].slots != []
      requires mem[root].slots[j].data == c
      modifies this`mem, nodes[root].key, nodes[root].data
      ensures Valid()
      ensures mem == old(mem)[root := View(old(mem[root].magic),
                old(mem[root].slots)[j := Slot(old(mem[c].slots[|mem[c].slots| - 1].key), c)])]
    {
      hide FreeOk, Node.Reads, Wired;
      var n := SizeOf(c);
      var last, d := SlotOf(c, n - 1);
      Put(root, j, last, c);
    }

    /** Enters the last key of the changed child b in its parent. */
    method CloseChild(root: nat, b: nat, c: nat, ghost s: Heap, ghost kids: seq<Kid>, ghost u: Tree)
      requires Valid() && Sane(s) && Holds(s, root, Inner(kids)) && root in s.writable && b < |kids|
      requires |s.mem[root].slots| == |kids| && 0 < Size(u) && s.mem[root].slots[b].data == c
      requires Outcome(s, H(), c, kids[b].sub, u)
      modifies this`mem, Repr
      ensures Valid()
      ensures Outcome(s, H(), root, Inner(kids), Inner(kids[b := MakeKid(u)]))
    {
      hide FreeOk, Node.Reads;
      ghost var s1 := H();
      ParentKept(s, s1, root, kids, b, u);
      OutcomeSane(s, s1, c, kids[b].sub, u);
      OwnedKeys(mem, c, u);
      LastKeyIs(mem, c, u);
      Objects(root);
      Seal(root, b, c);
      PutBack(s, s1, H(), root, kids, b, u);
    }

    /** Makes room in the parent after child b, for a new block. */
    method OpenSlot(root: nat, b: nat) returns (d: nat)
      requires Valid() && root in used && b < |mem[root].slots| < SIZE
      modifies this, Repr
      ensures Valid() && old(Repr) <= Repr && fresh(Repr - old(Repr))
      ensures SlotOpened(old(H()), H(), root, b, d)
    {
      hide FreeOk, Node.Reads;
      ghost var s := H();
      Objects(root);
      Insert(root, b + 1, 0, 0);
      ghost var s1 := H();
      d := NewNode();
      ghost var s2, repr := H(), Repr;
      assert fresh(repr - old(Repr));
      assert Kept(s1, s2, root);
      Objects(root);
      hide Allocated, Kept, InsertAt;
      Put(root, b + 1, 0, d);
      assert Repr == repr;
      OpensSlot(s, s1, s2, H(), root, b, d);
    }

    /** Moves the upper part of child b to a new block, entered after it in the parent. */
    method SplitChild(root: nat, b: nat, c: nat, ghost t: Tree) returns (d: nat)
      requires Valid() && root in writable && c in writable && root != c
      requires mem[root].magic == INNER_MAGIC && b < |mem[root].slots| < SIZE
      requires Holds(H(), c, t) && SPLIT <= Size(t) <= SIZE
      modifies this, Repr
      ensures Valid() && old(Repr) <= Repr && fresh(Repr - old(Repr))
      ensures SplitWrote(old(H()), H(), root, b, c, d, t)
    {
      hide FreeOk, Node.Reads, Wired, SplitWrote, SlotOpened, InsertAt, CutMem;
      ghost var s := H();
      OwnedKeys(mem, c, t);
      d := OpenSlot(root, b);
      ghost var s1, repr := H(), Repr;
      SlotOpenedKeeps(s, s1, root, b, c, d);
      Objects(c);
      Objects(d);
      SplitInto(c, d, SPLIT);
      assert Repr == repr;
      SplitWrites(s, s1, H(), root, b, c, d, t);
    }

    /** Writes the two entries of a split in the parent, after the retry. */
    method CloseSplit(root: nat, b: nat, c: nat, d: nat, ghost l: Tree, ghost r: Tree, ghost slots: seq<Slot>)
      requires Valid() && root in mem && Holds(H(), c, l) && Holds(H(), d, r) && 0 < Size(l) && 0 < Size(r)
      requires root !in {c, d} && b < |slots|
      requires mem[root] == View(INNER_MAGIC, InsertAt(slots, b + 1, Slot(0, d))) && slots[b].data == c
      modifies this`mem, Repr
      ensures Valid()
      ensures Wrote(old(H()), H(), root, View(INNER_MAGIC,
                slots[..b] + [Slot(LastKey(l), c), Slot(LastKey(r), d)] + slots[b + 1..]))
    {
      hide Valid, FreeOk, Node.Reads;
      OwnedKeys(mem, c, l);
      OwnedKeys(mem, d, r);
      LastKeyIs(mem, c, l);
      LastKeyIs(mem, d, r);
      SlotsAfterSplit(slots, b, Slot(LastKey(l), c), Slot(LastKey(r), d), d);
      Objects(root);
      Facts();
      Seal(root, b, c);
      Seal(root, b + 1, d);
    }

    /** Binds k to v below root: in place, or FULL when every node on the path is full. */
    method Set(root: nat, k: u32, v: nat, ghost t: Tree, ghost h: nat) returns (code: Code)
      requires Valid() && Sound(root, t, h) && root in writable
      modifies this, Repr
      ensures Valid() && old(Repr) <= Repr && fresh(Repr - old(Repr))
      ensures !IsNode(old(mem[root].magic)) ==> code == Corrupt && H() == old(H())
      ensures IsNode(old(mem[root].magic)) ==>
                code == SetT(t, h, k, v).code && Outcome(old(H()), H(), root, t, SetT(t, h, k, v).tree)
      decreases h, 2
    {
      var magic := MagicOf(root);
      if magic != INNER_MAGIC && magic != LEAF_MAGIC {
        return Corrupt;
      }
      var b := Find(root, k, t);
      Look(root, t, h, b);
      if magic == LEAF_MAGIC {
        code := SetLeaf(root, b, k, v, t);
      } else {
        var n := SizeOf(root);
        if b == n {
          b := b - 1;
        }
        code := SetInner(root, b, k, v, t, h);
      }
    }

    method SetLeaf(root: nat, b: nat, k: u32, v: nat, ghost t: Tree) returns (code: Code)
      requires Valid() && Holds(H(), root, t) && root in writable && t.Leaf? && mem[root].slots == t.es
      requires b == Search(Keys(t.es), k) && mem[root].magic == LEAF_MAGIC
      modifies this`mem, Repr
      ensures Valid()
      ensures code == SetT(t, 0, k, v).code && Outcome(old(H()), H(), root, t, SetT(t, 0, k, v).tree)
    {
      hide Valid, FreeOk, Node.Reads, Outcome, Holds;
      ghost var s := H();
      Objects(root);
      Facts();
      var n := SizeOf(root);
      var key, data := 0, 0;
      if b < n {
        key, data := SlotOf(root, b);
      }
      if b < n && key == k {
        Put(root, b, key, v);
        LeafWritten(s, H(), root, t, t.es[b := Slot(k, v)]);
        code := Ok;
      } else if n >= SIZE {
        Unchanged(s, root, t);
        code := Full;
      } else {
        Insert(root, b, k, v);
        LeafWritten(s, H(), root, t, InsertAt(t.es, b, Slot(k, v)));
        code := Ok;
      }
    }

    lemma SoundBy(id: nat, t: Tree, h: nat)
      ensures Holds(H(), id, t) && Wf(t, h) ==> Sound(id, t, h) && IsNode(mem[id].magic)
    {
    }

    /** Set below the child that covers k; a full child is split and the set retried. */
    method SetInner(root: nat, b: nat, k: u32, v: nat, ghost t: Tree, ghost h: nat) returns (code: Code)
      requires Valid() && Holds(H(), root, t) && root in writable && Wf(t, h)
      requires t.Inner? && b == Route(t.kids, k)
      modifies this, Repr
      ensures Valid() && old(Repr) <= Repr && fresh(Repr - old(Repr))
      ensures code == SetT(t, h, k, v).code && Outcome(old(H()), H(), root, t, SetT(t, h, k, v).tree)
      decreases h, 1
    {
      hide Valid, SetT, Route, WouldFill, Size, FreeOk, Node.Reads, Wired, Wf, Holds, Outcome, Sound;
      ghost var s0, kids, sub := H(), t.kids, t.kids[b].sub;
      Facts();
      var c := OpenChild(root, b, kids);
      ghost var s, repr := H(), Repr;
      assert fresh(repr - old(Repr));
      Facts();
      InnerFacts(t, h, k, v);
      OutcomeSane(s0, s, root, t, t);
      SoundBy(c, sub, h - 1);
      code := Set(c, k, v, sub, h - 1);
      assert fresh(Repr - repr);
      Facts();
      if code == Ok {
        CloseChild(root, b, c, s, kids, SetT(sub, h - 1, k, v).tree);
        OutcomeTransitive(s0, s, H(), root, t, t, SetT(t, h, k, v).tree);
      } else if code == Full {
        ParentKept(s, H(), root, kids, b, sub);
        var n := SizeOf(root);
        if n >= SIZE {
          NothingBack(s, H(), root, kids, b);
          OutcomeTransitive(s0, s, H(), root, t, t, t);
        } else {
          code := SetSplit(root, b, c, k, v, s, t, h);
          OutcomeTransitive(s0, s, H(), root, t, t, SetT(t, h, k, v).tree);
        }
      }
    }

    /** What set needs to know about the tree at an internal node. */
    static lemma InnerFacts(t: Tree, h: nat, k: u32, v: nat)
      requires Wf(t, h) && t.Inner?
      ensures var b := Route(t.kids, k);
              var sub := t.kids[b].sub;
              var r := SetT(sub, h - 1, k, v);
              && h > 0 && Wf(sub, h - 1) && t.kids[b].sep == LastKey(sub)
              && (r.code == Ok || (r.code == Full && r.tree == sub && WouldFill(sub, k)))
              && (r.code == Ok ==>
                    0 < Size(r.tree) && SetT(t, h, k, v) == SetResult(Ok, Inner(t.kids[b := MakeKid(r.tree)])))
              && (r.code == Full && |t.kids| >= SIZE ==> SetT(t, h, k, v) == SetResult(Full, t))
    {
      var b := Route(t.kids, k);
      KidWf(t, h, b);
      SetFullIff(t.kids[b].sub, h - 1, k, v);
      SetStep(t, h, k, v);
      if !WouldFill(t.kids[b].sub, k) {
        SetKeepsWf(t.kids[b].sub, h - 1, k, v);
      }
    }

    /** A set below child b, now in block c, found no room in it, but this node has some. */
    ghost predicate FullChild(s: Heap, root: nat, b: nat, c: nat, t: Tree, h: nat, k: u32)
      reads this
    {
      && Sane(s) && Holds(s, root, t) && root in s.writable && c in s.writable
      && Wf(t, h) && t.Inner? && t.kids != [] && b == Route(t.kids, k) && |t.kids| < SIZE
      && |s.mem[root].slots| == |t.kids| && s.mem[root].slots[b] == Slot(t.kids[b].sep, c)
      && WouldFill(t.kids[b].sub, k) && Outcome(s, H(), c, t.kids[b].sub, t.kids[b].sub)
    }

    lemma SetSplitIs(s: Heap, root: nat, b: nat, c: nat, t: Tree, h: nat, k: u32, v: nat)
      requires FullChild(s, root, b, c, t, h, k)
      ensures t.Inner? && b < |t.kids| && h > 0
      ensures var sub := t.kids[b].sub;
              var l, r := Take(sub, SPLIT), Drop(sub, SPLIT);
              SetT(t, h, k, v) == SetResult(Ok,
                if k <= t.kids[b].sep then SplitKid(t.kids, b, SetT(l, h - 1, k, v).tree, r)
                else SplitKid(t.kids, b, l, SetT(r, h - 1, k, v).tree))
    {
      SetSplits(t, h, k, v);
    }

    /** Splits the full child in two and retries in the half that the old separator chooses. */
    method SetSplit(root: nat, b: nat, c: nat, k: u32, v: nat, ghost s: Heap, ghost t: Tree, ghost h: nat)
      returns (code: Code)
      requires Valid() && h > 0 && FullChild(s, root, b, c, t, h, k)
      modifies this, Repr
      ensures Valid() && old(Repr) <= Repr && fresh(Repr - old(Repr))
      ensures code == SetT(t, h, k, v).code && Outcome(s, H(), root, t, SetT(t, h, k, v).tree)
      decreases h, 0
    {
      hide *;
      SetSplitIs(s, root, b, c, t, h, k, v);
      ghost var s1 := H();
      var key, d := BeginSplit(root, b, c, s, t, h, k, v);
      ghost var repr := Repr;
      code := Retry(root, b, c, d, k <= key, k, v, s, s1, t.kids, h - 1);
      assert fresh(Repr - repr);
    }

    method BeginSplit(root: nat, b: nat, c: nat, ghost s: Heap, ghost t: Tree, ghost h: nat, ghost k: u32, ghost v: nat)
      returns (key: u32, d: nat)
      requires Valid() && FullChild(s, root, b, c, t, h, k)
      modifies this, Repr
      ensures Valid() && old(Repr) <= Repr && fresh(Repr - old(Repr))
      ensures t.Inner? && b < |t.kids| && key == t.kids[b].sep && h > 0
      ensures Halved(s, old(H()), root, t.kids, b, c, d, h - 1, k, v)
    {
      hide FreeOk, Node.Reads, Wired, Wf, Holds, Outcome, WouldFill, HalvesReady, SplitWrote;
      key := ReadyToSplit(root, b, c, s, t, h, k, v);
      d := SplitChild(root, b, c, t.kids[b].sub);
    }

    /** The full child was split, and a set in either half will succeed. */
    ghost predicate Halved(s: Heap, s1: Heap, root: nat, kids: seq<Kid>, b: nat, c: nat, d: nat, h: nat, k: u32, v: nat)
      reads this
    {
      SplitState(s, s1, H(), root, kids, b, c, d) && HalvesReady(kids[b].sub, h, k, v)
    }

    lemma HalvedIs(s: Heap, s1: Heap, root: nat, kids: seq<Kid>, b: nat, c: nat, d: nat, h: nat, k: u32, v: nat)
      requires Halved(s, s1, root, kids, b, c, d, h, k, v) && b < |kids|
      ensures SplitState(s, s1, H(), root, kids, b, c, d) && HalvesReady(kids[b].sub, h, k, v)
      ensures var l, r := Take(kids[b].sub, SPLIT), Drop(kids[b].sub, SPLIT);
              && Holds(H(), c, l) && Holds(H(), d, r) && Wf(l, h) && Wf(r, h)
              && 0 < Size(l) && 0 < Size(r)
              && SetT(l, h, k, v).code == Ok && 0 < Size(SetT(l, h, k, v).tree)
              && SetT(r, h, k, v).code == Ok && 0 < Size(SetT(r, h, k, v).tree)
      ensures c in writable && d in writable && root in s.mem && |s.mem[root].slots| == |kids|
      ensures s.mem[root].slots[b].data == c
    {
      SplitReady(s, s1, H(), root, kids, b, c, d);
    }

    /** The retry in the left or the right half, and the two separators that follow it. */
    method Retry(root: nat, b: nat, c: nat, d: nat, left: bool, k: u32, v: nat,
                 ghost s: Heap, ghost s1: Heap, ghost kids: seq<Kid>, ghost h: nat)
      returns (code: Code)
      requires Valid() && Halved(s, s1, root, kids, b, c, d, h, k, v) && b < |kids|
      modifies this, Repr
      ensures Valid() && old(Repr) <= Repr && fresh(Repr - old(Repr))
      ensures var sub := kids[b].sub;
              var l, r := Take(sub, SPLIT), Drop(sub, SPLIT);
              && code == Ok
              && Outcome(s, H(), root, Inner(kids), if left then SplitKid(kids, b, SetT(l, h, k, v).tree, r)
                                                    else SplitKid(kids, b, l, SetT(r, h, k, v).tree))
      decreases h, 3
    {
      hide Valid, Sound, FreeOk, Node.Reads, Wired, Wf, Holds, Outcome, SetT, SplitState, HalvesReady, Halved,
        InsertAt, Take, Drop, LastKey;
      HalvedIs(s, s1, root, kids, b, c, d, h, k, v);
      ghost var sub, slots, s2 := kids[b].sub, s.mem[root].slots, H();
      ghost var l, r := Take(sub, SPLIT), Drop(sub, SPLIT);
      SoundBy(if left then c else d, if left then l else r, h);
      code := Set(if left then c else d, k, v, if left then l else r, h);
      ghost var s3, u := H(), if left then SetT(l, h, k, v).tree else SetT(r, h, k, v).tree;
      RetryKeeps(s, s1, s2, s3, root, kids, b, c, d, left, u);
      if code == Ok {
        CloseSplit(root, b, c, d, if left then u else l, if left then r else u, slots);
      }
      RetryDone(s, s1, s2, s3, H(), root, kids, b, c, d, left, u);
    }

    /** Both halves of a full node are valid, and a set in either succeeds. */
    static ghost predicate HalvesReady(t: Tree, h: nat, k: u32, v: nat) {
      var l, r := Take(t, SPLIT), Drop(t, SPLIT);
      && Wf(l, h) && Wf(r, h) && 0 < Size(l) && 0 < Size(r)
      && SetT(l, h, k, v).code == Ok && 0 < Size(SetT(l, h, k, v).tree)
      && SetT(r, h, k, v).code == Ok && 0 < Size(SetT(r, h, k, v).tree)
    }

    static lemma FullHalves(t: Tree, h: nat, b: nat, k: u32, v: nat)
      requires Wf(t, h) && t.Inner? && b < |t.kids| && WouldFill(t.kids[b].sub, k)
      ensures h > 0 && Size(t.kids[b].sub) == SIZE && HalvesReady(t.kids[b].sub, h - 1, k, v)
    {
      hide Wf, WouldFill, SetT, Take, Drop;
      var sub := t.kids[b].sub;
      FullIsFull(sub, k);
      KidWf(t, h, b);
      TakeDropWf(sub, h - 1, SPLIT);
      HalvesGrow(sub, h - 1, k, v);
    }

    /** Before a split: what the parent and the full child show, and the old separator. */
    method ReadyToSplit(root: nat, b: nat, c: nat,
                        ghost s: Heap, ghost t: Tree, ghost h: nat, ghost k: u32, ghost v: nat)
      returns (key: u32)
      requires Valid() && FullChild(s, root, b, c, t, h, k)
      ensures key == t.kids[b].sep && h > 0
      ensures root in writable && c in writable && root != c && mem[root] == s.mem[root]
      ensures mem[root].magic == INNER_MAGIC
      ensures Holds(H(), c, t.kids[b].sub) && Size(t.kids[b].sub) == SIZE
      ensures HalvesReady(t.kids[b].sub, h - 1, k, v)
    {
      FullHalves(t, h, b, k, v);
      hide Wf, WouldFill, HalvesReady, Route, SetT;
      ChildHeld(s, root, t.kids, b);
      ParentKept(s, H(), root, t.kids, b, t.kids[b].sub);
      OutcomeSane(s, H(), c, t.kids[b].sub, t.kids[b].sub);
      var d;
      key, d := SlotOf(root, b);
    }

    /**
     A new root over the two halves of the old one. The caller's variable for the new root names an
     existing block on entry, whose magic word is what gets checked.
     */
    method Grow(root: nat, slot: nat, ghost t: Tree, ghost h: nat)
      returns (code: Code, newRoot: nat, ghost c: nat, ghost d: nat)
      requires Valid() && slot in nodes
      requires Sound(root, t, h) && IsNode(mem[root].magic) && 2 <= Size(t)
      modifies this, Repr
      ensures Valid() && old(Repr) <= Repr && fresh(Repr - old(Repr))
      ensures !IsNode(old(mem[slot].magic)) ==> code == Corrupt && newRoot == slot && H() == old(H())
      ensures IsNode(old(mem[slot].magic)) ==> code == Ok && GrowOutcome(old(H()), H(), root, t, newRoot, c, d)
    {
      hide Valid, FreeOk, Node.Reads, Wf, Modified, Allocated;
      c, d := 0, 0;
      Facts();
      var magic := MagicOf(slot);
      if magic != INNER_MAGIC && magic != LEAF_MAGIC {
        return Corrupt, slot, 0, 0;
      }
      ghost var s := H();
      var copy, child;
      ghost var s1, s2;
      copy, newRoot, child, s1, s2 := GrowBlocks(root);
      ghost var s3 := H();
      Facts();
      c, d, code := copy, child, Ok;
      GrowReady(s, s1, s2, s3, root, t, newRoot, c, d);
      CutRoot(newRoot, copy, child, t);
      ghost var s4 := Heap(CutMem(s3.mem, c, d, Size(t) / 2), s3.used, s3.writable);
      GrowDone(s, s1, s2, s3, s4, H(), root, t, newRoot, c, d);
    }

    /** A private copy of the root and two new blocks. */
    method GrowBlocks(root: nat) returns (copy: nat, newRoot: nat, child: nat, ghost s1: Heap, ghost s2: Heap)
      requires Valid() && root in used
      modifies this, Repr
      ensures Valid() && old(Repr) <= Repr && fresh(Repr - old(Repr))
      ensures Sane(s1) && Modified(old(H()), s1, root, copy)
      ensures Sane(s2) && Allocated(s1, s2, newRoot) && Allocated(s2, H(), child)
    {
      hide FreeOk, Node.Reads, Wired, Modified, Allocated;
      copy := Modify(root);
      s1 := H();
      ghost var r1 := Repr;
      assert fresh(r1 - old(Repr));
      newRoot := NewNode();
      s2 := H();
      ghost var r2 := Repr;
      assert fresh(r2 - r1);
      child := NewNode();
      assert fresh(Repr - r2);
    }

    /** Moves the upper half of block c to block d and makes x their parent. */
    method CutRoot(x: nat, c: nat, d: nat, ghost t: Tree)
      requires Valid() && x in nodes && c in nodes && d in nodes && x != c && x != d && c != d
      requires mem[c].magic == Magic(t) && |mem[c].slots| == Size(t) >= 2 && Keys(mem[c].slots) == NodeKeys(t)
      modifies this`mem, Repr
      ensures Valid()
      ensures var n := Size(t) / 2;
              mem == CutMem(old(mem), c, d, n)[x :=
                View(INNER_MAGIC, [Slot(LastKey(Take(t, n)), c), Slot(LastKey(Drop(t, n)), d)])]
    {
      hide FreeOk, Node.Reads, Wired, LastKey, Take, Drop, NodeKeys, CutMem;
      var size := SizeOf(c);
      var n := size / 2;
      CutReads(mem, c, d, t, n);
      Objects(x);
      Objects(c);
      Objects(d);
      SplitInto(c, d, n);
      var k0, d0 := SlotOf(c, n - 1);
      var k1, d1 := SlotOf(d, size - n - 1);
      MakeRoot(x, k0, c, k1, d);
    }

    /**
     Removes k below root and hands back its value. A node left with fewer than SPLIT entries reports EMPTY;
     its parent then lends it an entry from a neighbour, or merges the two.
     */
    method Pop(root: nat, k: u32, ghost t: Tree, ghost h: nat) returns (code: Code, value: nat)
      requires Valid() && Sound(root, t, h) && root in writable
      requires IsNode(mem[root].magic) ==> PopReady(t, k)
      modifies this, Repr
      ensures Valid() && old(Repr) <= Repr && fresh(Repr - old(Repr))
      ensures !IsNode(old(mem[root].magic)) ==> code == Corrupt && value == 0 && H() == old(H())
      ensures IsNode(old(mem[root].magic)) ==>
                var r := PopT(t, k);
                code == r.code && value == r.value && Outcome(old(H()), H(), root, t, r.tree)
      decreases h, 2
    {
      var magic := MagicOf(root);
      if magic != INNER_MAGIC && magic != LEAF_MAGIC {
        return Corrupt, 0;
      }
      var b := Find(root, k, t);
      Look(root, t, h, b);
      if magic == LEAF_MAGIC {
        code, value := PopLeaf(root, b, k, t);
      } else {
        code, value := PopInner(root, b, k, t, h);
      }
    }

    method PopLeaf(root: nat, b: nat, k: u32, ghost t: Tree) returns (code: Code, value: nat)
      requires Valid() && Holds(H(), root, t) && root in writable && t.Leaf? && mem[root].slots == t.es
      requires b == Search(Keys(t.es), k) < |t.es| && mem[root].magic == LEAF_MAGIC
      modifies this`mem, Repr
      ensures Valid()
      ensures var r := PopT(t, k);
              code == r.code && value == r.value && Outcome(old(H()), H(), root, t, r.tree)
    {
      hide FreeOk, Node.Reads, Outcome, Holds;
      ghost var s := H();
      Objects(root);
      var key, data := SlotOf(root, b);
      if key != k {
        Unchanged(s, root, t);
        return InvalidKey, 0;
      }
      value := data;
      Remove(root, b);
      LeafWritten(s, H(), root, t, RemoveAt(t.es, b));
      var n := SizeOf(root);
      code := if n < SPLIT then Empty else Ok;
    }

    /** A writable internal node on the way of a pop that is ready, and the child that covers the key. */
    ghost predicate AtInner(root: nat, b: nat, k: u32, t: Tree, h: nat)
      reads this
    {
      && Holds(H(), root, t) && root in writable && Wf(t, h)
      && t.Inner? && b == Search(NodeKeys(t), k) && PopReady(t, k)
    }

    lemma AtInnerIs(root: nat, b: nat, k: u32, t: Tree, h: nat)
      requires Valid() && AtInner(root, b, k, t, h)
      ensures t.Inner? && b < |t.kids| && h > 0 && Sane(H()) && Holds(H(), root, t) && root in writable
      ensures Wf(t.kids[b].sub, h - 1) && PopReady(t.kids[b].sub, k) && PopCases(t, k, b)
    {
      PopFacts(t, h, k);
    }

    /** Pop below child b: store the changed child back, or refill it. */
    method PopInner(root: nat, b: nat, k: u32, ghost t: Tree, ghost h: nat) returns (code: Code, value: nat)
      requires Valid() && AtInner(root, b, k, t, h)
      modifies this, Repr
      ensures Valid() && old(Repr) <= Repr && fresh(Repr - old(Repr))
      ensures var r := PopT(t, k);
              code == r.code && value == r.value && Outcome(old(H()), H(), root, t, r.tree)
      decreases h, 1
    {
      hide *;
      ghost var s0 := H();
      var c;
      ghost var s;
      c, code, value, s := PopBelow(root, b, k, t, h);
      ghost var repr := Repr;
      assert fresh(repr - old(Repr));
      code, value := PopBack(root, b, c, code, value, k, s, t);
      assert fresh(Repr - repr);
      OutcomeTransitive(s0, s, H(), root, t, t, PopT(t, k).tree);
    }

    /** Makes child b writable and pops below it. */
    method PopBelow(root: nat, b: nat, k: u32, ghost t: Tree, ghost h: nat)
      returns (c: nat, code: Code, value: nat, ghost s: Heap)
      requires Valid() && AtInner(root, b, k, t, h)
      modifies this, Repr
      ensures Valid() && old(Repr) <= Repr && fresh(Repr - old(Repr))
      ensures Sane(old(H())) && Outcome(old(H()), s, root, t, t)
      ensures t.Inner? && b < |t.kids| && PoppedBelow(s, root, b, c, k, t, code, value) && PopCases(t, k, b)
      decreases h, 0
    {
      hide Valid, AtInner, FreeOk, Node.Reads, Wired, Holds, Outcome, Sound, PopT, PopReady, PopCases, Wf, Search;
      AtInnerIs(root, b, k, t, h);
      c := OpenChild(root, b, t.kids);
      s := H();
      ghost var repr := Repr;
      assert fresh(repr - old(Repr));
      OutcomeSane(old(H()), s, root, t, t);
      SoundBy(c, t.kids[b].sub, h - 1);
      code, value := Pop(c, k, t.kids[b].sub, h - 1);
      assert fresh(Repr - repr);
    }

    /** The pop of k in child b, now in block c, is done; the node itself is as it was in s. */
    ghost predicate PoppedBelow(s: Heap, root: nat, b: nat, c: nat, k: u32, t: Tree, code: Code, value: nat)
      reads this
    {
      && Sane(s) && t.Inner? && b < |t.kids| && Holds(s, root, t) && root in s.writable
      && root in s.mem && |s.mem[root].slots| == |t.kids| && s.mem[root].slots[b].data == c
      && var r := PopT(t.kids[b].sub, k);
      && code == r.code && value == r.value && Outcome(s, H(), c, t.kids[b].sub, r.tree)
    }

    /** After the pop in child b: enter its new last key, refill it, or pass the error on. */
    method PopBack(root: nat, b: nat, c: nat, code0: Code, value0: nat, ghost k: u32, ghost s: Heap, ghost t: Tree)
      returns (code: Code, value: nat)
      requires Valid() && t.Inner? && b < |t.kids| && PoppedBelow(s, root, b, c, k, t, code0, value0)
      requires PopCases(t, k, b)
      modifies this, Repr
      ensures Valid() && old(Repr) <= Repr && fresh(Repr - old(Repr))
      ensures var r := PopT(t, k);
              code == r.code && value == r.value && Outcome(s, H(), root, t, r.tree)
    {
      hide FreeOk, Node.Reads, Wired, Holds, Outcome, PopT, RefillReady, Refill;
      ghost var kids, r := t.kids, PopT(t.kids[b].sub, k);
      if code0 == Ok {
        CloseChild(root, b, c, s, kids, r.tree);
        return Ok, value0;
      }
      ParentKept(s, H(), root, kids, b, r.tree);
      var n := SizeOf(root);
      ghost var kids1 := kids[b := Kid(kids[b].sep, r.tree)];
      LeaveChild(s, H(), root, kids, b, r.tree);
      if code0 != Empty {
        return code0, 0;
      }
      if n <= 1 {
        return ReallyEmpty, 0;
      }
      ghost var s1 := H();
      OutcomeSane(s, s1, root, t, Inner(kids1));
      RefillStored(kids, b, r);
      code, value := RefillChild(root, b, value0, kids1);
      OutcomeTransitive(s, s1, H(), root, t, Inner(kids1), PopT(t, k).tree);
    }

    /** Child b is too small: a neighbour lends it an entry, or the two are merged. */
    method RefillChild(root: nat, b: nat, v: nat, ghost kids: seq<Kid>) returns (code: Code, value: nat)
      requires Valid() && Holds(H(), root, Inner(kids)) && root in writable
      requires b < |kids| && RefillReady(kids, b, kids[b].sub)
      modifies this, Repr
      ensures Valid() && old(Repr) <= Repr && fresh(Repr - old(Repr))
      ensures var r := Refill(kids, b, PopResult(Empty, v, kids[b].sub));
              code == r.code && value == r.value && Outcome(old(H()), H(), root, Inner(kids), r.tree)
    {
      hide Valid, FreeOk, Node.Reads, Wired, Holds, Outcome, LastKey;
      ghost var s0, tree := H(), Inner(kids);
      Facts();
      var c0, c1, other := OpenPair(root, b, kids);
      ghost var s, repr := H(), Repr;
      assert fresh(repr - old(Repr));
      Facts();
      OutcomeSane(s0, s, root, tree, tree);
      var n := SizeOf(c1);
      if n > SPLIT {
        Steal(root, b, other, c0, c1, kids);
        code, value := Ok, v;
      } else {
        if other < b {
          Merge(root, other, c1, c0, kids);
        } else {
          Merge(root, b, c0, c1, kids);
        }
        Facts();
        var m := SizeOf(root);
        code, value := Empty, if m < SPLIT then v else 0;
      }
      OutcomeTransitive(s0, s, H(), root, tree, tree, Refill(kids, b, PopResult(Empty, v, kids[b].sub)).tree);
    }

    /** Makes child b and the neighbour that helps it writable. */
    method OpenPair(root: nat, b: nat, ghost kids: seq<Kid>) returns (c0: nat, c1: nat, other: nat)
      requires Valid() && Holds(H(), root, Inner(kids)) && root in writable && 1 < |kids| && b < |kids|
      modifies this, Repr
      ensures Valid() && old(Repr) <= Repr && fresh(Repr - old(Repr))
      ensures other == Helper(|kids|, b)
      ensures Outcome(old(H()), H(), root, Inner(kids), Inner(kids))
      ensures PairOpen(root, b, other, c0, c1, kids)
    {
      hide FreeOk, Node.Reads, Wired, Holds, Outcome;
      ghost var s0, tree := H(), Inner(kids);
      c0 := OpenChild(root, b, kids);
      ghost var s1, repr := H(), Repr;
      assert fresh(repr - old(Repr));
      OutcomeSane(s0, s1, root, tree, tree);
      var n := SizeOf(root);
      other := if b + 1 == n then b - 1 else b + 1;
      c1 := OpenChild(root, other, kids);
      assert fresh(Repr - repr);
      OutcomeTransitive(s0, s1, H(), root, tree, tree, tree);
      OutcomeSane(s0, H(), root, tree, tree);
      PairFacts(H(), root, kids, b, other, c0, c1);
    }

    /** Both children are writable and entered in the node, and read as their trees do. */
    ghost predicate PairOpen(root: nat, b: nat, other: nat, c0: nat, c1: nat, kids: seq<Kid>)
      reads this
    {
      && {root, c0, c1} <= writable && Holds(H(), root, Inner(kids))
      && PairReads(mem, root, kids, b, other, c0, c1)
    }

    /** The last entry of the left neighbour, or the first of the right one, moves to child b. */
    method Steal(root: nat, b: nat, other: nat, c0: nat, c1: nat, ghost kids: seq<Kid>)
      requires Valid() && PairOpen(root, b, other, c0, c1, kids)
      requires b < |kids| && RefillReady(kids, b, kids[b].sub) && other == Helper(|kids|, b)
      requires SPLIT < Size(kids[other].sub)
      modifies this`mem, Repr
      ensures Valid()
      ensures Outcome(old(H()), H(), root, Inner(kids), Refill(kids, b, PopResult(Empty, 0, kids[b].sub)).tree)
    {
      hide Valid, FreeOk, Node.Reads, Wired, Holds, Outcome, LastKey;
      ghost var s, x, u := H(), kids[b].sub, kids[other].sub;
      Facts();
      if other < b {
        MoveLast(c1, c0);
        Facts();
        StealAsDeal(u, x);
        StealHolds(s, H(), root, kids, other, Size(u) - 1);
        ghost var s1, l, r := H(), Take(u, Size(u) - 1), Join(Drop(u, Size(u) - 1), x);
        SealPair(root, b, c0, r, other, c1, l);
        UpdatesCommute(s.mem[root].slots, b, Slot(LastKey(r), c0), other, Slot(LastKey(l), c1));
        UpdatesCommute(kids, b, MakeKid(r), other, MakeKid(l));
        StealDone(s, s1, H(), root, kids, other, Size(u) - 1);
      } else {
        MoveFirst(c0, c1);
        Facts();
        StealAsDeal(x, u);
        StealHolds(s, H(), root, kids, b, Size(x) + 1);
        ghost var s1, l, r := H(), Join(x, Take(u, 1)), Drop(u, 1);
        SealPair(root, b, c0, l, other, c1, r);
        StealDone(s, s1, H(), root, kids, b, Size(x) + 1);
      }
    }

    method MoveLast(c: nat, d: nat)
      requires Valid() && c in nodes && d in nodes && c != d && mem[c].slots != [] && |mem[d].slots| < SIZE
      modifies this`mem, Repr
      ensures Valid() && Dealt(old(H()), H(), c, d, |old(mem[c].slots)| - 1)
    {
      hide FreeOk, Node.Reads, Wired, InsertAt, RemoveAt;
      ghost var s := H();
      Objects(c);
      Objects(d);
      var n := SizeOf(c);
      var key, data := SlotOf(c, n - 1);
      Insert(d, 0, key, data);
      Remove(c, n - 1);
      LastDealt(s, H(), c, d);
    }

    method MoveFirst(c: nat, d: nat)
      requires Valid() && c in nodes && d in nodes && c != d && mem[d].slots != [] && |mem[c].slots| < SIZE
      modifies this`mem, Repr
      ensures Valid() && Dealt(old(H()), H(), c, d, |old(mem[c].slots)| + 1)
    {
      hide FreeOk, Node.Reads, Wired, InsertAt, RemoveAt;
      ghost var s := H();
      Objects(c);
      Objects(d);
      var n := SizeOf(c);
      var key, data := SlotOf(d, 0);
      Insert(c, n, key, data);
      Remove(d, 0);
      FirstDealt(s, H(), c, d);
    }

    /** Enters the last keys of two nodes in their parent. */
    method SealPair(root: nat, i: nat, c: nat, ghost l: Tree, j: nat, d: nat, ghost r: Tree)
      requires Valid() && root in nodes && i < |mem[root].slots| && j < |mem[root].slots| && i != j
      requires Holds(H(), c, l) && Holds(H(), d, r) && 0 < Size(l) && 0 < Size(r) && root !in {c, d}
      requires mem[root].slots[i].data == c && mem[root].slots[j].data == d
      modifies this`mem, Repr
      ensures Valid()
      ensures Wrote(old(H()), H(), root, View(old(mem[root].magic),
                old(mem[root].slots)[i := Slot(LastKey(l), c)][j := Slot(LastKey(r), d)]))
    {
      hide FreeOk, Node.Reads, Wired, LastKey;
      OwnedKeys(mem, c, l);
      OwnedKeys(mem, d, r);
      LastKeyIs(mem, c, l);
      LastKeyIs(mem, d, r);
      Objects(root);
      Seal(root, i, c);
      Seal(root, j, d);
    }

    /** Appends the entries of the right node of a pair to the left one and drops the right block. */
    method Merge(root: nat, i: nat, c: nat, d: nat, ghost kids: seq<Kid>)
      requires Valid() && i + 1 < |kids| && {root, c, d} <= writable && Holds(H(), root, Inner(kids))
      requires PairReads(mem, root, kids, i, i + 1, c, d)
      requires (kids[i].sub.Leaf? <==> kids[i + 1].sub.Leaf?) && 0 < Size(kids[i].sub) + Size(kids[i + 1].sub) <= SIZE
      modifies this, Repr
      ensures Valid() && Repr == old(Repr) && free == old(free) + [d]
      ensures root in mem && |mem[root].slots| == |kids| - 1
      ensures Outcome(old(H()), H(), root, Inner(kids),
                Inner(kids[..i] + [MakeKid(Join(kids[i].sub, kids[i + 1].sub))] + kids[i + 2..]))
    {
      hide Valid, FreeOk, Node.Reads, Wired, Holds, Outcome, LastKey, RemoveAt, Join, Size;
      ghost var s, u := H(), Join(kids[i].sub, kids[i + 1].sub);
      Facts();
      Objects(root);
      Objects(c);
      Append(c, d);
      Free(d);
      ghost var s1 := H();
      Facts();
      MergeHolds(s, s1, root, kids, i);
      SlotsAfterMerge(s.mem[root].slots, i, Slot(LastKey(u), c));
      Remove(root, i + 1);
      Seal(root, i, c);
      MergeDone(s, s1, H(), root, kids, i);
    }
  }
}
