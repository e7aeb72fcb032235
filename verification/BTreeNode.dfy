/**
 One B+ tree block: parallel key and data arrays edited in place.
 */
module BTreeNode {
  import opened Words
  import opened SortedSlots
  import opened BTreeModel
  import opened BTreeHeap

  function Zip(ks: seq<u32>, ds: seq<nat>): (s: seq<Slot>)
    requires |ks| == |ds|
    ensures |s| == |ks|
  {
    seq(|ks|, i requires 0 <= i < |ks| => Slot(ks[i], ds[i]))
  }

  lemma InsertedAt<T>(s: seq<T>, s': seq<T>, j: nat, x: T)
    requires j <= |s| && |s'| == |s| + 1 && s'[j] == x
    requires forall m :: 0 <= m < j ==> s'[m] == s[m]
    requires forall m :: j < m <= |s| ==> s'[m] == s[m - 1]
    ensures s' == InsertAt(s, j, x)
  {
  }

  lemma ZipInserted(ks: seq<u32>, ds: seq<nat>, ks': seq<u32>, ds': seq<nat>, j: nat, k: u32, d: nat)
    requires |ks| == |ds| && |ks'| == |ds'| == |ks| + 1 && j <= |ks|
    requires ks'[j] == k && ds'[j] == d
    requires forall m :: 0 <= m < j ==> ks'[m] == ks[m] && ds'[m] == ds[m]
    requires forall m :: j < m <= |ks| ==> ks'[m] == ks[m - 1] && ds'[m] == ds[m - 1]
    ensures Zip(ks', ds') == InsertAt(Zip(ks, ds), j, Slot(k, d))
  {
    InsertedAt(Zip(ks, ds), Zip(ks', ds'), j, Slot(k, d));
  }

  class Node {
    var magic: u32
    var size: nat
    const key: array<u32>
    const data: array<nat>

    ghost predicate Valid()
      reads this
    {
      key.Length == SIZE && data.Length == SIZE && size <= SIZE
    }

    /** The entries in use; what lies beyond them in the arrays is stale. */
    ghost function Slots(): (s: seq<Slot>)
      requires Valid()
      reads this, key, data
      ensures |s| == size
    {
      Zip(key[..size], data[..size])
    }

    ghost function Contents(): (v: View)
      requires Valid()
      reads this, key, data
      ensures |v.slots| <= SIZE
    {
      View(magic, Slots())
    }

    /** The node is well formed and reads as v. */
    ghost predicate Reads(v: View)
      reads this, key, data
    {
      Valid() && Contents() == v
    }

    constructor ()
      ensures Valid() && fresh(key) && fresh(data)
    {
      magic, size := 0, 0;
      key := new u32[SIZE](_ => 0);
      data := new nat[SIZE](_ => 0);
    }

    /** An empty leaf. */
    method Init()
      requires Valid()
      modifies this, key, data
      ensures Valid() && Contents() == View(LEAF_MAGIC, [])
      ensures forall i :: 0 <= i < SIZE ==> key[i] == 0 && data[i] == 0
    {
      for i := 0 to SIZE
        invariant Valid()
        invariant forall m :: 0 <= m < i ==> key[m] == 0 && data[m] == 0
      {
        key[i], data[i] := 0, 0;
      }
      magic, size := LEAF_MAGIC, 0;
    }

    lemma KeysRead()
      requires Valid()
      ensures Keys(Contents().slots) == key[..size]
    {
    }

    /** Binary search for the first key not below k; where keys are out of order it still says where the loop ends. */
    method Find(k: u32) returns (b: nat)
      requires Valid()
      ensures b == Search(Keys(Contents().slots), k)
    {
      KeysRead();
      hide Contents, Slots, Keys, Zip, Bisect;
      ghost var ks := key[..size];
      var e := size;
      b := 0;
      while b < e
        invariant b <= e <= size
        invariant Bisect(ks, k, b, e) == Search(ks, k)
      {
        BisectStep(ks, k, b, e);
        var m := (b + e) / 2;
        if k > key[m] {
          b := m + 1;
        } else {
          e := m;
        }
      }
      BisectEnd(ks, k, b);
    }

    /** Writes entry j. */
    method Put(j: nat, k: u32, d: nat)
      requires Valid() && j < |Contents().slots|
      modifies key, data
      ensures Valid() && Contents() == View(old(Contents().magic), old(Contents().slots)[j := Slot(k, d)])
    {
      ghost var was := Slots();
      key[j] := k;
      data[j] := d;
      assert Slots() == was[j := Slot(k, d)];
    }

    /** Shifts the entries from j on up by one and writes a new entry at j. */
    method Insert(j: nat, k: u32, d: nat)
      requires Valid() && j <= |Contents().slots| < SIZE
      modifies this`size, key, data
      ensures Valid() && Contents() == View(old(Contents().magic), InsertAt(old(Contents().slots), j, Slot(k, d)))
    {
      ghost var ks, ds := key[..size], data[..size];
      var i := size;
      while i > j
        invariant Valid() && size == old(size) && j <= i <= size
        invariant forall m :: 0 <= m <= i && m < size ==> key[m] == ks[m] && data[m] == ds[m]
        invariant forall m :: i < m <= size ==> key[m] == ks[m - 1] && data[m] == ds[m - 1]
      {
        key[i] := key[i - 1];
        data[i] := data[i - 1];
        i := i - 1;
      }
      key[j] := k;
      data[j] := d;
      size := size + 1;
      ZipInserted(ks, ds, key[..size], data[..size], j, k, d);
    }

    /** Shifts the entries after j down by one and clears the vacated last entry. */
    method Remove(j: nat)
      requires Valid() && j < |Contents().slots|
      modifies this`size, key, data
      ensures Valid() && Contents() == View(old(Contents().magic), RemoveAt(old(Contents().slots), j))
      ensures key[size] == 0 && data[size] == 0
    {
      var i := j;
      while i < size - 1
        invariant Valid() && size == old(size) && j <= i <= size - 1
        invariant forall m :: 0 <= m < j ==> key[m] == old(key[m]) && data[m] == old(data[m])
        invariant forall m :: j <= m < i ==> key[m] == old(key[m + 1]) && data[m] == old(data[m + 1])
        invariant forall m :: i <= m < SIZE ==> key[m] == old(key[m]) && data[m] == old(data[m])
      {
        key[i] := key[i + 1];
        data[i] := data[i + 1];
        i := i + 1;
      }
      size := size - 1;
      key[size] := 0;
      data[size] := 0;
    }

    /** Moves the entries from n on into the empty node other, of the same kind; they stay here as stale entries. */
    method SplitInto(other: Node, n: nat)
      requires Valid() && other.Valid() && n <= |Contents().slots|
      requires other != this && other.key != key && other.data != data
      modifies this`size, other, other.key, other.data
      ensures Valid() && Contents() == View(old(Contents().magic), old(Contents().slots)[..n])
      ensures other.Valid() && other.Contents() == View(old(Contents().magic), old(Contents().slots)[n..])
    {
      other.magic := magic;
      ghost var all := Slots();
      for i := n to size
        invariant Valid() && size == old(size) && other.Valid() && other.magic == magic
        invariant forall m :: 0 <= m < size ==> key[m] == old(key[m]) && data[m] == old(data[m])
        invariant forall m :: n <= m < i ==> other.key[m - n] == key[m] && other.data[m - n] == data[m]
      {
        other.key[i - n] := key[i];
        other.data[i - n] := data[i];
      }
      other.size := size - n;
      size := n;
      assert Slots() == all[..n];
      assert other.Slots() == all[n..];
    }

    /** Appends all entries of other. */
    method Append(other: Node)
      requires Valid() && other.Valid() && |Contents().slots| + |other.Contents().slots| <= SIZE
      requires other != this && other.key != key && other.data != data
      modifies this`size, key, data
      ensures Valid()
      ensures Contents() == View(old(Contents().magic), old(Contents().slots) + old(other.Contents().slots))
    {
      for i := 0 to other.size
        invariant Valid() && size == old(size) && other.Valid() && other.size == old(other.size)
        invariant forall m :: 0 <= m < size ==> key[m] == old(key[m]) && data[m] == old(data[m])
        invariant forall m :: 0 <= m < i ==> key[size + m] == old(other.key[m]) && data[size + m] == old(other.data[m])
      {
        key[size + i] := other.key[i];
        data[size + i] := other.data[i];
      }
      size := size + other.size;
    }

    /** Copies a whole block. */
    method CopyFrom(other: Node)
      requires Valid() && other.Valid()
      requires other != this && other.key != key && other.data != data
      modifies this, key, data
      ensures Valid() && Contents() == old(other.Contents())
    {
      for i := 0 to SIZE
        invariant Valid()
        invariant forall m :: 0 <= m < i ==> key[m] == other.key[m] && data[m] == other.data[m]
      {
        key[i], data[i] := other.key[i], other.data[i];
      }
      magic, size := other.magic, other.size;
    }

    /** An internal node over two children. */
    method MakeRoot(k0: u32, d0: nat, k1: u32, d1: nat)
      requires Valid()
      modifies this, key, data
      ensures Valid() && Contents() == View(INNER_MAGIC, [Slot(k0, d0), Slot(k1, d1)])
    {
      magic := INNER_MAGIC;
      key[0], key[1] := k0, k1;
      data[0], data[1] := d0, d1;
      size := 2;
      assert Slots() == [Slot(k0, d0), Slot(k1, d1)];
    }
  }
}
