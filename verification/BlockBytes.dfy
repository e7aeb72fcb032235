/**
 A block as bytes, and the little-endian words laid over them.
 */
module BlockBytes {
  import opened Words

  const BLOCK_SIZE: nat := 4096

  type byte = x: int | 0 <= x < 256

  /** Word i of a block. */
  function Word(b: seq<byte>, i: nat): u32
    requires 4 * i + 4 <= |b|
  {
    (b[4 * i] as int) + 0x100 * (b[4 * i + 1] as int)
    + 0x1_0000 * (b[4 * i + 2] as int) + 0x100_0000 * (b[4 * i + 3] as int)
  }

  function WordBytes(w: u32): (s: seq<byte>)
    ensures |s| == 4
  {
    [w % 0x100, w / 0x100 % 0x100, w / 0x1_0000 % 0x100, w / 0x100_0000]
  }

  /** The block with the bytes from at on replaced. */
  function PutBytes(b: seq<byte>, at: nat, s: seq<byte>): (r: seq<byte>)
    requires at + |s| <= |b|
    ensures |r| == |b|
  {
    b[..at] + s + b[at + |s|..]
  }

  lemma PutBytesIs(b: seq<byte>, at: nat, s: seq<byte>)
    requires at + |s| <= |b|
    ensures forall k :: 0 <= k < |b| ==> PutBytes(b, at, s)[k] == if at <= k < at + |s| then s[k - at] else b[k]
  {
  }

  function PutWord(b: seq<byte>, i: nat, w: u32): (r: seq<byte>)
    requires 4 * i + 4 <= |b|
    ensures |r| == |b|
  {
    PutBytes(b, 4 * i, WordBytes(w))
  }

  /** Writing a word changes that word, and no byte outside it. */
  lemma PutWordIs(b: seq<byte>, i: nat, w: u32)
    requires 4 * i + 4 <= |b|
    ensures Word(PutWord(b, i, w), i) == w
    ensures forall j :: 0 <= j < |b| / 4 && j != i ==> Word(PutWord(b, i, w), j) == Word(b, j)
    ensures forall k :: 0 <= k < |b| && !(4 * i <= k < 4 * i + 4) ==> PutWord(b, i, w)[k] == b[k]
  {
    PutBytesIs(b, 4 * i, WordBytes(w));
    var r := PutWord(b, i, w);
    WordOfBytes(r, i, w);
    hide PutWord;
    forall j | 0 <= j < |b| / 4 && j != i
      ensures Word(r, j) == Word(b, j)
    {
      SameWord(r, b, j);
    }
  }

  lemma WordOfBytes(r: seq<byte>, i: nat, w: u32)
    requires 4 * i + 4 <= |r| && forall k :: 0 <= k < 4 ==> r[4 * i + k] == WordBytes(w)[k]
    ensures Word(r, i) == w
  {
    Digits(w);
    assert r[4 * i + 0] == WordBytes(w)[0] && r[4 * i + 1] == WordBytes(w)[1];
    assert r[4 * i + 2] == WordBytes(w)[2] && r[4 * i + 3] == WordBytes(w)[3];
    hide WordBytes;
  }

  lemma Digits(w: u32)
    ensures var s := WordBytes(w);
            (s[0] as int) + 0x100 * (s[1] as int) + 0x1_0000 * (s[2] as int) + 0x100_0000 * (s[3] as int) == w
  {
  }

  /** Four bytes are zero exactly when the word over them is. */
  lemma ZeroWord(b: seq<byte>, i: nat)
    requires 4 * i + 4 <= |b|
    ensures Word(b, i) == 0 <==> forall k :: 4 * i <= k < 4 * i + 4 ==> b[k] == 0
  {
    if Word(b, i) == 0 {
      forall k | 4 * i <= k < 4 * i + 4
        ensures b[k] == 0
      {
        assert k == 4 * i || k == 4 * i + 1 || k == 4 * i + 2 || k == 4 * i + 3;
      }
    }
  }

  /** Words over bytes that did not change did not change. */
  lemma SameWord(b: seq<byte>, c: seq<byte>, i: nat)
    requires 4 * i + 4 <= |b| && 4 * i + 4 <= |c|
    requires forall k :: 4 * i <= k < 4 * i + 4 ==> b[k] == c[k]
    ensures Word(b, i) == Word(c, i)
  {
    assert b[4 * i] == c[4 * i] && b[4 * i + 1] == c[4 * i + 1];
    assert b[4 * i + 2] == c[4 * i + 2] && b[4 * i + 3] == c[4 * i + 3];
  }
}
