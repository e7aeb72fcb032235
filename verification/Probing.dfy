/**
 Triangular probing: where the probe sequence of a hash goes. It visits every slot of a table of at most 2^30 slots,
 and in a table of prime size the probes of the first half period meet only where they lost different multiples of 2^31.
 */
module Probing {
  import opened Words
  import opened Arithmetic
  import opened Primes

  // ---- the probe sequence

  /** The offset of probe i; the square wraps around at 32 bits before it is halved. */
  function Offset(i: nat): nat {
    ((i * i + i) % WORD_LIMIT) / 2
  }

  /** The slot that probe i of hash h looks at in a table of p slots; the sum wraps around at 32 bits too. */
  function ProbeSlot(h: u32, i: nat, p: nat): (s: nat)
    requires 0 < p
    ensures s < p
  {
    ((h + Offset(i)) % WORD_LIMIT) % p
  }

  /** i * (i + 1) / 2 */
  function Triangle(i: nat): nat {
    (i * i + i) / 2
  }

  lemma TwiceTriangle(i: nat)
    ensures 2 * Triangle(i) == i * i + i
  {
    if i % 2 == 0 {
      assert i * i + i == 2 * ((i / 2) * i + i / 2);
    } else {
      var j := i / 2;
      assert i * i + i == (2 * j + 1) * (2 * j + 2);
      assert (2 * j + 1) * (2 * j + 2) == 2 * ((2 * j + 1) * (j + 1));
    }
  }

  /** Two triangular numbers below the middle of a prime differ modulo that prime. */
  lemma TrianglesDiffer(p: nat, r: nat, s: nat, c: int)
    requires Prime(p) && r < s && 2 * s < p
    ensures Triangle(s) - Triangle(r) != p * c
  {
    if Triangle(s) - Triangle(r) == p * c {
      TwiceTriangle(r);
      TwiceTriangle(s);
      assert (s - r) * (s + r + 1) == p * (2 * c);
      var d := Euclid(p, s - r, s + r + 1, 2 * c);
      MultipleOutside(p, d);
    }
  }

  lemma MultipleOutside(p: nat, d: int)
    ensures p * d <= 0 || p <= p * d
  {
    if 0 < d {
      Monotone(p, 1, d);
    } else {
      Monotone(p, d, 0);
    }
  }

  lemma TriangleGrows(i: nat, j: nat)
    requires i <= j
    ensures Triangle(i) <= Triangle(j)
  {
    ProductGrows(i, j, j);
  }

  /**
   How many times 2^31 is lost on the way to probe i: once for every 2^31 in its triangular number, because the square
   wraps around before it is halved, and twice when the sum wraps around.
   */
  function Turns(h: u32, i: nat): nat {
    Triangle(i) / HALF_LIMIT + if WORD_LIMIT <= h + Offset(i) then 2 else 0
  }

  /** The value that probe i reduces to a slot. */
  lemma ProbeValue(h: u32, i: nat)
    ensures (h + Offset(i)) % WORD_LIMIT == h + Triangle(i) - HALF_LIMIT * Turns(h, i)
  {
    OffsetIsTriangle(i);
    hide Triangle, Offset;
  }

  /**
   In a table of prime size two probes of the first half period look at the same slot exactly when they have taken
   different numbers of turns, and what those turns took away makes up for the difference of their triangular numbers.
   */
  lemma FirstProbesMeet(h: u32, p: nat, r: nat, s: nat)
    requires Prime(p) && r < s && 2 * s < p
    ensures ProbeSlot(h, r, p) == ProbeSlot(h, s, p)
       <==> Turns(h, r) != Turns(h, s)
            && (Triangle(s) - Triangle(r) - HALF_LIMIT * (Turns(h, s) - Turns(h, r))) % p == 0
  {
    ProbeValue(h, r);
    ProbeValue(h, s);
    NoMultiple(p, r, s);
    SameSlot((h + Offset(r)) % WORD_LIMIT, (h + Offset(s)) % WORD_LIMIT, p);
    hide Triangle, Offset, Prime, Turns;
  }

  lemma NoMultiple(p: nat, r: nat, s: nat)
    requires Prime(p) && r < s && 2 * s < p
    ensures (Triangle(s) - Triangle(r)) % p != 0
  {
    hide Prime, Triangle;
    var x := Triangle(s) - Triangle(r);
    if x % p == 0 {
      TrianglesDiffer(p, r, s, x / p);
      assert false;
    }
  }

  lemma SameSlot(v: nat, w: nat, p: nat)
    requires 0 < p
    ensures v % p == w % p <==> (w - v) % p == 0
  {
    var q := w / p - v / p;
    assert w - v == p * q + (w % p - v % p);
    if v % p == w % p {
      SmallMultiple(p, q, (w - v) / p, (w - v) % p);
    } else if (w - v) % p == 0 {
      assert w % p - v % p == p * ((w - v) / p - q);
      MultipleOutside(p, (w - v) / p - q);
      MultipleOutside(p, q - (w - v) / p);
    }
  }

  /** Probes of the first half period that have taken equally many turns look at different slots. */
  lemma FirstProbesDistinct(h: u32, p: nat, r: nat, s: nat)
    requires Prime(p) && r < s && 2 * s < p && Turns(h, r) == Turns(h, s)
    ensures ProbeSlot(h, r, p) != ProbeSlot(h, s, p)
  {
    FirstProbesMeet(h, p, r, s);
  }

  /** Where a probe has taken no turn, no earlier one has. */
  lemma NoTurnBefore(h: u32, r: nat, s: nat)
    requires r <= s && Turns(h, s) == 0
    ensures Turns(h, r) == 0
  {
    TriangleGrows(r, s);
    OffsetIsTriangle(r);
    OffsetIsTriangle(s);
    hide Triangle, Offset;
  }

  /** When the sum wraps around they may meet: the first two probes of this hash look at the same one of three slots. */
  lemma FirstProbesCanMeet()
    ensures ProbeSlot(0xFFFF_FFFF, 0, 3) == ProbeSlot(0xFFFF_FFFF, 1, 3)
  {
    assert Offset(0) == 0 && Offset(1) == 1;
  }

  /** So may they when the square does: at a listed capacity, for hash 0, where no sum wraps around. */
  lemma SquaresCanMeet()
    ensures 179717 in HASH_SIZES && 2 * 65544 < 179717
    ensures ProbeSlot(0, 37354, 179717) == ProbeSlot(0, 65544, 179717)
    ensures Turns(0, 37354) == 0 && Turns(0, 65544) == 1
  {
    assert HASH_SIZES[21] == 179717;
    hide HASH_SIZES;
    assert Offset(37354) == 697679335 && Offset(65544) == 557092;
  }

  const HALF_LIMIT: nat := 0x8000_0000

  // ---- every probe sequence visits every slot

  /** An odd factor can be cancelled from a multiple of a power of two. */
  lemma {:induction false} OddCancels(a: int, b: int, k: nat, c: int) returns (d: int)
    requires a % 2 == 1 && a * b == Pow2(k) * c
    ensures b == Pow2(k) * d
    decreases k
  {
    if k == 0 {
      return b;
    }
    HalveMultiple(a, b, Pow2(k - 1), c);
    d := OddCancels(a, b / 2, k - 1, c);
    assert b == 2 * (Pow2(k - 1) * d);
  }

  lemma HalveMultiple(a: int, b: int, q: int, c: int)
    requires a % 2 == 1 && a * b == (2 * q) * c
    ensures b == 2 * (b / 2) && a * (b / 2) == q * c
  {
    var x := a / 2;
    assert (2 * x + 1) * b == 2 * (x * b) + b;
    assert a * b == 2 * (q * c);
    assert b == 2 * (q * c - x * b);
    assert a * (2 * (b / 2)) == 2 * (a * (b / 2));
  }

  /** A product of an odd number and one below 2^k is no multiple of 2^k. */
  lemma OddTimesSmall(a: int, b: int, k: nat, c: int)
    requires a % 2 == 1 && 0 < b < Pow2(k)
    ensures a * b != Pow2(k) * c
  {
    if a * b == Pow2(k) * c {
      var d := OddCancels(a, b, k, c);
      MultipleOutside(Pow2(k), d);
    }
  }

  /**
   Different triangular numbers up to number 2^k - 1 differ modulo 2^k: of the two factors of twice their difference
   one is odd, and the other one is less than 2^(k + 1).
   */
  lemma TrianglesApart(k: nat, r: nat, s: nat, c: int)
    requires r < s < Pow2(k)
    ensures Triangle(s) - Triangle(r) != Pow2(k) * c
  {
    FactorsApart(k, r, s, c);
    TwiceDifference(r, s);
    DoubleProduct(Pow2(k), c);
    hide Triangle;
  }

  lemma FactorsApart(k: nat, r: nat, s: nat, c: int)
    requires r < s < Pow2(k)
    ensures (s - r) * (s + r + 1) != (2 * Pow2(k)) * c
  {
    OneOddFactor(s - r, s + r + 1, k + 1, c);
  }

  lemma OneOddFactor(a: nat, b: nat, k: nat, c: int)
    requires 0 < a < Pow2(k) && 0 < b < Pow2(k) && (a + b) % 2 == 1
    ensures a * b != Pow2(k) * c
  {
    hide Pow2;
    if a % 2 == 1 {
      OddTimesSmall(a, b, k, c);
    } else {
      OddTimesSmall(b, a, k, c);
      Commute(a, b);
    }
  }

  lemma Commute(a: int, b: int)
    ensures a * b == b * a
  {
  }

  lemma DoubleProduct(q: int, c: int)
    ensures 2 * (q * c) == (2 * q) * c
  {
  }

  lemma TwiceDifference(r: nat, s: nat)
    ensures (s - r) * (s + r + 1) == 2 * (Triangle(s) - Triangle(r))
  {
    TwiceTriangle(r);
    TwiceTriangle(s);
    hide Triangle;
    TwiceApart(r, s);
  }

  lemma TwiceApart(r: int, s: int)
    ensures (s - r) * (s + r + 1) == (s * s + s) - (r * r + r)
  {
  }

  /** The wrapped square, halved, is the triangular number modulo 2^31. */
  lemma OffsetIsTriangle(i: nat)
    ensures Offset(i) == Triangle(i) % HALF_LIMIT
  {
    TwiceTriangle(i);
    HalfOfWrapped(Triangle(i));
    hide Triangle;
  }

  lemma HalfOfWrapped(x: nat)
    ensures (2 * x % WORD_LIMIT) / 2 == x % HALF_LIMIT
  {
  }

  lemma Pow2Of31()
    ensures Pow2(31) == HALF_LIMIT
  {
    assert Pow2(8) == 0x100;
    assert Pow2(16) == 0x1_0000;
    assert Pow2(24) == 0x100_0000;
  }

  /** The first 2^31 offsets are pairwise different. */
  lemma OffsetsDiffer(r: nat, s: nat)
    requires r < s < HALF_LIMIT
    ensures Offset(r) != Offset(s)
  {
    OffsetIsTriangle(r);
    OffsetIsTriangle(s);
    Pow2Of31();
    if Offset(r) == Offset(s) {
      var a, b := Triangle(r), Triangle(s);
      assert b - a == HALF_LIMIT * (b / HALF_LIMIT - a / HALF_LIMIT);
      TrianglesApart(31, r, s, b / HALF_LIMIT - a / HALF_LIMIT);
    }
  }

  /** So every offset below 2^31 occurs among them. */
  lemma OffsetOccurs(x: nat) returns (i: nat)
    requires x < HALF_LIMIT
    ensures i < HALF_LIMIT && Offset(i) == x
  {
    hide Offset;
    var f := seq(HALF_LIMIT, j requires 0 <= j < HALF_LIMIT => Offset(j));
    forall r, s | 0 <= r < s < |f|
      ensures f[r] != f[s]
    {
      OffsetsDiffer(r, s);
    }
    forall j | 0 <= j < |f|
      ensures f[j] < |f|
    {
      OffsetIsTriangle(j);
    }
    i := Onto(f, x);
  }

  /** Whatever the hash, each slot of a table of at most 2^30 slots is the target of one of the first 2^31 probes. */
  lemma ProbesCover(h: u32, p: nat, s: nat) returns (i: nat)
    requires s < p <= 0x4000_0000
    ensures i < HALF_LIMIT && ProbeSlot(h, i, p) == s
  {
    var d := Ahead(h, p, s);
    if h + d < WORD_LIMIT {
      i := OffsetOccurs(d);
      SlotFrom(h, p, s);
      Lands(h, i, p, d);
    } else {
      i := OffsetOccurs(WORD_LIMIT - h + s);
      LandsWrapped(h, i, p, s);
    }
  }

  /** How far slot s lies ahead of the slot of h, going around in a table of p slots. */
  function Ahead(h: nat, p: nat, s: nat): (d: nat)
    requires s < p
    ensures d < p
  {
    if s < h % p then s + p - h % p else s - h % p
  }

  lemma Lands(h: u32, i: nat, p: nat, d: nat)
    requires 0 < p && Offset(i) == d && h + d < WORD_LIMIT
    ensures ProbeSlot(h, i, p) == (h + d) % p
  {
    hide Offset;
  }

  lemma LandsWrapped(h: u32, i: nat, p: nat, s: nat)
    requires s < p < WORD_LIMIT && Offset(i) == WORD_LIMIT - h + s
    ensures ProbeSlot(h, i, p) == s
  {
    hide Offset;
    assert (h + Offset(i)) % WORD_LIMIT == s;
    ModOf(p, 0, s);
  }

  lemma SlotFrom(h: nat, p: nat, s: nat)
    requires s < p
    ensures (h + Ahead(h, p, s)) % p == s
  {
    DivMod(h, p);
    var q := h / p + if s < h % p then 1 else 0;
    assert h + Ahead(h, p, s) == p * q + s;
    ModOf(p, q, s);
  }

  lemma ModOf(p: nat, q: nat, s: nat)
    requires s < p
    ensures (p * q + s) % p == s
  {
    var x := p * q + s;
    DivMod(x, p);
    if x / p < q {
      StepUp(p, x / p, q);
    } else if q < x / p {
      StepUp(p, q, x / p);
    }
  }

  lemma StepUp(p: nat, a: int, b: int)
    requires a < b
    ensures p * a + p <= p * b
  {
    Monotone(p, a + 1, b);
    assert p * (a + 1) == p * a + p;
  }
}
