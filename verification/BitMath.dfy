/**
 Word arithmetic of file growth: smearing the top bit of a word down to get the next power of two,
 and rounding a block count to a multiple of one.
 */
module BitMath {
  import opened Words
  import opened Arithmetic

  /** The bitwise operators on unsigned words, bit by bit. */
  function Or(a: nat, b: nat): nat {
    if a == 0 && b == 0 then 0
    else 2 * Or(a / 2, b / 2) + if a % 2 == 0 && b % 2 == 0 then 0 else 1
  }

  function And(a: nat, b: nat): nat {
    if a == 0 && b == 0 then 0
    else 2 * And(a / 2, b / 2) + if a % 2 == 0 || b % 2 == 0 then 0 else 1
  }

  function Quotient(x: nat, p: nat): nat
    requires 0 < p
  {
    x / p
  }

  function Shr(x: nat, c: nat): nat {
    Quotient(x, Pow2(c))
  }

  lemma ShrRemainder(x: nat, c: nat) returns (rem: nat)
    ensures x == Pow2(c) * Shr(x, c) + rem && rem < Pow2(c)
  {
    rem := x % Pow2(c);
  }

  lemma {:induction false} OrBounds(a: nat, b: nat, m: nat)
    requires a < Pow2(m) && b < Pow2(m)
    ensures a <= Or(a, b) && b <= Or(a, b) < Pow2(m)
  {
    if a != 0 || b != 0 {
      OrBounds(a / 2, b / 2, m - 1);
    }
  }

  /** OR works on the low j bits alone when the other operand has no more than those. */
  lemma {:induction false} OrSplit(hi: nat, lo: nat, b: nat, j: nat)
    requires lo < Pow2(j) && b < Pow2(j)
    ensures Or(hi * Pow2(j) + lo, b) == hi * Pow2(j) + Or(lo, b)
    decreases j
  {
    if j == 0 {
      OrZero(hi);
    } else {
      var a := hi * Pow2(j) + lo;
      assert hi * Pow2(j) == 2 * (hi * Pow2(j - 1));
      OrSplit(hi, lo / 2, b / 2, j - 1);
    }
  }

  lemma {:induction false} OrZero(a: nat)
    ensures Or(a, 0) == a
  {
    if a != 0 {
      OrZero(a / 2);
    }
  }

  lemma {:induction false} Pow2Sum(i: nat, j: nat)
    ensures Pow2(i + j) == Pow2(i) * Pow2(j)
  {
    if i != 0 {
      Pow2Sum(i - 1, j);
      assert 2 * Pow2(i - 1) * Pow2(j) == 2 * (Pow2(i - 1) * Pow2(j));
    }
  }

  lemma {:induction false} Pow2Grows(i: nat, j: nat)
    requires i <= j
    ensures Pow2(i) <= Pow2(j)
  {
    if i < j {
      Pow2Grows(i, j - 1);
    }
  }

  lemma Pow2Less(i: nat, j: nat)
    requires Pow2(i) < Pow2(j)
    ensures i < j
  {
    if j <= i {
      Pow2Grows(j, i);
    }
  }

  /** x has m bits, of which the top c are ones. */
  predicate TopOnes(x: nat, m: nat, c: nat) {
    c <= m && Pow2(m) - Pow2(m - c) <= x < Pow2(m)
  }

  function Min(a: nat, b: nat): nat {
    if a <= b then a else b
  }

  /** Shifting by c and joining doubles the run of ones, up to the whole word. */
  lemma Smear(x: nat, m: nat, c: nat)
    requires TopOnes(x, m, c)
    ensures TopOnes(Or(x, Shr(x, c)), m, Min(2 * c, m))
  {
    var j, b := m - c, Shr(x, c);
    ShiftBounds(x, m, c);
    Pow2Sum(c, j);
    Decompose(x, Pow2(c), Pow2(j));
    hide Pow2, Or, Shr;
    var lo := x - (Pow2(m) - Pow2(j));
    OrSplit(Pow2(c) - 1, lo, b, j);
    OrBounds(lo, b, j);
    if m <= 2 * c {
      Pow2Zero();
    }
  }

  lemma Pow2Zero()
    ensures Pow2(0) == 1
  {
  }

  lemma Decompose(x: int, p: int, w: int)
    ensures x == (p - 1) * w + (x - (p * w - w))
  {
  }

  /** What is left of such a word after the shift. */
  lemma ShiftBounds(x: nat, m: nat, c: nat)
    requires TopOnes(x, m, c)
    ensures Shr(x, c) < Pow2(m - c)
    ensures Pow2(m - c) - Pow2(m - Min(2 * c, m)) <= Shr(x, c)
  {
    var j, p := m - c, Pow2(c);
    var d := Pow2(m - Min(2 * c, m));
    Pow2Sum(c, j);
    if 2 * c <= m {
      Pow2Sum(c, m - 2 * c);
    } else {
      Pow2Grows(j, c);
    }
    hide Pow2, Shr;
    Pow2Zero();
    assert Pow2(j) <= p * d by {
      if 2 * c <= m {
        assert c + (m - 2 * c) == j;
      }
    }
    var rem := ShrRemainder(x, c);
    QuotientBounds(p, Pow2(j), d, x, Shr(x, c), rem);
  }

  lemma QuotientBounds(p: nat, w: nat, d: nat, x: nat, q: nat, rem: nat)
    requires x == p * q + rem && rem < p && p * w - w <= x < p * w && w <= p * d
    ensures w - d <= q < w
  {
    assert p * (q + 1) == p * q + p && p * (w - d) == p * w - p * d;
    LessFactor(p, q, w);
    LessFactor(p, w - d, q + 1);
  }

  /** The step with shift s, whatever the length of the word. */
  lemma SmearStep(x: nat, m: nat, s: nat)
    requires TopOnes(x, m, Min(s, m))
    ensures TopOnes(Or(x, Shr(x, s)), m, Min(2 * s, m))
  {
    if s <= m {
      Smear(x, m, s);
    } else {
      Shrinks(x, s);
      hide Shr, Or, Pow2;
      OrBounds(x, Shr(x, s), m);
    }
  }

  lemma Shrinks(x: nat, c: nat)
    ensures Shr(x, c) <= x
  {
    var rem := ShrRemainder(x, c);
    hide Shr, Pow2;
    Monotone(Shr(x, c), 1, Pow2(c));
  }

  /** Every word other than 0 has a topmost bit. */
  lemma {:induction false} TopBit(x: nat) returns (m: nat)
    requires 0 < x
    ensures 0 < m && TopOnes(x, m, 1)
  {
    if x == 1 {
      m := 1;
      assert Pow2(1) == 2 && Pow2(0) == 1;
    } else {
      m := TopBit(x / 2);
      m := m + 1;
    }
  }

  lemma WordBits(x: nat, m: nat)
    requires 0 < m && TopOnes(x, m, 1) && x < WORD_LIMIT
    ensures m <= 32
  {
    if 33 <= m {
      Pow2Grows(32, m - 1);
      Pow2Of32();
    }
  }

  lemma Pow2Of32()
    ensures Pow2(32) == WORD_LIMIT
  {
    assert Pow2(8) == 256;
    Pow2Sum(8, 8);
    Pow2Sum(16, 16);
  }

  /** r is the least power of two strictly above x. */
  ghost predicate NextPower(x: nat, r: nat) {
    exists m: nat :: r == Pow2(m) && x < r && (0 < m ==> Pow2(m - 1) <= x)
  }

  /** One more binary digit than x has. */
  function PowerAbove(x: nat): (r: nat)
    ensures x < r
  {
    if x == 0 then 1 else 2 * PowerAbove(x / 2)
  }

  lemma {:induction false} PowerAboveIs(x: nat, m: nat)
    requires if x == 0 then m == 0 else 0 < m && TopOnes(x, m, 1)
    ensures PowerAbove(x) == Pow2(m)
  {
    if 1 < x {
      assert 1 < m;
      PowerAboveIs(x / 2, m - 1);
    } else if x == 1 {
      Pow2Less(m - 1, 1);
    }
  }

  /** The least power of two above x, by smearing its top bit; 0 when that does not fit the word. */
  method NextPowerOfTwo(x0: u32) returns (r: u32)
    ensures x0 < WORD_LIMIT / 2 ==> r == PowerAbove(x0) && NextPower(x0, r)
    ensures WORD_LIMIT / 2 <= x0 ==> r == 0
  {
    hide Pow2, Or, Shr, NextPower;
    var x: nat := x0;
    x := Or(x, Shr(x, 1));
    x := Or(x, Shr(x, 2));
    x := Or(x, Shr(x, 4));
    x := Or(x, Shr(x, 8));
    x := Or(x, Shr(x, 16));
    ghost var m := AllSmeared(x0);
    r := (x + 1) % WORD_LIMIT;
  }

  ghost function Joined(x: nat, s: nat): nat {
    Or(x, Shr(x, s))
  }

  lemma AllSmeared(x: u32) returns (m: nat)
    ensures Joined(Joined(Joined(Joined(Joined(x, 1), 2), 4), 8), 16) == Pow2(m) - 1
    ensures PowerAbove(x) == Pow2(m) && NextPower(x, Pow2(m))
    ensures x < WORD_LIMIT / 2 ==> Pow2(m) < WORD_LIMIT
    ensures WORD_LIMIT / 2 <= x ==> Pow2(m) == WORD_LIMIT
  {
    m := 0;
    if x != 0 {
      m := TopBit(x);
      WordBits(x, m);
    }
    WordResult(x, m);
    PowerAboveIs(x, m);
    hide PowerAbove, Pow2, Or, Shr, NextPower;
    Pow2Zero();
    SmearAll(x, m);
  }

  lemma SmearAll(x: nat, m: nat)
    requires m <= 32 && TopOnes(x, m, Min(1, m))
    ensures Joined(Joined(Joined(Joined(Joined(x, 1), 2), 4), 8), 16) == Pow2(m) - 1
  {
    hide Pow2, Or, Shr;
    Pow2Zero();
    SmearStep(x, m, 1);
    var x1 := Joined(x, 1);
    SmearStep(x1, m, 2);
    var x2 := Joined(x1, 2);
    SmearStep(x2, m, 4);
    var x3 := Joined(x2, 4);
    SmearStep(x3, m, 8);
    var x4 := Joined(x3, 8);
    SmearStep(x4, m, 16);
  }

  lemma WordResult(x: u32, m: nat)
    requires m <= 32 && if x == 0 then m == 0 else 0 < m && TopOnes(x, m, 1)
    ensures NextPower(x, Pow2(m))
    ensures x < WORD_LIMIT / 2 ==> Pow2(m) < WORD_LIMIT
    ensures WORD_LIMIT / 2 <= x ==> Pow2(m) == WORD_LIMIT
  {
    Pow2Of32();
    if m < 32 {
      Pow2Grows(m, 31);
      assert Pow2(32) == 2 * Pow2(31);
    }
  }

  // ---- rounding

  /** The mask that clears the low m bits of a word of w bits. */
  lemma {:induction false} AndMask(x: nat, w: nat, m: nat)
    requires m <= w && x < Pow2(w) && Pow2(m) <= Pow2(w)
    ensures And(x, Pow2(w) - Pow2(m)) == x - x % Pow2(m)
    decreases w
  {
    Pow2Grows(m, w);
    if m == 0 {
      AndOnes(x, w);
    } else {
      assert Pow2(w) == 2 * Pow2(w - 1) && Pow2(m) == 2 * Pow2(m - 1);
      hide And, Pow2;
      Pow2Grows(m - 1, w - 1);
      AndMask(x / 2, w - 1, m - 1);
      MaskStep(x, Pow2(w - 1), Pow2(m - 1));
    }
  }

  lemma MaskStep(x: nat, q: nat, p: nat)
    requires 0 < p <= q && And(x / 2, q - p) == x / 2 - x / 2 % p
    ensures And(x, 2 * q - 2 * p) == x - x % (2 * p)
  {
    hide And;
    var y := q - p;
    AndEven(x, y);
    MaskHalf(x, p, And(x / 2, y));
  }

  lemma AndEven(x: nat, y: nat)
    ensures And(x, 2 * y) == 2 * And(x / 2, y)
  {
  }

  lemma {:induction false} AndOnes(x: nat, w: nat)
    requires x < Pow2(w)
    ensures And(x, Pow2(w) - 1) == x
  {
    if w != 0 {
      AndOnes(x / 2, w - 1);
    }
  }

  lemma MaskHalf(x: nat, p: nat, half: nat)
    requires 0 < p && half == x / 2 - x / 2 % p
    ensures 2 * half == x - x % (2 * p)
  {
    HalfMod(x, p);
  }

  lemma HalfMod(x: nat, p: nat)
    requires 0 < p
    ensures x % (2 * p) == 2 * (x / 2 % p) + x % 2
  {
    var q, r := x / 2 / p, x / 2 % p;
    DivMod(x / 2, p);
    assert x == (2 * p) * q + (2 * r + x % 2);
    ModUnique(x, 2 * p, q, 2 * r + x % 2);
  }

  lemma ModUnique(x: nat, p: nat, q: nat, r: nat)
    requires 0 < p && x == p * q + r && r < p
    ensures x % p == r
  {
    DivMod(x, p);
    var d := q - x / p;
    assert p * d == x % p - r;
    if 0 < d {
      Monotone(p, 1, d);
    } else if d < 0 {
      Monotone(p, d, -1);
    }
  }

  // ---- the growth rule of the file

  /** The next size of a file of n blocks. */
  function GrownSize(n: nat): nat {
    RoundDown(n + PowerAbove(n / 8), PowerAbove(n / 8))
  }

  function RoundDown(x: nat, step: nat): (r: nat)
    requires 0 < step
    ensures r <= x
  {
    DivMod(x, step);
    x - x % step
  }

  /** It is a multiple of step, the least power of two above n / 8, strictly above n and at most n + step. */
  lemma GrownSizeIs(n: nat)
    ensures var step := PowerAbove(n / 8);
            && n < GrownSize(n) <= n + step
            && GrownSize(n) % step == 0
            && NextPower(n / 8, step)
  {
    var x := n / 8;
    var step, m := PowerAbove(x), 0;
    if x != 0 {
      m := TopBit(x);
    }
    PowerAboveIs(x, m);
    PowerIsNext(x, m);
    hide NextPower, PowerAbove, Pow2;
    RoundFacts(n + step, step);
  }

  lemma RoundFacts(x: nat, step: nat)
    requires 0 < step
    ensures x < RoundDown(x, step) + step && RoundDown(x, step) % step == 0
  {
    DivMod(x, step);
    ModUnique(x - x % step, step, x / step, 0);
  }

  lemma PowerIsNext(x: nat, m: nat)
    requires if x == 0 then m == 0 else 0 < m && TopOnes(x, m, 1)
    ensures NextPower(x, Pow2(m))
  {
  }

  /** The block count from which adding the step wraps around. */
  const GROW_LIMIT: nat := 0xE000_0000

  /**
   Clearing the low bits of n + step by a mask gives that size; from 0xE000_0000 blocks on the sum wraps to size 0.
   */
  method NextSize(n: u32) returns (size: u32)
    ensures size == if n < GROW_LIMIT then GrownSize(n) else 0
    ensures n < size <==> n < GROW_LIMIT
  {
    hide And, NextPower, PowerAbove, RoundDown;
    var step := NextPowerOfTwo(n / 8);
    GrownSizeIs(n);
    StepFits(n, step);
    MaskIsRound((n + step) % WORD_LIMIT, n / 8, step);
    size := And((n + step) % WORD_LIMIT, WORD_LIMIT - step);
  }

  /** The step is at most 2^29, and exactly that where the sum wraps around. */
  lemma StepFits(n: u32, step: nat)
    requires step == PowerAbove(n / 8) && NextPower(n / 8, step)
    ensures step <= 0x2000_0000
    ensures GROW_LIMIT <= n ==> step == 0x2000_0000 && RoundDown(n + step - WORD_LIMIT, step) == 0
  {
    var m: nat :| step == Pow2(m) && n / 8 < step && (0 < m ==> Pow2(m - 1) <= n / 8);
    Pow2Of28();
    if 0 < m {
      Pow2Less(m - 1, 29);
    }
    Pow2Grows(m, 29);
    if GROW_LIMIT <= n {
      Pow2Less(28, m);
    }
  }

  lemma MaskIsRound(y: u32, x: nat, step: nat)
    requires NextPower(x, step) && step <= 0x2000_0000
    ensures And(y, WORD_LIMIT - step) == RoundDown(y, step)
  {
    var m: nat :| step == Pow2(m) && x < step && (0 < m ==> Pow2(m - 1) <= x);
    Pow2Of32();
    Pow2Of28();
    if 30 <= m {
      Pow2Grows(30, m);
    }
    hide And, Pow2;
    Pow2Grows(m, 32);
    AndMask(y, 32, m);
  }

  lemma Pow2Of28()
    ensures Pow2(28) == 0x1000_0000
  {
    assert Pow2(14) == 0x4000;
    Pow2Sum(14, 14);
  }
}
