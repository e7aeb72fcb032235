/**
 The prime capacities of the hash table: Euclid's lemma, trial division, and that every listed capacity is prime.
 */
module Primes {
  import opened Arithmetic

  // ---- primes

  ghost predicate Prime(p: nat) {
    1 < p && forall d :: 1 < d < p ==> p % d != 0
  }

  /** Euclid's lemma, by the Euclidean algorithm on p and a: if p divides a * b and 0 < a < p, it divides b. */
  lemma {:induction false} Euclid(p: nat, a: nat, b: int, c: int) returns (d: int)
    requires Prime(p) && 0 < a < p && a * b == p * c
    ensures b == p * d
    decreases a
  {
    if a == 1 {
      return c;
    }
    var q, r := p / a, p % a;
    RemainderTimes(p, a, b, c, q, r);
    d := Euclid(p, r, b, b - q * c);
  }

  lemma RemainderTimes(p: int, a: int, b: int, c: int, q: int, r: int)
    requires a * b == p * c && p == q * a + r
    ensures r * b == p * (b - q * c)
  {
    assert p * b == q * (a * b) + r * b;
  }

  lemma MultipleMod(y: nat, z: nat)
    requires 0 < y
    ensures (y * z) % y == 0
  {
    var a := y * z;
    var q, r := a / y, a % y;
    assert a == y * q + r;
    SmallMultiple(y, z, q, r);
  }

  lemma SmallMultiple(y: int, z: int, q: int, r: int)
    requires y * z == y * q + r && 0 <= r < y
    ensures r == 0
  {
    assert r == y * (z - q);
    if 0 < z - q {
      TimesAtLeast(y, z - q);
    } else if z - q < 0 {
      TimesAtLeast(y, q - z);
    }
  }

  lemma TimesAtLeast(y: int, k: int)
    requires 0 < y && 0 < k
    ensures y <= y * k
  {
  }

  /** No odd number from d to e divides p. */
  ghost predicate Tried(p: nat, d: nat, e: nat) {
    forall x :: d <= x < e && x % 2 == 1 && 0 < x ==> p % x != 0
  }

  /** The trial divisions, sixteen at a time; d is even. */
  predicate NoOddDivisor(p: nat, d: nat, e: nat)
    decreases e - d
  {
    e <= d ||
    (&& p % (d + 1) != 0 && p % (d + 3) != 0 && p % (d + 5) != 0 && p % (d + 7) != 0
     && p % (d + 9) != 0 && p % (d + 11) != 0 && p % (d + 13) != 0 && p % (d + 15) != 0
     && p % (d + 17) != 0 && p % (d + 19) != 0 && p % (d + 21) != 0 && p % (d + 23) != 0
     && p % (d + 25) != 0 && p % (d + 27) != 0 && p % (d + 29) != 0 && p % (d + 31) != 0
     && NoOddDivisor(p, d + 32, e))
  }

  lemma {:induction false} NoOddDivisorMeans(p: nat, d: nat, e: nat, x: nat)
    requires NoOddDivisor(p, d, e) && d <= x < e && d % 2 == 0 && x % 2 == 1
    ensures p % x != 0
    decreases e - d
  {
    if d + 32 <= x {
      NoOddDivisorMeans(p, d + 32, e, x);
    } else {
      assert x == d + 1 || x == d + 3 || x == d + 5 || x == d + 7 || x == d + 9 || x == d + 11 || x == d + 13
        || x == d + 15 || x == d + 17 || x == d + 19 || x == d + 21 || x == d + 23 || x == d + 25 || x == d + 27
        || x == d + 29 || x == d + 31;
    }
  }

  lemma TrialMeans(p: nat, d: nat, e: nat)
    requires d % 2 == 0
    ensures NoOddDivisor(p, d, e) ==> Tried(p, d, e)
  {
    hide NoOddDivisor;
    if NoOddDivisor(p, d, e) {
      forall x | d <= x < e && x % 2 == 1 && 0 < x
        ensures p % x != 0
      {
        NoOddDivisorMeans(p, d, e, x);
      }
    }
  }

  /** An odd number with no odd divisor up to its square root is prime. */
  lemma PrimeByTrial(p: nat, e: nat)
    requires 1 < p < e * e && p % 2 == 1 && Tried(p, 2, e)
    ensures Prime(p)
  {
    forall d | 1 < d < p
      ensures p % d != 0
    {
      if d < e {
        NoSmallDivisor(p, e, d);
      } else if p % d == 0 {
        SmallCoDivisor(p, e, d);
        NoSmallDivisor(p, e, p / d);
      }
    }
  }

  lemma NoSmallDivisor(p: nat, e: nat, y: nat)
    requires 1 < y < e && p % 2 == 1 && Tried(p, 2, e)
    ensures p % y != 0
  {
    if y % 2 == 0 && p % y == 0 {
      EvenDivisor(p, y);
    }
  }

  lemma EvenDivisor(p: nat, y: nat)
    requires 0 < y && y % 2 == 0 && p % y == 0
    ensures p % 2 == 0
  {
    EvenProduct(y / 2, p / y);
    assert p == y * (p / y) && y == 2 * (y / 2);
  }

  lemma EvenProduct(h: int, z: int)
    ensures (2 * h) * z % 2 == 0
  {
    assert (2 * h) * z == 2 * (h * z);
  }

  /** The cofactor of a large divisor is a small divisor. */
  lemma SmallCoDivisor(p: nat, e: nat, d: nat)
    requires 1 < p < e * e && e <= d < p && 0 < d && p % d == 0
    ensures 1 < p / d < e && p % (p / d) == 0
  {
    var x := p / d;
    assert p == d * x;
    LessFactor(d, 1, x);
    MultipleMod(x, d);
    if e <= x {
      ProductGrows(e, d, x);
    }
  }

  lemma ProductGrows(e: nat, d: nat, x: nat)
    requires e <= d && e <= x
    ensures e * e <= d * x
  {
  }

  // ---- the capacities in use

  const HASH_SIZES: seq<nat> := [
    3, 7, 13, 23, 41, 71, 127, 223, 373, 631, 1061, 1777, 1801, 3011, 5021, 8369, 13963, 23279, 38803, 64679,
    107827, 179717, 299539, 499253, 832103, 1386839, 2311409, 3852361, 6420683
  ]

  lemma TinySizesPrime(p: nat)
    requires p in {3, 7, 13, 23}
    ensures Prime(p)
  {
    forall d | 1 < d < p
      ensures p % d != 0
    {
      assert d == 2 || d == 3 || d == 4 || d == 5 || d == 6 || d == 7 || d == 8 || d == 9 || d == 10 || d == 11
        || d == 12 || d == 13 || d == 14 || d == 15 || d == 16 || d == 17 || d == 18 || d == 19 || d == 20 || d == 21
        || d == 22;
    }
  }

  lemma SmallSizesPrime(p: nat)
    requires p in {41, 71, 127, 223}
    ensures Prime(p)
  {
    hide Prime, Tried;
    if p == 41 {
      TrialMeans(41, 2, 7);
      PrimeByTrial(41, 7);
    } else if p == 71 {
      TrialMeans(71, 2, 9);
      PrimeByTrial(71, 9);
    } else if p == 127 {
      TrialMeans(127, 2, 12);
      PrimeByTrial(127, 12);
    } else if p == 223 {
      TrialMeans(223, 2, 15);
      PrimeByTrial(223, 15);
    }
  }

  lemma MiddleSizesPrime(p: nat)
    requires p in {373, 631, 1061}
    ensures Prime(p)
  {
    hide Prime, Tried;
    if p == 373 {
      TrialMeans(373, 2, 20);
      PrimeByTrial(373, 20);
    } else if p == 631 {
      TrialMeans(631, 2, 26);
      PrimeByTrial(631, 26);
    } else if p == 1061 {
      TrialMeans(1061, 2, 33);
      PrimeByTrial(1061, 33);
    }
  }

  lemma LargerSizesPrime(p: nat)
    requires p in {1777, 1801, 3011}
    ensures Prime(p)
  {
    hide Prime, Tried;
    if p == 1777 {
      TrialMeans(1777, 2, 43);
      PrimeByTrial(1777, 43);
    } else if p == 1801 {
      TrialMeans(1801, 2, 43);
      PrimeByTrial(1801, 43);
    } else if p == 3011 {
      TrialMeans(3011, 2, 55);
      PrimeByTrial(3011, 55);
    }
  }

  lemma LargeSizesPrime(p: nat)
    requires p in {5021, 8369}
    ensures Prime(p)
  {
    hide Prime, Tried;
    if p == 5021 {
      TrialMeans(5021, 2, 71);
      PrimeByTrial(5021, 71);
    } else if p == 8369 {
      TrialMeans(8369, 2, 92);
      PrimeByTrial(8369, 92);
    }
  }

  lemma Prime13963()
    ensures Prime(13963)
  {
    hide Prime, Tried;
    TrialMeans(13963, 2, 119);
    PrimeByTrial(13963, 119);
  }

  lemma Prime23279()
    ensures Prime(23279)
  {
    hide Prime, Tried;
    TrialMeans(23279, 2, 153);
    PrimeByTrial(23279, 153);
  }

  lemma Prime38803()
    ensures Prime(38803)
  {
    hide Prime, Tried;
    TrialMeans(38803, 2, 197);
    PrimeByTrial(38803, 197);
  }

  lemma Prime64679()
    ensures Prime(64679)
  {
    hide Prime, Tried;
    TrialMeans(64679, 2, 255);
    PrimeByTrial(64679, 255);
  }

  lemma Prime107827()
    ensures Prime(107827)
  {
    hide Prime, Tried;
    TrialMeans(107827, 2, 329);
    PrimeByTrial(107827, 329);
  }

  lemma Trial179717From2()
    ensures Tried(179717, 2, 226)
  {
    hide Tried;
    TrialMeans(179717, 2, 226);
  }

  lemma Trial179717From226()
    ensures Tried(179717, 226, 424)
  {
    hide Tried;
    TrialMeans(179717, 226, 424);
  }

  lemma Prime179717()
    ensures Prime(179717)
  {
    hide Prime;
    Trial179717From2();
    Trial179717From226();
    PrimeByTrial(179717, 424);
  }

  lemma Trial299539From2()
    ensures Tried(299539, 2, 290)
  {
    hide Tried;
    TrialMeans(299539, 2, 290);
  }

  lemma Trial299539From290()
    ensures Tried(299539, 290, 548)
  {
    hide Tried;
    TrialMeans(299539, 290, 548);
  }

  lemma Prime299539()
    ensures Prime(299539)
  {
    hide Prime;
    Trial299539From2();
    Trial299539From290();
    PrimeByTrial(299539, 548);
  }

  lemma Trial499253From2()
    ensures Tried(499253, 2, 238)
  {
    hide Tried;
    TrialMeans(499253, 2, 238);
  }

  lemma Trial499253From238()
    ensures Tried(499253, 238, 474)
  {
    hide Tried;
    TrialMeans(499253, 238, 474);
  }

  lemma Trial499253From474()
    ensures Tried(499253, 474, 707)
  {
    hide Tried;
    TrialMeans(499253, 474, 707);
  }

  lemma Prime499253()
    ensures Prime(499253)
  {
    hide Prime;
    Trial499253From2();
    Trial499253From238();
    Trial499253From474();
    PrimeByTrial(499253, 707);
  }

  lemma Trial832103From2()
    ensures Tried(832103, 2, 322)
  {
    hide Tried;
    TrialMeans(832103, 2, 322);
  }

  lemma Trial832103From322()
    ensures Tried(832103, 322, 642)
  {
    hide Tried;
    TrialMeans(832103, 322, 642);
  }

  lemma Trial832103From642()
    ensures Tried(832103, 642, 913)
  {
    hide Tried;
    TrialMeans(832103, 642, 913);
  }

  lemma Prime832103()
    ensures Prime(832103)
  {
    hide Prime;
    Trial832103From2();
    Trial832103From322();
    Trial832103From642();
    PrimeByTrial(832103, 913);
  }

  lemma Trial1386839From2()
    ensures Tried(1386839, 2, 322)
  {
    hide Tried;
    TrialMeans(1386839, 2, 322);
  }

  lemma Trial1386839From322()
    ensures Tried(1386839, 322, 642)
  {
    hide Tried;
    TrialMeans(1386839, 322, 642);
  }

  lemma Trial1386839From642()
    ensures Tried(1386839, 642, 962)
  {
    hide Tried;
    TrialMeans(1386839, 642, 962);
  }

  lemma Trial1386839From962()
    ensures Tried(1386839, 962, 1178)
  {
    hide Tried;
    TrialMeans(1386839, 962, 1178);
  }

  lemma Prime1386839()
    ensures Prime(1386839)
  {
    hide Prime;
    Trial1386839From2();
    Trial1386839From322();
    Trial1386839From642();
    Trial1386839From962();
    PrimeByTrial(1386839, 1178);
  }

  lemma Trial2311409From2()
    ensures Tried(2311409, 2, 386)
  {
    hide Tried;
    TrialMeans(2311409, 2, 386);
  }

  lemma Trial2311409From386()
    ensures Tried(2311409, 386, 770)
  {
    hide Tried;
    TrialMeans(2311409, 386, 770);
  }

  lemma Trial2311409From770()
    ensures Tried(2311409, 770, 1154)
  {
    hide Tried;
    TrialMeans(2311409, 770, 1154);
  }

  lemma Trial2311409From1154()
    ensures Tried(2311409, 1154, 1521)
  {
    hide Tried;
    TrialMeans(2311409, 1154, 1521);
  }

  lemma Prime2311409()
    ensures Prime(2311409)
  {
    hide Prime;
    Trial2311409From2();
    Trial2311409From386();
    Trial2311409From770();
    Trial2311409From1154();
    PrimeByTrial(2311409, 1521);
  }

  lemma Trial3852361From2()
    ensures Tried(3852361, 2, 354)
  {
    hide Tried;
    TrialMeans(3852361, 2, 354);
  }

  lemma Trial3852361From354()
    ensures Tried(3852361, 354, 706)
  {
    hide Tried;
    TrialMeans(3852361, 354, 706);
  }

  lemma Trial3852361From706()
    ensures Tried(3852361, 706, 1058)
  {
    hide Tried;
    TrialMeans(3852361, 706, 1058);
  }

  lemma Trial3852361From1058()
    ensures Tried(3852361, 1058, 1410)
  {
    hide Tried;
    TrialMeans(3852361, 1058, 1410);
  }

  lemma Trial3852361From1410()
    ensures Tried(3852361, 1410, 1762)
  {
    hide Tried;
    TrialMeans(3852361, 1410, 1762);
  }

  lemma Trial3852361From1762()
    ensures Tried(3852361, 1762, 1963)
  {
    hide Tried;
    TrialMeans(3852361, 1762, 1963);
  }

  lemma Prime3852361()
    ensures Prime(3852361)
  {
    hide Prime;
    Trial3852361From2();
    Trial3852361From354();
    Trial3852361From706();
    Trial3852361From1058();
    Trial3852361From1410();
    Trial3852361From1762();
    PrimeByTrial(3852361, 1963);
  }

  lemma Trial6420683From2()
    ensures Tried(6420683, 2, 386)
  {
    hide Tried;
    TrialMeans(6420683, 2, 386);
  }

  lemma Trial6420683From386()
    ensures Tried(6420683, 386, 770)
  {
    hide Tried;
    TrialMeans(6420683, 386, 770);
  }

  lemma Trial6420683From770()
    ensures Tried(6420683, 770, 1154)
  {
    hide Tried;
    TrialMeans(6420683, 770, 1154);
  }

  lemma Trial6420683From1154()
    ensures Tried(6420683, 1154, 1538)
  {
    hide Tried;
    TrialMeans(6420683, 1154, 1538);
  }

  lemma Trial6420683From1538()
    ensures Tried(6420683, 1538, 1922)
  {
    hide Tried;
    TrialMeans(6420683, 1538, 1922);
  }

  lemma Trial6420683From1922()
    ensures Tried(6420683, 1922, 2306)
  {
    hide Tried;
    TrialMeans(6420683, 1922, 2306);
  }

  lemma Trial6420683From2306()
    ensures Tried(6420683, 2306, 2534)
  {
    hide Tried;
    TrialMeans(6420683, 2306, 2534);
  }

  lemma Prime6420683()
    ensures Prime(6420683)
  {
    hide Prime;
    Trial6420683From2();
    Trial6420683From386();
    Trial6420683From770();
    Trial6420683From1154();
    Trial6420683From1538();
    Trial6420683From1922();
    Trial6420683From2306();
    PrimeByTrial(6420683, 2534);
  }

  lemma LargestSizesPrime(p: nat)
    requires p in {13963, 23279, 38803, 64679, 107827, 179717,
                   299539, 499253, 832103, 1386839, 2311409, 3852361, 6420683}
    ensures Prime(p)
  {
    hide Prime;
    Prime13963();
    Prime23279();
    Prime38803();
    Prime64679();
    Prime107827();
    Prime179717();
    Prime299539();
    Prime499253();
    Prime832103();
    Prime1386839();
    Prime2311409();
    Prime3852361();
    Prime6420683();
  }

  lemma OddPrime(p: nat)
    requires Prime(p) && 2 < p
    ensures p % 2 == 1
  {
    assert p % 2 != 0;
  }

  lemma SizesByGroup(p: nat)
    requires p in HASH_SIZES
    ensures p in {3, 7, 13, 23} || p in {41, 71, 127, 223} || p in {373, 631, 1061} || p in {1777, 1801, 3011}
         || p in {5021, 8369}
         || p in {13963, 23279, 38803, 64679, 107827, 179717,
                  299539, 499253, 832103, 1386839, 2311409, 3852361, 6420683}
  {
  }

  /** All listed capacities are odd primes. */
  lemma SizesArePrime(p: nat)
    requires p in HASH_SIZES
    ensures Prime(p) && p % 2 == 1
  {
    hide Prime, HASH_SIZES;
    SizesByGroup(p);
    if p in {3, 7, 13, 23} {
      TinySizesPrime(p);
    } else if p in {41, 71, 127, 223} {
      SmallSizesPrime(p);
    } else if p in {373, 631, 1061} {
      MiddleSizesPrime(p);
    } else if p in {1777, 1801, 3011} {
      LargerSizesPrime(p);
    } else if p in {5021, 8369} {
      LargeSizesPrime(p);
    } else {
      LargestSizesPrime(p);
    }
    OddPrime(p);
  }
}
