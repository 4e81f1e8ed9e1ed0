/**
 What the numbers and bit functions of SHA-512 are: sections 4.1.3, 4.2.3 and 5.3.5 of FIPS 180-4, against
 crates/webgate-core/src/ed25519.rs:13-60 and 155-209.
 */
module Sha512Constants {
  import opened Words
  import opened Arith
  import opened Sha512Block

  // ---------------------------------------------------------------- bit by bit

  /** Whatever bits a mask picks: where x has ones there, Ch has the bits of y, and where x has zeros, those of z. */
  lemma ChSelects(x: bv64, y: bv64, z: bv64, mask: bv64)
    ensures x & mask == mask ==> Ch(x, y, z) & mask == y & mask
    ensures x & mask == 0 ==> Ch(x, y, z) & mask == z & mask
  {
  }

  /** Where two of the three agree, Maj agrees with them: the first two, and it takes all three alike. */
  lemma MajMajority(x: bv64, y: bv64, z: bv64, mask: bv64)
    requires x & mask == y & mask
    ensures Maj(x, y, z) & mask == x & mask
  {
  }

  lemma MajAlike(x: bv64, y: bv64, z: bv64)
    ensures Maj(x, y, z) == Maj(y, z, x) == Maj(z, x, y)
  {
  }

  // ---------------------------------------------------------------- the first primes

  ghost predicate Prime(n: nat) {
    n > 1 && forall d :: 2 <= d < n ==> n % d != 0
  }

  ghost function PrimesBelow(n: nat): nat {
    if n == 0 then 0 else PrimesBelow(n - 1) + if Prime(n - 1) then 1 else 0
  }

  /** q is prime, with t primes below it. */
  ghost predicate NthPrime(q: nat, t: nat) {
    Prime(q) && PrimesBelow(q) == t
  }

  /** No prime of at most 19 divides n, or n is that prime. */
  predicate Trial(n: nat) {
    && n > 1
    && (n == 2 || n % 2 != 0)
    && (n == 3 || n % 3 != 0)
    && (n == 5 || n % 5 != 0)
    && (n == 7 || n % 7 != 0)
    && (n == 11 || n % 11 != 0)
    && (n == 13 || n % 13 != 0)
    && (n == 17 || n % 17 != 0)
    && (n == 19 || n % 19 != 0)
  }

  lemma PrimePasses(n: nat)
    requires Prime(n)
    ensures Trial(n)
  {
    NotDivided(n, 2);
    NotDivided(n, 3);
    NotDivided(n, 5);
    NotDivided(n, 7);
    NotDivided(n, 11);
    NotDivided(n, 13);
    NotDivided(n, 17);
    NotDivided(n, 19);
  }

  lemma NotDivided(n: nat, p: nat)
    requires Prime(n) && p >= 2
    ensures n == p || n % p != 0
  {
    if p > n {
      DivModUnique(n, 0, n, p);
    }
  }

  /** Below 23^2 = 529 what passes is prime. */
  lemma PassesPrime(n: nat)
    requires n < 529 && Trial(n)
    ensures Prime(n)
  {
    hide Trial;
    assert n > 1 by { TrialAboveOne(n); }
    forall d | 2 <= d < n
      ensures n % d != 0
    {
      if n % d == 0 {
        SmallerDivisor(n, d, n / d);
      }
    }
  }

  lemma TrialAboveOne(n: nat)
    requires Trial(n)
    ensures n > 1
  {
  }

  lemma SmallerDivisor(n: nat, d: nat, e: nat)
    requires n < 529 && 2 <= d < n && n == d * e
    ensures !Trial(n)
  {
    hide Trial;
    assert e >= 2;
    if d < 23 {
      SmallDivisor(n, d, e);
    } else {
      assert e < 23 by {
        if e >= 23 {
          MulNonneg(d - 23, e);
          assert false;
        }
      }
      SmallDivisor(n, e, d);
    }
  }

  lemma Multiple(n: nat, p: nat, k: nat, e: nat)
    requires n == p * (k * e) && p >= 2 && k >= 1 && e >= 2
    ensures n % p == 0 && n > p
  {
    MulNonneg(k - 1, e);
    assert k * e >= 2;
    MulNonneg(p, k * e - 2);
    DivModUnique(n, k * e, 0, p);
  }

  /** A divisor below 23 leaves no trial passed but its own. */
  lemma SmallDivisor(n: nat, d: nat, e: nat)
    requires 2 <= d < 23 && e >= 2 && n == d * e
    ensures !Trial(n)
  {
    if d % 2 == 0 {
      assert n == 2 * (d / 2 * e);
      Multiple(n, 2, d / 2, e);
    } else if d % 3 == 0 {
      assert n == 3 * (d / 3 * e);
      Multiple(n, 3, d / 3, e);
    } else if d % 5 == 0 {
      assert n == 5 * (d / 5 * e);
      Multiple(n, 5, d / 5, e);
    } else {
      Multiple(n, d, 1, e);
    }
  }

  /** No number from a up to b passes. */
  predicate NoneFrom(a: nat, b: nat)
    decreases b - a
  {
    a >= b || (!Trial(a) && NoneFrom(a + 1, b))
  }

  lemma {:induction false} SkipComposites(a: nat, b: nat)
    requires a <= b < 529 && NoneFrom(a, b)
    ensures PrimesBelow(b) == PrimesBelow(a)
    decreases b - a
  {
    if a < b {
      if Prime(a) {
        PrimePasses(a);
      }
      SkipComposites(a + 1, b);
    }
  }

  lemma NextPrime(p: nat, a: nat, q: nat, t: nat)
    requires NthPrime(p, t) && p + 1 == a <= q < 529 && Trial(q) && NoneFrom(a, q)
    ensures NthPrime(q, t + 1)
  {
    PassesPrime(q);
    SkipComposites(p + 1, q);
  }

  lemma FirstPrime()
    ensures NthPrime(2, 0)
  {
    assert PrimesBelow(1) == 0;
  }

  lemma Primes0()
    ensures NthPrime(2, 0) && NthPrime(3, 1) && NthPrime(5, 2) && NthPrime(7, 3)
         && NthPrime(11, 4) && NthPrime(13, 5) && NthPrime(17, 6) && NthPrime(19, 7)
  {
    FirstPrime();
    hide PrimesBelow, Prime;
    NextPrime(2, 3, 3, 0);
    NextPrime(3, 4, 5, 1);
    NextPrime(5, 6, 7, 2);
    NextPrime(7, 8, 11, 3);
    NextPrime(11, 12, 13, 4);
    NextPrime(13, 14, 17, 5);
    NextPrime(17, 18, 19, 6);
  }

  lemma Primes8()
    ensures NthPrime(23, 8) && NthPrime(29, 9) && NthPrime(31, 10) && NthPrime(37, 11)
         && NthPrime(41, 12) && NthPrime(43, 13) && NthPrime(47, 14) && NthPrime(53, 15)
  {
    Primes0();
    hide PrimesBelow, Prime;
    NextPrime(19, 20, 23, 7);
    NextPrime(23, 24, 29, 8);
    NextPrime(29, 30, 31, 9);
    NextPrime(31, 32, 37, 10);
    NextPrime(37, 38, 41, 11);
    NextPrime(41, 42, 43, 12);
    NextPrime(43, 44, 47, 13);
    NextPrime(47, 48, 53, 14);
  }

  lemma Primes16()
    ensures NthPrime(59, 16) && NthPrime(61, 17) && NthPrime(67, 18) && NthPrime(71, 19)
         && NthPrime(73, 20) && NthPrime(79, 21) && NthPrime(83, 22) && NthPrime(89, 23)
  {
    Primes8();
    hide PrimesBelow, Prime;
    NextPrime(53, 54, 59, 15);
    NextPrime(59, 60, 61, 16);
    NextPrime(61, 62, 67, 17);
    NextPrime(67, 68, 71, 18);
    NextPrime(71, 72, 73, 19);
    NextPrime(73, 74, 79, 20);
    NextPrime(79, 80, 83, 21);
    NextPrime(83, 84, 89, 22);
  }

  lemma Primes24()
    ensures NthPrime(97, 24) && NthPrime(101, 25) && NthPrime(103, 26) && NthPrime(107, 27)
         && NthPrime(109, 28) && NthPrime(113, 29) && NthPrime(127, 30) && NthPrime(131, 31)
  {
    Primes16();
    hide PrimesBelow, Prime;
    NextPrime(89, 90, 97, 23);
    NextPrime(97, 98, 101, 24);
    NextPrime(101, 102, 103, 25);
    NextPrime(103, 104, 107, 26);
    NextPrime(107, 108, 109, 27);
    NextPrime(109, 110, 113, 28);
    NextPrime(113, 114, 127, 29);
    NextPrime(127, 128, 131, 30);
  }

  lemma Primes32()
    ensures NthPrime(137, 32) && NthPrime(139, 33) && NthPrime(149, 34) && NthPrime(151, 35)
         && NthPrime(157, 36) && NthPrime(163, 37) && NthPrime(167, 38) && NthPrime(173, 39)
  {
    Primes24();
    hide PrimesBelow, Prime;
    NextPrime(131, 132, 137, 31);
    NextPrime(137, 138, 139, 32);
    NextPrime(139, 140, 149, 33);
    NextPrime(149, 150, 151, 34);
    NextPrime(151, 152, 157, 35);
    NextPrime(157, 158, 163, 36);
    NextPrime(163, 164, 167, 37);
    NextPrime(167, 168, 173, 38);
  }

  lemma Primes40()
    ensures NthPrime(179, 40) && NthPrime(181, 41) && NthPrime(191, 42) && NthPrime(193, 43)
         && NthPrime(197, 44) && NthPrime(199, 45) && NthPrime(211, 46) && NthPrime(223, 47)
  {
    Primes32();
    hide PrimesBelow, Prime;
    NextPrime(173, 174, 179, 39);
    NextPrime(179, 180, 181, 40);
    NextPrime(181, 182, 191, 41);
    NextPrime(191, 192, 193, 42);
    NextPrime(193, 194, 197, 43);
    NextPrime(197, 198, 199, 44);
    NextPrime(199, 200, 211, 45);
    NextPrime(211, 212, 223, 46);
  }

  lemma Primes48()
    ensures NthPrime(227, 48) && NthPrime(229, 49) && NthPrime(233, 50) && NthPrime(239, 51)
         && NthPrime(241, 52) && NthPrime(251, 53) && NthPrime(257, 54) && NthPrime(263, 55)
  {
    Primes40();
    hide PrimesBelow, Prime;
    NextPrime(223, 224, 227, 47);
    NextPrime(227, 228, 229, 48);
    NextPrime(229, 230, 233, 49);
    NextPrime(233, 234, 239, 50);
    NextPrime(239, 240, 241, 51);
    NextPrime(241, 242, 251, 52);
    NextPrime(251, 252, 257, 53);
    NextPrime(257, 258, 263, 54);
  }

  lemma Primes56()
    ensures NthPrime(269, 56) && NthPrime(271, 57) && NthPrime(277, 58) && NthPrime(281, 59)
         && NthPrime(283, 60) && NthPrime(293, 61) && NthPrime(307, 62) && NthPrime(311, 63)
  {
    Primes48();
    hide PrimesBelow, Prime;
    NextPrime(263, 264, 269, 55);
    NextPrime(269, 270, 271, 56);
    NextPrime(271, 272, 277, 57);
    NextPrime(277, 278, 281, 58);
    NextPrime(281, 282, 283, 59);
    NextPrime(283, 284, 293, 60);
    NextPrime(293, 294, 307, 61);
    NextPrime(307, 308, 311, 62);
  }

  lemma Primes64()
    ensures NthPrime(313, 64) && NthPrime(317, 65) && NthPrime(331, 66) && NthPrime(337, 67)
         && NthPrime(347, 68) && NthPrime(349, 69) && NthPrime(353, 70) && NthPrime(359, 71)
  {
    Primes56();
    hide PrimesBelow, Prime;
    NextPrime(311, 312, 313, 63);
    NextPrime(313, 314, 317, 64);
    NextPrime(317, 318, 331, 65);
    NextPrime(331, 332, 337, 66);
    NextPrime(337, 338, 347, 67);
    NextPrime(347, 348, 349, 68);
    NextPrime(349, 350, 353, 69);
    NextPrime(353, 354, 359, 70);
  }

  lemma Primes72()
    ensures NthPrime(367, 72) && NthPrime(373, 73) && NthPrime(379, 74) && NthPrime(383, 75)
         && NthPrime(389, 76) && NthPrime(397, 77) && NthPrime(401, 78) && NthPrime(409, 79)
  {
    Primes64();
    hide PrimesBelow, Prime;
    NextPrime(359, 360, 367, 71);
    NextPrime(367, 368, 373, 72);
    NextPrime(373, 374, 379, 73);
    NextPrime(379, 380, 383, 74);
    NextPrime(383, 384, 389, 75);
    NextPrime(389, 390, 397, 76);
    NextPrime(397, 398, 401, 77);
    NextPrime(401, 402, 409, 78);
  }

  // ---------------------------------------------------------------- the constants

  const TWO64: int := 0x1_0000_0000_0000_0000
  const TWO128: int := TWO64 * TWO64
  const TWO192: int := TWO64 * TWO128

  /** n is the cube root of q, in units of 2^-64. */
  predicate CubeRoot(n: nat, q: nat) {
    n * n * n <= q * TWO192 < (n + 1) * (n + 1) * (n + 1)
  }

  predicate SquareRoot(n: nat, q: nat) {
    n * n <= q * TWO128 < (n + 1) * (n + 1)
  }

  /** Round constant t. */
  function Constant(t: nat): bv64
    requires t < 80
  {
    K[t]
  }

  /** It is the fraction of the cube root of the prime with t primes below it. */
  ghost predicate FromCubeRoot(t: nat)
    requires t < 80
  {
    exists q: nat, n: nat {:trigger CubeRoot(n, q)} ::
      NthPrime(q, t) && CubeRoot(n, q) && Constant(t) as int == n % TWO64
  }

  lemma CubeRootFraction(t: nat, q: nat, n: nat)
    requires t < 80 && NthPrime(q, t) && CubeRoot(n, q) && Constant(t) as int == n % TWO64
    ensures FromCubeRoot(t)
  {
    hide Constant, CubeRoot, NthPrime;
  }

  lemma Constants0()
    ensures Constant(0) == 0x428a2f98d728ae22 && Constant(1) == 0x7137449123ef65cd
         && Constant(2) == 0xb5c0fbcfec4d3b2f && Constant(3) == 0xe9b5dba58189dbbc
         && Constant(4) == 0x3956c25bf348b538 && Constant(5) == 0x59f111f1b605d019
         && Constant(6) == 0x923f82a4af194f9b && Constant(7) == 0xab1c5ed5da6d8118
  {
  }

  lemma CubeRoots0()
    ensures FromCubeRoot(0) && FromCubeRoot(1) && FromCubeRoot(2) && FromCubeRoot(3)
         && FromCubeRoot(4) && FromCubeRoot(5) && FromCubeRoot(6) && FromCubeRoot(7)
  {
    hide Constant, NthPrime, FromCubeRoot;
    Constants0();
    Primes0();
    CubeRootFraction(0, 2, 0x1_428a2f98d728ae22);
    CubeRootFraction(1, 3, 0x1_7137449123ef65cd);
    CubeRootFraction(2, 5, 0x1_b5c0fbcfec4d3b2f);
    CubeRootFraction(3, 7, 0x1_e9b5dba58189dbbc);
    CubeRootFraction(4, 11, 0x2_3956c25bf348b538);
    CubeRootFraction(5, 13, 0x2_59f111f1b605d019);
    CubeRootFraction(6, 17, 0x2_923f82a4af194f9b);
    CubeRootFraction(7, 19, 0x2_ab1c5ed5da6d8118);
  }

  lemma Constants8()
    ensures Constant(8) == 0xd807aa98a3030242 && Constant(9) == 0x12835b0145706fbe
         && Constant(10) == 0x243185be4ee4b28c && Constant(11) == 0x550c7dc3d5ffb4e2
         && Constant(12) == 0x72be5d74f27b896f && Constant(13) == 0x80deb1fe3b1696b1
         && Constant(14) == 0x9bdc06a725c71235 && Constant(15) == 0xc19bf174cf692694
  {
  }

  lemma CubeRoots8()
    ensures FromCubeRoot(8) && FromCubeRoot(9) && FromCubeRoot(10) && FromCubeRoot(11)
         && FromCubeRoot(12) && FromCubeRoot(13) && FromCubeRoot(14) && FromCubeRoot(15)
  {
    hide Constant, NthPrime, FromCubeRoot;
    Constants8();
    Primes8();
    CubeRootFraction(8, 23, 0x2_d807aa98a3030242);
    CubeRootFraction(9, 29, 0x3_12835b0145706fbe);
    CubeRootFraction(10, 31, 0x3_243185be4ee4b28c);
    CubeRootFraction(11, 37, 0x3_550c7dc3d5ffb4e2);
    CubeRootFraction(12, 41, 0x3_72be5d74f27b896f);
    CubeRootFraction(13, 43, 0x3_80deb1fe3b1696b1);
    CubeRootFraction(14, 47, 0x3_9bdc06a725c71235);
    CubeRootFraction(15, 53, 0x3_c19bf174cf692694);
  }

  lemma Constants16()
    ensures Constant(16) == 0xe49b69c19ef14ad2 && Constant(17) == 0xefbe4786384f25e3
         && Constant(18) == 0x0fc19dc68b8cd5b5 && Constant(19) == 0x240ca1cc77ac9c65
         && Constant(20) == 0x2de92c6f592b0275 && Constant(21) == 0x4a7484aa6ea6e483
         && Constant(22) == 0x5cb0a9dcbd41fbd4 && Constant(23) == 0x76f988da831153b5
  {
  }

  lemma CubeRoots16()
    ensures FromCubeRoot(16) && FromCubeRoot(17) && FromCubeRoot(18) && FromCubeRoot(19)
         && FromCubeRoot(20) && FromCubeRoot(21) && FromCubeRoot(22) && FromCubeRoot(23)
  {
    hide Constant, NthPrime, FromCubeRoot;
    Constants16();
    Primes16();
    CubeRootFraction(16, 59, 0x3_e49b69c19ef14ad2);
    CubeRootFraction(17, 61, 0x3_efbe4786384f25e3);
    CubeRootFraction(18, 67, 0x4_0fc19dc68b8cd5b5);
    CubeRootFraction(19, 71, 0x4_240ca1cc77ac9c65);
    CubeRootFraction(20, 73, 0x4_2de92c6f592b0275);
    CubeRootFraction(21, 79, 0x4_4a7484aa6ea6e483);
    CubeRootFraction(22, 83, 0x4_5cb0a9dcbd41fbd4);
    CubeRootFraction(23, 89, 0x4_76f988da831153b5);
  }

  lemma Constants24()
    ensures Constant(24) == 0x983e5152ee66dfab && Constant(25) == 0xa831c66d2db43210
         && Constant(26) == 0xb00327c898fb213f && Constant(27) == 0xbf597fc7beef0ee4
         && Constant(28) == 0xc6e00bf33da88fc2 && Constant(29) == 0xd5a79147930aa725
         && Constant(30) == 0x06ca6351e003826f && Constant(31) == 0x142929670a0e6e70
  {
  }

  lemma CubeRoots24()
    ensures FromCubeRoot(24) && FromCubeRoot(25) && FromCubeRoot(26) && FromCubeRoot(27)
         && FromCubeRoot(28) && FromCubeRoot(29) && FromCubeRoot(30) && FromCubeRoot(31)
  {
    hide Constant, NthPrime, FromCubeRoot;
    Constants24();
    Primes24();
    CubeRootFraction(24, 97, 0x4_983e5152ee66dfab);
    CubeRootFraction(25, 101, 0x4_a831c66d2db43210);
    CubeRootFraction(26, 103, 0x4_b00327c898fb213f);
    CubeRootFraction(27, 107, 0x4_bf597fc7beef0ee4);
    CubeRootFraction(28, 109, 0x4_c6e00bf33da88fc2);
    CubeRootFraction(29, 113, 0x4_d5a79147930aa725);
    CubeRootFraction(30, 127, 0x5_06ca6351e003826f);
    CubeRootFraction(31, 131, 0x5_142929670a0e6e70);
  }

  lemma Constants32()
    ensures Constant(32) == 0x27b70a8546d22ffc && Constant(33) == 0x2e1b21385c26c926
         && Constant(34) == 0x4d2c6dfc5ac42aed && Constant(35) == 0x53380d139d95b3df
         && Constant(36) == 0x650a73548baf63de && Constant(37) == 0x766a0abb3c77b2a8
         && Constant(38) == 0x81c2c92e47edaee6 && Constant(39) == 0x92722c851482353b
  {
  }

  lemma CubeRoots32()
    ensures FromCubeRoot(32) && FromCubeRoot(33) && FromCubeRoot(34) && FromCubeRoot(35)
         && FromCubeRoot(36) && FromCubeRoot(37) && FromCubeRoot(38) && FromCubeRoot(39)
  {
    hide Constant, NthPrime, FromCubeRoot;
    Constants32();
    Primes32();
    CubeRootFraction(32, 137, 0x5_27b70a8546d22ffc);
    CubeRootFraction(33, 139, 0x5_2e1b21385c26c926);
    CubeRootFraction(34, 149, 0x5_4d2c6dfc5ac42aed);
    CubeRootFraction(35, 151, 0x5_53380d139d95b3df);
    CubeRootFraction(36, 157, 0x5_650a73548baf63de);
    CubeRootFraction(37, 163, 0x5_766a0abb3c77b2a8);
    CubeRootFraction(38, 167, 0x5_81c2c92e47edaee6);
    CubeRootFraction(39, 173, 0x5_92722c851482353b);
  }

  lemma Constants40()
    ensures Constant(40) == 0xa2bfe8a14cf10364 && Constant(41) == 0xa81a664bbc423001
         && Constant(42) == 0xc24b8b70d0f89791 && Constant(43) == 0xc76c51a30654be30
         && Constant(44) == 0xd192e819d6ef5218 && Constant(45) == 0xd69906245565a910
         && Constant(46) == 0xf40e35855771202a && Constant(47) == 0x106aa07032bbd1b8
  {
  }

  lemma CubeRoots40()
    ensures FromCubeRoot(40) && FromCubeRoot(41) && FromCubeRoot(42) && FromCubeRoot(43)
         && FromCubeRoot(44) && FromCubeRoot(45) && FromCubeRoot(46) && FromCubeRoot(47)
  {
    hide Constant, NthPrime, FromCubeRoot;
    Constants40();
    Primes40();
    CubeRootFraction(40, 179, 0x5_a2bfe8a14cf10364);
    CubeRootFraction(41, 181, 0x5_a81a664bbc423001);
    CubeRootFraction(42, 191, 0x5_c24b8b70d0f89791);
    CubeRootFraction(43, 193, 0x5_c76c51a30654be30);
    CubeRootFraction(44, 197, 0x5_d192e819d6ef5218);
    CubeRootFraction(45, 199, 0x5_d69906245565a910);
    CubeRootFraction(46, 211, 0x5_f40e35855771202a);
    CubeRootFraction(47, 223, 0x6_106aa07032bbd1b8);
  }

  lemma Constants48()
    ensures Constant(48) == 0x19a4c116b8d2d0c8 && Constant(49) == 0x1e376c085141ab53
         && Constant(50) == 0x2748774cdf8eeb99 && Constant(51) == 0x34b0bcb5e19b48a8
         && Constant(52) == 0x391c0cb3c5c95a63 && Constant(53) == 0x4ed8aa4ae3418acb
         && Constant(54) == 0x5b9cca4f7763e373 && Constant(55) == 0x682e6ff3d6b2b8a3
  {
  }

  lemma CubeRoots48()
    ensures FromCubeRoot(48) && FromCubeRoot(49) && FromCubeRoot(50) && FromCubeRoot(51)
         && FromCubeRoot(52) && FromCubeRoot(53) && FromCubeRoot(54) && FromCubeRoot(55)
  {
    hide Constant, NthPrime, FromCubeRoot;
    Constants48();
    Primes48();
    CubeRootFraction(48, 227, 0x6_19a4c116b8d2d0c8);
    CubeRootFraction(49, 229, 0x6_1e376c085141ab53);
    CubeRootFraction(50, 233, 0x6_2748774cdf8eeb99);
    CubeRootFraction(51, 239, 0x6_34b0bcb5e19b48a8);
    CubeRootFraction(52, 241, 0x6_391c0cb3c5c95a63);
    CubeRootFraction(53, 251, 0x6_4ed8aa4ae3418acb);
    CubeRootFraction(54, 257, 0x6_5b9cca4f7763e373);
    CubeRootFraction(55, 263, 0x6_682e6ff3d6b2b8a3);
  }

  lemma Constants56()
    ensures Constant(56) == 0x748f82ee5defb2fc && Constant(57) == 0x78a5636f43172f60
         && Constant(58) == 0x84c87814a1f0ab72 && Constant(59) == 0x8cc702081a6439ec
         && Constant(60) == 0x90befffa23631e28 && Constant(61) == 0xa4506cebde82bde9
         && Constant(62) == 0xbef9a3f7b2c67915 && Constant(63) == 0xc67178f2e372532b
  {
  }

  lemma CubeRoots56()
    ensures FromCubeRoot(56) && FromCubeRoot(57) && FromCubeRoot(58) && FromCubeRoot(59)
         && FromCubeRoot(60) && FromCubeRoot(61) && FromCubeRoot(62) && FromCubeRoot(63)
  {
    hide Constant, NthPrime, FromCubeRoot;
    Constants56();
    Primes56();
    CubeRootFraction(56, 269, 0x6_748f82ee5defb2fc);
    CubeRootFraction(57, 271, 0x6_78a5636f43172f60);
    CubeRootFraction(58, 277, 0x6_84c87814a1f0ab72);
    CubeRootFraction(59, 281, 0x6_8cc702081a6439ec);
    CubeRootFraction(60, 283, 0x6_90befffa23631e28);
    CubeRootFraction(61, 293, 0x6_a4506cebde82bde9);
    CubeRootFraction(62, 307, 0x6_bef9a3f7b2c67915);
    CubeRootFraction(63, 311, 0x6_c67178f2e372532b);
  }

  lemma Constants64()
    ensures Constant(64) == 0xca273eceea26619c && Constant(65) == 0xd186b8c721c0c207
         && Constant(66) == 0xeada7dd6cde0eb1e && Constant(67) == 0xf57d4f7fee6ed178
         && Constant(68) == 0x06f067aa72176fba && Constant(69) == 0x0a637dc5a2c898a6
         && Constant(70) == 0x113f9804bef90dae && Constant(71) == 0x1b710b35131c471b
  {
  }

  lemma CubeRoots64()
    ensures FromCubeRoot(64) && FromCubeRoot(65) && FromCubeRoot(66) && FromCubeRoot(67)
         && FromCubeRoot(68) && FromCubeRoot(69) && FromCubeRoot(70) && FromCubeRoot(71)
  {
    hide Constant, NthPrime, FromCubeRoot;
    Constants64();
    Primes64();
    CubeRootFraction(64, 313, 0x6_ca273eceea26619c);
    CubeRootFraction(65, 317, 0x6_d186b8c721c0c207);
    CubeRootFraction(66, 331, 0x6_eada7dd6cde0eb1e);
    CubeRootFraction(67, 337, 0x6_f57d4f7fee6ed178);
    CubeRootFraction(68, 347, 0x7_06f067aa72176fba);
    CubeRootFraction(69, 349, 0x7_0a637dc5a2c898a6);
    CubeRootFraction(70, 353, 0x7_113f9804bef90dae);
    CubeRootFraction(71, 359, 0x7_1b710b35131c471b);
  }

  lemma Constants72()
    ensures Constant(72) == 0x28db77f523047d84 && Constant(73) == 0x32caab7b40c72493
         && Constant(74) == 0x3c9ebe0a15c9bebc && Constant(75) == 0x431d67c49c100d4c
         && Constant(76) == 0x4cc5d4becb3e42b6 && Constant(77) == 0x597f299cfc657e2a
         && Constant(78) == 0x5fcb6fab3ad6faec && Constant(79) == 0x6c44198c4a475817
  {
  }

  lemma CubeRoots72()
    ensures FromCubeRoot(72) && FromCubeRoot(73) && FromCubeRoot(74) && FromCubeRoot(75)
         && FromCubeRoot(76) && FromCubeRoot(77) && FromCubeRoot(78) && FromCubeRoot(79)
  {
    hide Constant, NthPrime, FromCubeRoot;
    Constants72();
    Primes72();
    CubeRootFraction(72, 367, 0x7_28db77f523047d84);
    CubeRootFraction(73, 373, 0x7_32caab7b40c72493);
    CubeRootFraction(74, 379, 0x7_3c9ebe0a15c9bebc);
    CubeRootFraction(75, 383, 0x7_431d67c49c100d4c);
    CubeRootFraction(76, 389, 0x7_4cc5d4becb3e42b6);
    CubeRootFraction(77, 397, 0x7_597f299cfc657e2a);
    CubeRootFraction(78, 401, 0x7_5fcb6fab3ad6faec);
    CubeRootFraction(79, 409, 0x7_6c44198c4a475817);
  }

  /** Every round constant is the fraction of the cube root of its prime, to 64 bits. */
  lemma RoundConstants(t: nat)
    requires t < 80
    ensures FromCubeRoot(t)
  {
    hide FromCubeRoot;
    CubeRoots0();
    CubeRoots8();
    CubeRoots16();
    CubeRoots24();
    CubeRoots32();
    CubeRoots40();
    CubeRoots48();
    CubeRoots56();
    CubeRoots64();
    CubeRoots72();
  }

  /** Word t of the initial hash value is the fraction of the square root of its prime. */
  ghost predicate FromSquareRoot(t: nat)
    requires t < 8
  {
    exists q: nat, n: nat {:trigger SquareRoot(n, q)} ::
      NthPrime(q, t) && SquareRoot(n, q) && INITIAL[t] as int == n % TWO64
  }

  lemma SquareRootFraction(t: nat, q: nat, n: nat)
    requires t < 8 && NthPrime(q, t) && SquareRoot(n, q) && INITIAL[t] as int == n % TWO64
    ensures FromSquareRoot(t)
  {
    hide SquareRoot, NthPrime;
  }

  lemma InitialWords(t: nat)
    requires t < 8
    ensures FromSquareRoot(t)
  {
    hide NthPrime, FromSquareRoot;
    Primes0();
    SquareRootFraction(0, 2, 0x1_6a09e667f3bcc908);
    SquareRootFraction(1, 3, 0x1_bb67ae8584caa73b);
    SquareRootFraction(2, 5, 0x2_3c6ef372fe94f82b);
    SquareRootFraction(3, 7, 0x2_a54ff53a5f1d36f1);
    SquareRootFraction(4, 11, 0x3_510e527fade682d1);
    SquareRootFraction(5, 13, 0x3_9b05688c2b3e6c1f);
    SquareRootFraction(6, 17, 0x4_1f83d9abfb41bd6b);
    SquareRootFraction(7, 19, 0x4_5be0cd19137e2179);
  }
}
