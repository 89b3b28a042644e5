/** Where the constants of SHA-256 come from (FIPS 180-4, sections 4.2.2 and 5.3.3). */
module Sha256Constants {
  import opened Sha256Spec
  import opened Sha256Words

  // ---------- primes ----------

  predicate IsPrime(n: nat) {
    n >= 2 && forall d :: 2 <= d < n ==> n % d != 0
  }

  /** How many primes there are below n. */
  function PrimesBelow(n: nat): nat {
    if n == 0 then 0 else PrimesBelow(n - 1) + (if IsPrime(n - 1) then 1 else 0)
  }

  /** Division by the primes up to 17, which is enough below 361. */
  predicate Trial(n: nat) {
    && (n == 2 || n % 2 != 0) && (n == 3 || n % 3 != 0) && (n == 5 || n % 5 != 0) && (n == 7 || n % 7 != 0)
    && (n == 11 || n % 11 != 0) && (n == 13 || n % 13 != 0) && (n == 17 || n % 17 != 0)
  }

  /** A divisor below 19 has one of those primes in it. */
  lemma SmallDivisor(n: nat, m: nat, q: nat)
    requires 2 <= m < 19 && n == m * q && q >= 2
    ensures !Trial(n)
  {
    if m == 2 { By2(n, q); } else if m == 4 { By2(n, 2 * q); } else if m == 6 { By2(n, 3 * q); }
    else if m == 8 { By2(n, 4 * q); } else if m == 10 { By2(n, 5 * q); } else if m == 12 { By2(n, 6 * q); }
    else if m == 14 { By2(n, 7 * q); } else if m == 16 { By2(n, 8 * q); } else if m == 18 { By2(n, 9 * q); }
    else if m == 3 { By3(n, q); } else if m == 9 { By3(n, 3 * q); } else if m == 15 { By3(n, 5 * q); }
    else { Others(n, m, q); }
  }

  lemma By2(n: nat, q: nat)
    requires n == 2 * q && q >= 2
    ensures n != 2 && n % 2 == 0
  {
  }

  lemma By3(n: nat, q: nat)
    requires n == 3 * q && q >= 2
    ensures n != 3 && n % 3 == 0
  {
  }

  lemma Others(n: nat, m: nat, q: nat)
    requires n == m * q && q >= 2 && (m == 5 || m == 7 || m == 11 || m == 13 || m == 17)
    ensures n != m && n % m == 0
  {
  }

  lemma Quotient(n: nat, d: nat) returns (q: nat)
    requires 2 <= d < n && n % d == 0
    ensures n == d * q && q >= 2
  {
    q := n / d;
    assert n == d * q + n % d;
    assert q >= 2;
  }

  lemma BothLarge(n: nat, d: nat, q: nat)
    requires n == d * q && d >= 19 && q >= 19
    ensures n >= 361
  {
    assert d * q >= 19 * q;
  }

  lemma TrialIff(n: nat)
    requires 2 <= n < 361
    ensures IsPrime(n) <==> Trial(n)
  {
    if Trial(n) {
      forall d | 2 <= d < n ensures n % d != 0 {
        if n % d == 0 {
          var q := Quotient(n, d);
          if d < 19 { SmallDivisor(n, d, q); }
          else if q < 19 { SmallDivisor(n, q, d); }
          else { BothLarge(n, d, q); }
        }
      }
    }
  }

  // ---------- the first 64 primes ----------

  /** p is a prime, and there are t below it. */
  predicate IsNthPrime(p: nat, t: nat) {
    IsPrime(p) && PrimesBelow(p) == t
  }

  const PRIMES: seq<seq<nat>> := [
    [2, 3, 5, 7, 11, 13, 17, 19],
    [23, 29, 31, 37, 41, 43, 47, 53],
    [59, 61, 67, 71, 73, 79, 83, 89],
    [97, 101, 103, 107, 109, 113, 127, 131],
    [137, 139, 149, 151, 157, 163, 167, 173],
    [179, 181, 191, 193, 197, 199, 211, 223],
    [227, 229, 233, 239, 241, 251, 257, 263],
    [269, 271, 277, 281, 283, 293, 307, 311]
  ]

  function Prime(t: nat): nat
    requires t < 64
  {
    PRIMES[t / 8][t % 8]
  }

  predicate NoneFrom(a: nat, b: nat)
    decreases b - a
  {
    a >= b || (!Trial(a) && NoneFrom(a + 1, b))
  }

  lemma {:induction false} NoneCounts(a: nat, b: nat)
    requires 2 <= a <= b < 361 && NoneFrom(a, b)
    ensures PrimesBelow(b) == PrimesBelow(a)
    decreases b - a
  {
    if a < b {
      TrialIff(a);
      NoneCounts(a + 1, b);
    }
  }

  lemma {:induction false} NextPrime(p: nat, q: nat, t: nat)
    requires IsNthPrime(p, t) && Follows(p, q)
    ensures IsNthPrime(q, t + 1)
  {
    TrialIff(q);
    NoneCounts(p + 1, q);
  }

  /** q is the next number after p that passes the division. */
  predicate Follows(p: nat, q: nat) {
    p < q < 361 && Trial(q) && NoneFrom(p + 1, q)
  }

  // ---------- the constants ----------

  function Cube(n: nat): nat {
    n * n * n
  }

  /** The word holds the first 32 bits of the fractional part of the cube root of p, of which c is
      the integer part. */
  predicate IsCubeRootOf(w: Word, p: nat, c: nat) {
    var bits := c * 0x1_0000_0000 + (w as int);
    Cube(bits) <= p * 0x1_0000_0000_0000_0000_0000_0000 < Cube(bits + 1)
  }

  /** The integer part of the cube root of a number below 343. */
  function CubeRoot(p: nat): nat {
    if p < 8 then 1 else if p < 27 then 2 else if p < 64 then 3 else if p < 125 then 4 else if p < 216 then 5 else 6
  }


  lemma {:induction false} Primes0(t: nat)
    requires 0 <= t < 8 && t > 0
    ensures Follows(Prime(t - 1), Prime(t))
  {
    match t
    case 1 => case 2 => case 3 => case 4 => case 5 => case 6 => case 7 =>
  }

  lemma {:induction false} Primes1(t: nat)
    requires 8 <= t < 16 && t > 0
    ensures Follows(Prime(t - 1), Prime(t))
  {
    match t
    case 8 => case 9 => case 10 => case 11 => case 12 => case 13 => case 14 => case 15 =>
  }

  lemma {:induction false} Primes2(t: nat)
    requires 16 <= t < 24 && t > 0
    ensures Follows(Prime(t - 1), Prime(t))
  {
    match t
    case 16 => case 17 => case 18 => case 19 => case 20 => case 21 => case 22 => case 23 =>
  }

  lemma {:induction false} Primes3(t: nat)
    requires 24 <= t < 32 && t > 0
    ensures Follows(Prime(t - 1), Prime(t))
  {
    match t
    case 24 => case 25 => case 26 => case 27 => case 28 => case 29 => case 30 => case 31 =>
  }

  lemma {:induction false} Primes4(t: nat)
    requires 32 <= t < 40 && t > 0
    ensures Follows(Prime(t - 1), Prime(t))
  {
    match t
    case 32 => case 33 => case 34 => case 35 => case 36 => case 37 => case 38 => case 39 =>
  }

  lemma {:induction false} Primes5(t: nat)
    requires 40 <= t < 48 && t > 0
    ensures Follows(Prime(t - 1), Prime(t))
  {
    match t
    case 40 => case 41 => case 42 => case 43 => case 44 => case 45 => case 46 => case 47 =>
  }

  lemma {:induction false} Primes6(t: nat)
    requires 48 <= t < 56 && t > 0
    ensures Follows(Prime(t - 1), Prime(t))
  {
    match t
    case 48 => case 49 => case 50 => case 51 => case 52 => case 53 => case 54 => case 55 =>
  }

  lemma {:induction false} Primes7(t: nat)
    requires 56 <= t < 64 && t > 0
    ensures Follows(Prime(t - 1), Prime(t))
  {
    match t
    case 56 => case 57 => case 58 => case 59 => case 60 => case 61 => case 62 => case 63 =>
  }

  lemma {:induction false} Roots0(t: nat)
    requires 0 <= t < 8
    ensures IsCubeRootOf(K(t), Prime(t), CubeRoot(Prime(t)))
  {
    match t
    case 0 => case 1 => case 2 => case 3 => case 4 => case 5 => case 6 => case 7 =>
  }

  lemma {:induction false} Roots1(t: nat)
    requires 8 <= t < 16
    ensures IsCubeRootOf(K(t), Prime(t), CubeRoot(Prime(t)))
  {
    match t
    case 8 => case 9 => case 10 => case 11 => case 12 => case 13 => case 14 => case 15 =>
  }

  lemma {:induction false} Roots2(t: nat)
    requires 16 <= t < 24
    ensures IsCubeRootOf(K(t), Prime(t), CubeRoot(Prime(t)))
  {
    match t
    case 16 => case 17 => case 18 => case 19 => case 20 => case 21 => case 22 => case 23 =>
  }

  lemma {:induction false} Roots3(t: nat)
    requires 24 <= t < 32
    ensures IsCubeRootOf(K(t), Prime(t), CubeRoot(Prime(t)))
  {
    match t
    case 24 => case 25 => case 26 => case 27 => case 28 => case 29 => case 30 => case 31 =>
  }

  lemma {:induction false} Roots4(t: nat)
    requires 32 <= t < 40
    ensures IsCubeRootOf(K(t), Prime(t), CubeRoot(Prime(t)))
  {
    match t
    case 32 => case 33 => case 34 => case 35 => case 36 => case 37 => case 38 => case 39 =>
  }

  lemma {:induction false} Roots5(t: nat)
    requires 40 <= t < 48
    ensures IsCubeRootOf(K(t), Prime(t), CubeRoot(Prime(t)))
  {
    match t
    case 40 => case 41 => case 42 => case 43 => case 44 => case 45 => case 46 => case 47 =>
  }

  lemma {:induction false} Roots6(t: nat)
    requires 48 <= t < 56
    ensures IsCubeRootOf(K(t), Prime(t), CubeRoot(Prime(t)))
  {
    match t
    case 48 => case 49 => case 50 => case 51 => case 52 => case 53 => case 54 => case 55 =>
  }

  lemma {:induction false} Roots7(t: nat)
    requires 56 <= t < 64
    ensures IsCubeRootOf(K(t), Prime(t), CubeRoot(Prime(t)))
  {
    match t
    case 56 => case 57 => case 58 => case 59 => case 60 => case 61 => case 62 => case 63 =>
  }

  lemma {:induction false} EachRoot(t: nat)
    requires t < 64
    ensures IsCubeRootOf(K(t), Prime(t), CubeRoot(Prime(t)))
  {
    if t < 8 { Roots0(t); } else if t < 16 { Roots1(t); } else if t < 24 { Roots2(t); } else if t < 32 { Roots3(t); }
    else if t < 40 { Roots4(t); } else if t < 48 { Roots5(t); } else if t < 56 { Roots6(t); } else { Roots7(t); }
  }

  lemma {:induction false} EachPrime(t: nat)
    requires 0 < t < 64
    ensures Follows(Prime(t - 1), Prime(t))
  {
    if t < 8 { Primes0(t); } else if t < 16 { Primes1(t); } else if t < 24 { Primes2(t); } else if t < 32 { Primes3(t); }
    else if t < 40 { Primes4(t); } else if t < 48 { Primes5(t); } else if t < 56 { Primes6(t); } else { Primes7(t); }
  }

  lemma {:induction false} FirstPrimes(t: nat)
    requires t < 64
    ensures IsNthPrime(Prime(t), t)
  {
    if t == 0 {
      assert PrimesBelow(2) == 0;
    } else {
      FirstPrimes(t - 1);
      EachPrime(t);
      NextPrime(Prime(t - 1), Prime(t), t - 1);
    }
  }

  /** Section 4.2.2: K_t holds the first 32 bits of the fractional part of the cube root of the
      prime that has t primes below it. */
  lemma {:induction false} RoundConstants(t: nat)
    requires t < 64
    ensures IsNthPrime(Prime(t), t) && IsCubeRootOf(SHA.k(t), Prime(t), CubeRoot(Prime(t)))
  {
    FirstPrimes(t);
    EachRoot(t);
  }

  /** The same of square roots. */
  predicate IsSquareRootOf(w: Word, p: nat, c: nat) {
    var bits := c * 0x1_0000_0000 + (w as int);
    bits * bits <= p * 0x1_0000_0000_0000_0000 < (bits + 1) * (bits + 1)
  }

  function InitialWord(t: nat): Word
    requires t < 8
  {
    match t
    case 0 => H0.a
    case 1 => H0.b
    case 2 => H0.c
    case 3 => H0.d
    case 4 => H0.e
    case 5 => H0.f
    case 6 => H0.g
    case 7 => H0.h
  }

  /** The integer part of the square root of a number below 25. */
  function SquareRoot(p: nat): nat {
    if p < 4 then 1 else if p < 9 then 2 else if p < 16 then 3 else 4
  }

  lemma {:induction false} InitialRoots(t: nat)
    requires t < 8
    ensures IsSquareRootOf(InitialWord(t), Prime(t), SquareRoot(Prime(t)))
  {
    match t
    case 0 => case 1 => case 2 => case 3 => case 4 => case 5 => case 6 => case 7 =>
  }

  /** Section 5.3.3: the initial hash value holds these bits of the square roots of the first eight
      primes. */
  lemma {:induction false} InitialHash(t: nat)
    requires t < 8
    ensures IsNthPrime(Prime(t), t) && IsSquareRootOf(InitialWord(t), Prime(t), SquareRoot(Prime(t)))
  {
    FirstPrimes(t);
    InitialRoots(t);
  }
}
