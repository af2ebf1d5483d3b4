/** That the word functions and constants of the hasher are the standard's: each function bit by bit, each constant as
    the fraction of a root of a prime (sections 4.1.2, 4.2.2 and 5.3.3 of FIPS 180-4). */
module Sha256Words {
  import opened Bits
  import opened Alignment
  import opened Sha256

  // ----- the functions -----

  lemma WordBits()
    ensures Pow2(31) == 0x8000_0000 && Pow2(32) == WORD32
  {
    EightMore(0);
    EightMore(8);
    EightMore(16);
    EightMore(24);
    assert Pow2(32) == 2 * Pow2(31);
  }

  lemma EightMore(n: nat)
    ensures Pow2(n + 8) == 256 * Pow2(n)
  {
    assert Pow2(n + 2) == 2 * Pow2(n + 1) == 4 * Pow2(n);
    assert Pow2(n + 4) == 2 * Pow2(n + 3) == 4 * Pow2(n + 2);
    assert Pow2(n + 6) == 2 * Pow2(n + 5) == 4 * Pow2(n + 4);
    assert Pow2(n + 8) == 2 * Pow2(n + 7) == 4 * Pow2(n + 6);
  }

  /** The place that rotating right by `n` brings to place `k`. */
  function Turned(k: nat, n: nat): nat
    requires k < 32 && n <= 32
  {
    if k + n < 32 then k + n else k + n - 32
  }

  /** One turn: the lowest bit goes to the top, the others down. */
  lemma OnceIsPlaced(a: nat)
    ensures a / 2 + a % 2 * 0x8000_0000 == a / 2 + Place(a % 2 == 1, 31)
  {
    WordBits();
  }

  lemma RotateOnce(a: nat, k: nat)
    requires a < WORD32 && k < 32
    ensures a / 2 + a % 2 * 0x8000_0000 < WORD32
    ensures Bit(a / 2 + a % 2 * 0x8000_0000, k) <==> Bit(a, Turned(k, 1))
  {
    OnceIsPlaced(a);
    PlacedBit(a / 2, a % 2 == 1, k);
    if k == 31 {
      WordBits();
      ShrOfSmall(a / 2, 31);
    }
  }

  lemma PlacedBit(half: nat, bit: bool, k: nat)
    requires half < 0x8000_0000 && k < 32
    ensures half + Place(bit, 31) < WORD32
    ensures Bit(half + Place(bit, 31), k) <==> if k == 31 then bit else Bit(half, k)
  {
    WordBits();
    ShrOfSum(half, bit, 31, k);
    if k == 31 {
      ShrOfSmall(half, 31);
    } else {
      PlaceIsEven(bit, 31 - k);
    }
  }

  lemma PlaceIsEven(bit: bool, m: nat)
    requires m > 0
    ensures Place(bit, m) % 2 == 0
  {
  }

  /** Rotation moves every bit down by `n` places, round the end of the word. */
  lemma {:induction false} RotateBits(a: nat, n: nat, k: nat)
    requires a < WORD32 && n <= 32 && k < 32
    ensures Rotr(a, n) < WORD32
    ensures Bit(Rotr(a, n), k) <==> Bit(a, Turned(k, n))
    decreases n
  {
    if n > 0 {
      RotateOnce(a, k);
      RotateOnce(a, Turned(k, n - 1));
      RotateBits(a / 2 + a % 2 * 0x8000_0000, n - 1, k);
    }
  }

  /** The low `n` bits. */
  function Low(a: nat, n: nat): nat {
    if n == 0 then 0 else 2 * Low(a / 2, n - 1) + a % 2
  }

  lemma {:induction false} SplitAt(a: nat, n: nat)
    ensures Low(a, n) < Pow2(n) && a == Shr(a, n) * Pow2(n) + Low(a, n)
    decreases n
  {
    if n > 0 {
      SplitAt(a / 2, n - 1);
      TwiceProduct(Shr(a, n), Pow2(n - 1));
    }
  }

  lemma TwiceProduct(x: nat, y: nat)
    ensures x * (2 * y) == 2 * (x * y)
  {
  }

  lemma {:induction false} LowOfSum(a: nat, bit: bool, m: nat, n: nat)
    requires n <= m
    ensures Low(a + Place(bit, m), n) == Low(a, n)
    decreases n
  {
    if n > 0 {
      PlaceHalves(a, bit, m);
      LowOfSum(a / 2, bit, m - 1, n - 1);
    }
  }

  /** The low bits moved above the rest. */
  function Raised(a: nat, n: nat): nat
    requires n <= 32
  {
    Low(a, n) * Pow2(32 - n)
  }

  lemma {:induction false} RotateParts(a: nat, n: nat)
    requires n <= 32
    ensures Rotr(a, n) == Shr(a, n) + Raised(a, n)
    decreases n
  {
    if n > 0 {
      var once := a / 2 + a % 2 * 0x8000_0000;
      OnceIsPlaced(a);
      RotateParts(once, n - 1);
      PlacedParts(a, n - 1);
    } else {
      NothingRaised(a);
    }
  }

  lemma NothingRaised(a: nat)
    ensures Raised(a, 0) == 0
  {
  }

  lemma PlacedParts(a: nat, n: nat)
    requires n < 32
    ensures var once := a / 2 + Place(a % 2 == 1, 31);
            Shr(once, n) + Raised(once, n) == Shr(a, n + 1) + Raised(a, n + 1)
  {
    ShrOfSum(a / 2, a % 2 == 1, 31, n);
    LowOfSum(a / 2, a % 2 == 1, 31, n);
    Regroup(Low(a / 2, n), a % 2, Pow2(31 - n));
  }

  lemma Regroup(low: nat, bit: nat, unit: nat)
    requires bit < 2
    ensures (if bit == 1 then unit else 0) + low * (2 * unit) == (2 * low + bit) * unit
  {
    TwiceProduct(low, unit);
    assert (2 * low + bit) * unit == 2 * (low * unit) + bit * unit;
  }

  /** Rotation puts the low part of the word above the rest of it. */
  lemma RotateIsQuotient(a: nat, n: nat)
    requires n <= 32
    ensures Rotr(a, n) == a / Pow2(n) + a % Pow2(n) * Pow2(32 - n)
  {
    RotateParts(a, n);
    SplitAt(a, n);
    QuotientIs(a, Pow2(n), Shr(a, n), Low(a, n));
  }

  lemma QuotientIs(a: nat, d: nat, q: nat, r: nat)
    requires d > 0 && r < d && a == q * d + r
    ensures a / d == q && a % d == r
  {
    if a / d < q {
      ProductGrows(d, a / d, q);
    } else if q < a / d {
      ProductGrows(d, q, a / d);
    }
  }

  lemma BitOfNot(a: nat, k: nat)
    requires a < WORD32 && k < 32
    ensures Bit(Not(a), k) <==> !Bit(a, k)
  {
    WordBits();
    BitOfComplement(a, 32, k);
  }

  /** Choice: the bit of `y` where that of `x` is set, otherwise that of `z`. */
  lemma ChoiceBits(x: nat, y: nat, z: nat, k: nat)
    requires x < WORD32 && k < 32
    ensures Bit(STANDARD.ch(x, y, z), k) <==> if Bit(x, k) then Bit(y, k) else Bit(z, k)
  {
    BitOfNot(x, k);
    BitOfAnd(x, y, k);
    BitOfAnd(Not(x), z, k);
    BitOfXor(And(x, y), And(Not(x), z), k);
  }

  function Count(a: bool, b: bool, c: bool): nat {
    (if a then 1 else 0) + (if b then 1 else 0) + if c then 1 else 0
  }

  lemma BitOfXor3(a: nat, b: nat, c: nat, k: nat)
    ensures Bit(Xor3(a, b, c), k) <==> Count(Bit(a, k), Bit(b, k), Bit(c, k)) % 2 == 1
  {
    BitOfXor(a, b, k);
    BitOfXor(Xor(a, b), c, k);
  }

  /** Majority: the bit that at least two of the words have. */
  lemma MajorityBits(x: nat, y: nat, z: nat, k: nat)
    ensures Bit(STANDARD.maj(x, y, z), k) <==> Count(Bit(x, k), Bit(y, k), Bit(z, k)) >= 2
  {
    BitOfAnd(x, y, k);
    BitOfAnd(x, z, k);
    BitOfAnd(y, z, k);
    BitOfXor3(And(x, y), And(x, z), And(y, z), k);
  }

  /** The sum functions: the parity of three rotated bits. */
  lemma SumBits(x: nat, k: nat)
    requires x < WORD32 && k < 32
    ensures Bit(STANDARD.bigSigma0(x), k)
       <==> Count(Bit(x, Turned(k, 2)), Bit(x, Turned(k, 13)), Bit(x, Turned(k, 22))) % 2 == 1
    ensures Bit(STANDARD.bigSigma1(x), k)
       <==> Count(Bit(x, Turned(k, 6)), Bit(x, Turned(k, 11)), Bit(x, Turned(k, 25))) % 2 == 1
  {
    RotateBits(x, 2, k);
    RotateBits(x, 13, k);
    RotateBits(x, 22, k);
    BitOfXor3(Rotr(x, 2), Rotr(x, 13), Rotr(x, 22), k);
    RotateBits(x, 6, k);
    RotateBits(x, 11, k);
    RotateBits(x, 25, k);
    BitOfXor3(Rotr(x, 6), Rotr(x, 11), Rotr(x, 25), k);
  }

  /** The schedule's functions: the parity of two rotated bits and a shifted one. */
  lemma ScheduleBits(x: nat, k: nat)
    requires x < WORD32 && k < 32
    ensures Bit(STANDARD.smallSigma0(x), k)
       <==> Count(Bit(x, Turned(k, 7)), Bit(x, Turned(k, 18)), Bit(x, k + 3)) % 2 == 1
    ensures Bit(STANDARD.smallSigma1(x), k)
       <==> Count(Bit(x, Turned(k, 17)), Bit(x, Turned(k, 19)), Bit(x, k + 10)) % 2 == 1
  {
    RotatedAndShifted(x, 7, 18, 3, k);
    RotatedAndShifted(x, 17, 19, 10, k);
  }

  lemma RotatedAndShifted(x: nat, i: nat, j: nat, n: nat, k: nat)
    requires x < WORD32 && k < 32 && i <= 32 && j <= 32
    ensures Bit(Xor3(Rotr(x, i), Rotr(x, j), Shr(x, n)), k)
       <==> Count(Bit(x, Turned(k, i)), Bit(x, Turned(k, j)), Bit(x, k + n)) % 2 == 1
  {
    RotateBits(x, i, k);
    RotateBits(x, j, k);
    ShrAdds(x, n, k);
    BitOfXor3(Rotr(x, i), Rotr(x, j), Shr(x, n), k);
  }

  // ----- the constants -----

  /** The first 64 primes, row by row. */
  function Prime(t: nat): nat {
    if t < 8 then Row(t, 2, 3, 5, 7, 11, 13, 17, 19)
    else if t < 16 then Row(t - 8, 23, 29, 31, 37, 41, 43, 47, 53)
    else if t < 24 then Row(t - 16, 59, 61, 67, 71, 73, 79, 83, 89)
    else if t < 32 then Row(t - 24, 97, 101, 103, 107, 109, 113, 127, 131)
    else if t < 40 then Row(t - 32, 137, 139, 149, 151, 157, 163, 167, 173)
    else if t < 48 then Row(t - 40, 179, 181, 191, 193, 197, 199, 211, 223)
    else if t < 56 then Row(t - 48, 227, 229, 233, 239, 241, 251, 257, 263)
    else if t < 64 then Row(t - 56, 269, 271, 277, 281, 283, 293, 307, 311)
    else 0
  }

  /** The whole parts of their cube roots. */
  function Whole(t: nat): nat {
    if t < 8 then Row(t, 1, 1, 1, 1, 2, 2, 2, 2)
    else if t < 16 then Row(t - 8, 2, 3, 3, 3, 3, 3, 3, 3)
    else if t < 24 then Row(t - 16, 3, 3, 4, 4, 4, 4, 4, 4)
    else if t < 32 then Row(t - 24, 4, 4, 4, 4, 4, 4, 5, 5)
    else if t < 40 then Row(t - 32, 5, 5, 5, 5, 5, 5, 5, 5)
    else if t < 48 then Row(t - 40, 5, 5, 5, 5, 5, 5, 5, 6)
    else if t < 56 then Row(t - 48, 6, 6, 6, 6, 6, 6, 6, 6)
    else if t < 64 then Row(t - 56, 6, 6, 6, 6, 6, 6, 6, 6)
    else 0
  }

  predicate IsPrime(n: nat) {
    n >= 2 && forall d :: 2 <= d < n ==> n % d != 0
  }

  /** Divisible by a prime below 19. */
  predicate Sieved(n: nat) {
    n % 2 == 0 || n % 3 == 0 || n % 5 == 0 || n % 7 == 0 || n % 11 == 0 || n % 13 == 0 || n % 17 == 0
  }

  lemma SmallDivisor(n: nat, d: nat)
    requires 2 <= d < 19 && n % d == 0
    ensures Sieved(n)
  {
    if d == 4 {
      assert n % 2 == 0;
    } else if d == 6 {
      assert n % 2 == 0;
    } else if d == 8 {
      assert n % 2 == 0;
    } else if d == 9 {
      assert n % 3 == 0;
    } else if d == 10 {
      assert n % 2 == 0;
    } else if d == 12 {
      assert n % 2 == 0;
    } else if d == 14 {
      assert n % 2 == 0;
    } else if d == 15 {
      assert n % 3 == 0;
    } else if d == 16 {
      assert n % 2 == 0;
    } else if d == 18 {
      assert n % 2 == 0;
    }
  }

  /** Below 19 times 19, what no small prime divides is prime. */
  lemma SieveFindsPrimes(n: nat)
    requires 17 < n < 361
    ensures IsPrime(n) <==> !Sieved(n)
  {
    if !Sieved(n) {
      forall d | 2 <= d < n ensures n % d != 0 {
        if n % d == 0 {
          SmallOfPair(n, d, n / d);
        }
      }
    }
  }

  /** Of two factors of a number below 361 one is below 19. */
  lemma SmallOfPair(n: nat, d: nat, e: nat)
    requires n < 361 && n == d * e && 2 <= d < n
    ensures Sieved(n)
  {
    assert 2 <= e;
    if d < 19 {
      Divides(n, d, e);
      SmallDivisor(n, d);
    } else {
      if e >= 19 {
        LargePair(d, e);
      }
      Divides(n, e, d);
      SmallDivisor(n, e);
    }
  }

  lemma LargePair(d: nat, e: nat)
    requires d >= 19 && e >= 19
    ensures d * e >= 361
  {
    assert d * e == 19 * e + (d - 19) * e;
  }

  lemma Divides(n: nat, d: nat, e: nat)
    requires d > 0 && n == d * e
    ensures n % d == 0
  {
    QuotientIs(n, d, e, 0);
  }

  /** They are primes, and none is left out. */
  lemma PrimesInOrder(t: nat)
    requires t < 64
    ensures Prime(0) == 2 && IsPrime(Prime(t))
    ensures t < 63 ==> Prime(t) < Prime(t + 1) && forall n :: Prime(t) < n < Prime(t + 1) ==> !IsPrime(n)
  {
    RowsArePrime(t);
    if t < 63 {
      RowsIncrease(t);
      forall n | Prime(t) < n < Prime(t + 1) ensures !IsPrime(n) {
        GapIsSieved(t, n);
        if n > 17 {
          SieveFindsPrimes(n);
        } else {
          assert n % 2 == 0 || n % 3 == 0;
        }
      }
    }
  }

  lemma RowsArePrime(t: nat)
    requires t < 64
    ensures IsPrime(Prime(t)) && Prime(t) < 361
  {
    if t >= 7 {
      SieveFindsPrimes(Prime(t));
    }
  }

  lemma RowsIncrease(t: nat)
    requires t < 63
    ensures Prime(t) < Prime(t + 1) < 361
  {
  }

  lemma GapIsSieved(t: nat, n: nat)
    requires t < 63 && Prime(t) < n < Prime(t + 1)
    ensures Sieved(n)
  {
    if t < 4 {
      GapFrom0(t, n);
    } else if t < 8 {
      GapFrom4(t, n);
    } else if t < 12 {
      GapFrom8(t, n);
    } else if t < 16 {
      GapFrom12(t, n);
    } else if t < 20 {
      GapFrom16(t, n);
    } else if t < 24 {
      GapFrom20(t, n);
    } else if t < 28 {
      GapFrom24(t, n);
    } else if t < 32 {
      GapFrom28(t, n);
    } else if t < 36 {
      GapFrom32(t, n);
    } else if t < 40 {
      GapFrom36(t, n);
    } else if t < 44 {
      GapFrom40(t, n);
    } else if t < 48 {
      GapFrom44(t, n);
    } else if t < 52 {
      GapFrom48(t, n);
    } else if t < 56 {
      GapFrom52(t, n);
    } else if t < 60 {
      GapFrom56(t, n);
    } else {
      GapFrom60(t, n);
    }
  }

  lemma GapFrom0(t: nat, n: nat)
    requires 0 <= t < 4 && Prime(t) < n < Prime(t + 1)
    ensures Sieved(n)
  {
  }

  lemma GapFrom4(t: nat, n: nat)
    requires 4 <= t < 8 && Prime(t) < n < Prime(t + 1)
    ensures Sieved(n)
  {
  }

  lemma GapFrom8(t: nat, n: nat)
    requires 8 <= t < 12 && Prime(t) < n < Prime(t + 1)
    ensures Sieved(n)
  {
  }

  lemma GapFrom12(t: nat, n: nat)
    requires 12 <= t < 16 && Prime(t) < n < Prime(t + 1)
    ensures Sieved(n)
  {
  }

  lemma GapFrom16(t: nat, n: nat)
    requires 16 <= t < 20 && Prime(t) < n < Prime(t + 1)
    ensures Sieved(n)
  {
  }

  lemma GapFrom20(t: nat, n: nat)
    requires 20 <= t < 24 && Prime(t) < n < Prime(t + 1)
    ensures Sieved(n)
  {
  }

  lemma GapFrom24(t: nat, n: nat)
    requires 24 <= t < 28 && Prime(t) < n < Prime(t + 1)
    ensures Sieved(n)
  {
  }

  lemma GapFrom28(t: nat, n: nat)
    requires 28 <= t < 32 && Prime(t) < n < Prime(t + 1)
    ensures Sieved(n)
  {
  }

  lemma GapFrom32(t: nat, n: nat)
    requires 32 <= t < 36 && Prime(t) < n < Prime(t + 1)
    ensures Sieved(n)
  {
  }

  lemma GapFrom36(t: nat, n: nat)
    requires 36 <= t < 40 && Prime(t) < n < Prime(t + 1)
    ensures Sieved(n)
  {
  }

  lemma GapFrom40(t: nat, n: nat)
    requires 40 <= t < 44 && Prime(t) < n < Prime(t + 1)
    ensures Sieved(n)
  {
  }

  lemma GapFrom44(t: nat, n: nat)
    requires 44 <= t < 48 && Prime(t) < n < Prime(t + 1)
    ensures Sieved(n)
  {
  }

  lemma GapFrom48(t: nat, n: nat)
    requires 48 <= t < 52 && Prime(t) < n < Prime(t + 1)
    ensures Sieved(n)
  {
  }

  lemma GapFrom52(t: nat, n: nat)
    requires 52 <= t < 56 && Prime(t) < n < Prime(t + 1)
    ensures Sieved(n)
  {
  }

  lemma GapFrom56(t: nat, n: nat)
    requires 56 <= t < 60 && Prime(t) < n < Prime(t + 1)
    ensures Sieved(n)
  {
  }

  lemma GapFrom60(t: nat, n: nat)
    requires 60 <= t < 63 && Prime(t) < n < Prime(t + 1)
    ensures Sieved(n)
  {
  }

  /** The word is the fraction, to 32 bits, of the root of the prime. */
  predicate IsCubeFraction(prime: nat, whole: nat, word: nat) {
    var c := whole * WORD32 + word;
    word < WORD32 && c * c * c <= prime * 0x1_0000_0000_0000_0000_0000_0000 < (c + 1) * (c + 1) * (c + 1)
  }

  predicate IsSquareFraction(prime: nat, whole: nat, word: nat) {
    var c := whole * WORD32 + word;
    word < WORD32 && c * c <= prime * 0x1_0000_0000_0000_0000 < (c + 1) * (c + 1)
  }

  /** Each round constant is the fraction of the cube root of its prime. */
  lemma ConstantsAreFractions(t: nat)
    requires t < 64
    ensures IsCubeFraction(Prime(t), Whole(t), STANDARD.constant(t))
  {
    if t < 8 {
      FractionsFrom0(t);
    } else if t < 16 {
      FractionsFrom8(t);
    } else if t < 24 {
      FractionsFrom16(t);
    } else if t < 32 {
      FractionsFrom24(t);
    } else if t < 40 {
      FractionsFrom32(t);
    } else if t < 48 {
      FractionsFrom40(t);
    } else if t < 56 {
      FractionsFrom48(t);
    } else {
      FractionsFrom56(t);
    }
  }

  lemma FractionsFrom0(t: nat)
    requires 0 <= t < 8
    ensures IsCubeFraction(Prime(t), Whole(t), STANDARD.constant(t))
  {
  }

  lemma FractionsFrom8(t: nat)
    requires 8 <= t < 16
    ensures IsCubeFraction(Prime(t), Whole(t), STANDARD.constant(t))
  {
  }

  lemma FractionsFrom16(t: nat)
    requires 16 <= t < 24
    ensures IsCubeFraction(Prime(t), Whole(t), STANDARD.constant(t))
  {
  }

  lemma FractionsFrom24(t: nat)
    requires 24 <= t < 32
    ensures IsCubeFraction(Prime(t), Whole(t), STANDARD.constant(t))
  {
  }

  lemma FractionsFrom32(t: nat)
    requires 32 <= t < 40
    ensures IsCubeFraction(Prime(t), Whole(t), STANDARD.constant(t))
  {
  }

  lemma FractionsFrom40(t: nat)
    requires 40 <= t < 48
    ensures IsCubeFraction(Prime(t), Whole(t), STANDARD.constant(t))
  {
  }

  lemma FractionsFrom48(t: nat)
    requires 48 <= t < 56
    ensures IsCubeFraction(Prime(t), Whole(t), STANDARD.constant(t))
  {
  }

  lemma FractionsFrom56(t: nat)
    requires 56 <= t < 64
    ensures IsCubeFraction(Prime(t), Whole(t), STANDARD.constant(t))
  {
  }

  /** Each initial word is the fraction of the square root of its prime. */
  lemma InitialIsFractions()
    ensures IsSquareFraction(Prime(0), 1, INITIAL.a)
    ensures IsSquareFraction(Prime(1), 1, INITIAL.b)
    ensures IsSquareFraction(Prime(2), 2, INITIAL.c)
    ensures IsSquareFraction(Prime(3), 2, INITIAL.d)
    ensures IsSquareFraction(Prime(4), 3, INITIAL.e)
    ensures IsSquareFraction(Prime(5), 3, INITIAL.f)
    ensures IsSquareFraction(Prime(6), 4, INITIAL.g)
    ensures IsSquareFraction(Prime(7), 4, INITIAL.h)
  {
  }
}
