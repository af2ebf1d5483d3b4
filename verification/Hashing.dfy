/** The 64-bit mixing function behind default hash codes, shown to lose nothing. */
module Hashing {
  import opened Bits

  const WORD: nat := 0x1_0000_0000_0000_0000
  const FIRST: nat := 0xbf58_476d_1ce4_e5b9
  const SECOND: nat := 0x94d0_49bb_1331_11eb
  /** The multiplicative inverses of the two odd factors, modulo 2^64. */
  const FIRST_INVERSE: nat := 0x96de_1b17_3f11_9089
  const SECOND_INVERSE: nat := 0x3196_42b2_d24d_8ec3

  function Multiply(value: nat, factor: nat): (r: nat)
    ensures r < WORD
  {
    value * factor % WORD
  }

  function MixHash(value: nat): nat {
    var a := Multiply(Xor(value, Shr(value, 30)), FIRST);
    var b := Multiply(Xor(a, Shr(a, 27)), SECOND);
    Xor(b, Shr(b, 31))
  }

  /** Each xor-shift and each multiplication undone, last first. */
  function UnmixHash(hash: nat): nat {
    var b := Multiply(Unshift(hash, 31), SECOND_INVERSE);
    var a := Multiply(Unshift(b, 27), FIRST_INVERSE);
    Unshift(a, 30)
  }

  /** Multiplying by a factor and then by its inverse gives the word back. */
  lemma FactorCancels(x: nat, factor: nat, inverse: nat, q: nat)
    requires x < WORD && factor * inverse == 1 + q * WORD
    ensures Multiply(Multiply(x, factor), inverse) == x
  {
    var product := x * factor;
    var low, high := product % WORD, product / WORD;
    calc {
      low * inverse;
      (product - WORD * high) * inverse;
      product * inverse - WORD * high * inverse;
      { assert product * inverse == x * (factor * inverse); }
      x * (1 + q * WORD) - WORD * high * inverse;
      { assert x * (1 + q * WORD) == x + WORD * (x * q); }
      x + WORD * (x * q) - WORD * (high * inverse);
      { assert WORD * (x * q) - WORD * (high * inverse) == WORD * (x * q - high * inverse); }
      x + WORD * (x * q - high * inverse);
    }
    RemainderIsUnique(low * inverse, x, x * q - high * inverse);
  }

  lemma RemainderIsUnique(y: int, x: nat, k: int)
    requires y == x + WORD * k && x < WORD
    ensures y % WORD == x
  {
  }

  lemma FirstFactor(x: nat)
    requires x < WORD
    ensures Multiply(Multiply(x, FIRST), FIRST_INVERSE) == x
    ensures Multiply(Multiply(x, FIRST_INVERSE), FIRST) == x
  {
    FactorCancels(x, FIRST, FIRST_INVERSE, 8125545580553827436);
    FactorCancels(x, FIRST_INVERSE, FIRST, 8125545580553827436);
  }

  lemma SecondFactor(x: nat)
    requires x < WORD
    ensures Multiply(Multiply(x, SECOND), SECOND_INVERSE) == x
    ensures Multiply(Multiply(x, SECOND_INVERSE), SECOND) == x
  {
    FactorCancels(x, SECOND, SECOND_INVERSE, 2077064247507883091);
    FactorCancels(x, SECOND_INVERSE, SECOND, 2077064247507883091);
  }

  lemma WordIsPower()
    ensures Pow2(64) == WORD
  {
    assert Pow2(8) == 256;
    PowerAdds(8, 8);
    PowerAdds(16, 16);
    PowerAdds(32, 32);
  }

  lemma Reassociate(a: nat, b: nat, c: nat)
    ensures a * (b * c) == (a * b) * c
  {
  }

  lemma {:induction false} PowerAdds(m: nat, n: nat)
    ensures Pow2(m + n) == Pow2(m) * Pow2(n)
  {
    if m > 0 {
      PowerAdds(m - 1, n);
      Reassociate(2, Pow2(m - 1), Pow2(n));
    }
  }

  lemma ShiftedIsWord(x: nat, k: nat)
    requires x < WORD
    ensures Xor(x, Shr(x, k)) < WORD
  {
    WordIsPower();
    XorBound(x, Shr(x, k), 64);
  }

  lemma {:induction false} UnshiftedIsWord(y: nat, k: nat)
    requires y < WORD && k > 0
    ensures Unshift(y, k) < WORD
    decreases y
  {
    if y > 0 {
      ShrShrinks(y, k);
      UnshiftedIsWord(Shr(y, k), k);
      WordIsPower();
      XorBound(y, Unshift(Shr(y, k), k), 64);
    }
  }

  /** Mixing is a bijection on 64-bit words. */
  lemma MixHashIsBijective(x: nat)
    requires x < WORD
    ensures MixHash(x) < WORD && UnmixHash(MixHash(x)) == x
    ensures UnmixHash(x) < WORD && MixHash(UnmixHash(x)) == x
  {
    Forward(x);
    Backward(x);
  }

  lemma Forward(x: nat)
    requires x < WORD
    ensures MixHash(x) < WORD && UnmixHash(MixHash(x)) == x
  {
    var u := Xor(x, Shr(x, 30));
    var a := Multiply(u, FIRST);
    var v := Xor(a, Shr(a, 27));
    var b := Multiply(v, SECOND);
    ShiftedIsWord(x, 30);
    ShiftedIsWord(a, 27);
    ShiftedIsWord(b, 31);
    UnshiftUndoes(b, 31);
    SecondFactor(v);
    UnshiftUndoes(a, 27);
    FirstFactor(u);
    UnshiftUndoes(x, 30);
  }

  lemma Backward(y: nat)
    requires y < WORD
    ensures UnmixHash(y) < WORD && MixHash(UnmixHash(y)) == y
  {
    var u := Unshift(y, 31);
    var b := Multiply(u, SECOND_INVERSE);
    var v := Unshift(b, 27);
    var a := Multiply(v, FIRST_INVERSE);
    UnshiftedIsWord(y, 31);
    UnshiftedIsWord(b, 27);
    UnshiftedIsWord(a, 30);
    ShiftUndoes(a, 30);
    FirstFactor(v);
    ShiftUndoes(b, 27);
    SecondFactor(u);
    ShiftUndoes(y, 31);
  }

  lemma MixHashIsInjective(x: nat, y: nat)
    requires x < WORD && y < WORD
    ensures MixHash(x) == MixHash(y) <==> x == y
  {
    MixHashIsBijective(x);
    MixHashIsBijective(y);
  }
}
