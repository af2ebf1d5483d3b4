/** Word operations on natural numbers: shifts and exclusive or, bit by bit. */
module Bits {
  function Pow2(n: nat): (p: nat)
    ensures p > 0
  {
    if n == 0 then 1 else 2 * Pow2(n - 1)
  }

  function Xor(a: nat, b: nat): nat {
    if a == 0 && b == 0 then 0 else (a % 2 + b % 2) % 2 + 2 * Xor(a / 2, b / 2)
  }

  function Shr(a: nat, k: nat): (r: nat)
    ensures r <= a
  {
    if k == 0 then a else Shr(a / 2, k - 1)
  }

  lemma XorStep(a: nat, b: nat)
    ensures Xor(a, b) % 2 == (a % 2 + b % 2) % 2
    ensures Xor(a, b) / 2 == Xor(a / 2, b / 2)
  {
  }

  lemma {:induction false} XorCancels(a: nat, b: nat)
    ensures Xor(Xor(a, b), b) == a
  {
    if a != 0 || b != 0 {
      XorCancels(a / 2, b / 2);
      XorStep(a, b);
      XorStep(Xor(a, b), b);
      ParityCancels(a % 2, b % 2);
      HalvesAgree(Xor(Xor(a, b), b), a);
    }
  }

  lemma ParityCancels(a: nat, b: nat)
    requires a < 2 && b < 2
    ensures ((a + b) % 2 + b) % 2 == a
  {
  }

  lemma HalvesAgree(a: nat, b: nat)
    requires a % 2 == b % 2 && a / 2 == b / 2
    ensures a == b
  {
  }

  lemma {:induction false} ShrOfXor(a: nat, b: nat, k: nat)
    ensures Shr(Xor(a, b), k) == Xor(Shr(a, k), Shr(b, k))
    decreases k
  {
    if k > 0 {
      ShrOfXor(a / 2, b / 2, k - 1);
      assert Xor(a, b) / 2 == Xor(a / 2, b / 2);
    }
  }

  lemma {:induction false} XorBound(a: nat, b: nat, n: nat)
    requires a < Pow2(n) && b < Pow2(n)
    ensures Xor(a, b) < Pow2(n)
  {
    if n > 0 {
      XorBound(a / 2, b / 2, n - 1);
    }
  }

  /** The word `x` with `Xor(x, Shr(x, k)) == y`. */
  function Unshift(y: nat, k: nat): nat
    requires k > 0
    decreases y
  {
    if y == 0 then 0 else ShrShrinks(y, k); Xor(y, Unshift(Shr(y, k), k))
  }

  lemma ShrShrinks(y: nat, k: nat)
    requires k > 0 && y > 0
    ensures Shr(y, k) < y
  {
  }

  /** Xor with one's own shift loses nothing, whatever the shift and the width. */
  lemma {:induction false} UnshiftUndoes(x: nat, k: nat)
    requires k > 0
    ensures Unshift(Xor(x, Shr(x, k)), k) == x
    decreases x
  {
    var y := Xor(x, Shr(x, k));
    if x > 0 {
      ShrShrinks(x, k);
      UnshiftUndoes(Shr(x, k), k);
      ShrOfXor(x, Shr(x, k), k);
      assert Unshift(Shr(y, k), k) == Shr(x, k);
      XorCancels(x, Shr(x, k));
      if y == 0 {
        XorOfEqual(x, Shr(x, k));
      }
    }
  }

  lemma XorOfEqual(a: nat, b: nat)
    requires Xor(a, b) == 0
    ensures a == b
  {
    XorCancels(a, b);
    XorZero(b);
  }

  lemma {:induction false} XorZero(b: nat)
    ensures Xor(0, b) == b
  {
    if b > 0 { XorZero(b / 2); }
  }

  lemma {:induction false} ShiftUndoes(y: nat, k: nat)
    requires k > 0
    ensures Xor(Unshift(y, k), Shr(Unshift(y, k), k)) == y
    decreases y
  {
    if y > 0 {
      ShrShrinks(y, k);
      var z := Unshift(Shr(y, k), k);
      ShiftUndoes(Shr(y, k), k);
      ShrOfXor(y, z, k);
      XorCancels(Shr(y, k), Shr(z, k));
      XorCommutes(z, Shr(z, k));
      assert Shr(Unshift(y, k), k) == Xor(Shr(y, k), Shr(z, k));
      XorCancels(z, Shr(z, k));
      XorCancels(y, z);
    } else {
      assert Unshift(y, k) == 0;
    }
  }

  lemma {:induction false} XorCommutes(a: nat, b: nat)
    ensures Xor(a, b) == Xor(b, a)
  {
    if a != 0 || b != 0 { XorCommutes(a / 2, b / 2); }
  }

  predicate PowerOfTwo(n: nat) {
    n == 1 || (n > 1 && n % 2 == 0 && PowerOfTwo(n / 2))
  }

  function Power256(k: nat): (p: nat)
    ensures p > 0
  {
    if k == 0 then 1 else 256 * Power256(k - 1)
  }

  function And(a: nat, b: nat): nat {
    if a == 0 || b == 0 then 0 else (if a % 2 == 1 && b % 2 == 1 then 1 else 0) + 2 * And(a / 2, b / 2)
  }

  // ----- bits -----

  /** Bit number `k`, from the lowest. */
  predicate Bit(a: nat, k: nat) {
    Shr(a, k) % 2 == 1
  }

  lemma {:induction false} ShrAdds(a: nat, j: nat, k: nat)
    ensures Shr(Shr(a, j), k) == Shr(a, j + k)
    decreases j
  {
    if j > 0 {
      ShrAdds(a / 2, j - 1, k);
    }
  }

  lemma {:induction false} ShrOfSmall(a: nat, k: nat)
    requires a < Pow2(k)
    ensures Shr(a, k) == 0
    decreases k
  {
    if k > 0 {
      ShrOfSmall(a / 2, k - 1);
    }
  }

  /** A bit at a place. */
  function Place(bit: bool, m: nat): nat {
    if bit then Pow2(m) else 0
  }

  lemma PlaceHalves(a: nat, bit: bool, m: nat)
    requires m > 0
    ensures (a + Place(bit, m)) / 2 == a / 2 + Place(bit, m - 1) && (a + Place(bit, m)) % 2 == a % 2
  {
    var half := Pow2(m - 1);
    assert Pow2(m) == 2 * half;
    assert (a + 2 * half) / 2 == a / 2 + half;
  }

  /** A bit `m` places up changes no lower bit and moves down with a shift. */
  lemma {:induction false} ShrOfSum(a: nat, bit: bool, m: nat, k: nat)
    requires k <= m
    ensures Shr(a + Place(bit, m), k) == Shr(a, k) + Place(bit, m - k)
    decreases k
  {
    if k > 0 {
      PlaceHalves(a, bit, m);
      ShrOfSum(a / 2, bit, m - 1, k - 1);
    }
  }

  /** Exclusive or, bit by bit. */
  lemma BitOfXor(a: nat, b: nat, k: nat)
    ensures Bit(Xor(a, b), k) <==> Bit(a, k) != Bit(b, k)
  {
    ShrOfXor(a, b, k);
    XorIsOdd(Shr(a, k), Shr(b, k));
  }

  lemma XorIsOdd(a: nat, b: nat)
    ensures Xor(a, b) % 2 == 1 <==> (a % 2 == 1) != (b % 2 == 1)
  {
    XorStep(a, b);
  }

  lemma AndIsOdd(a: nat, b: nat)
    ensures And(a, b) % 2 == 1 <==> a % 2 == 1 && b % 2 == 1
  {
  }

  lemma {:induction false} ShrOfAnd(a: nat, b: nat, k: nat)
    ensures Shr(And(a, b), k) == And(Shr(a, k), Shr(b, k))
    decreases k
  {
    if k > 0 {
      assert And(a, b) / 2 == And(a / 2, b / 2);
      ShrOfAnd(a / 2, b / 2, k - 1);
    }
  }

  /** Conjunction, bit by bit. */
  lemma BitOfAnd(a: nat, b: nat, k: nat)
    ensures Bit(And(a, b), k) <==> Bit(a, k) && Bit(b, k)
  {
    ShrOfAnd(a, b, k);
    AndIsOdd(Shr(a, k), Shr(b, k));
  }

  /** Subtracting from all ones turns every bit around. */
  lemma {:induction false} BitOfComplement(a: nat, n: nat, k: nat)
    requires a < Pow2(n) && k < n
    ensures Bit(Pow2(n) - 1 - a, k) <==> !Bit(a, k)
    decreases k
  {
    var c := Pow2(n) - 1 - a;
    if k > 0 {
      assert c / 2 == Pow2(n - 1) - 1 - a / 2;
      BitOfComplement(a / 2, n - 1, k - 1);
    }
  }
}
