/** Checked 64-bit addition and alignment. Clearing the low bits of a number is written bit by bit. */
module Alignment {
  import opened Wrappers
  import opened Bits

  const MAXIMUM: nat := 0xffff_ffff_ffff_ffff

  /** A number without the bits below those of `alignment`. */
  function AlignDown(value: nat, alignment: nat): nat
    decreases alignment
  {
    if alignment <= 1 then value else 2 * AlignDown(value / 2, alignment / 2)
  }

  /** None of those bits is set. */
  predicate Aligned(value: nat, alignment: nat)
    decreases alignment
  {
    alignment <= 1 || (value % 2 == 0 && Aligned(value / 2, alignment / 2))
  }

  lemma {:induction false} AlignedIsMultiple(value: nat, alignment: nat)
    requires PowerOfTwo(alignment)
    ensures Aligned(value, alignment) <==> value % alignment == 0
    decreases alignment
  {
    if alignment > 1 {
      var half := alignment / 2;
      AlignedIsMultiple(value / 2, half);
      Halves(value, half);
    }
  }

  /** A number divides by twice another exactly when it is even and its half divides by the other. */
  lemma Halves(value: nat, half: nat)
    requires half > 0
    ensures value % (2 * half) == 0 <==> value % 2 == 0 && (value / 2) % half == 0
  {
    if value % (2 * half) == 0 {
      var q := value / (2 * half);
      assert value == 2 * (half * q);
      MultipleRemainder(q, half);
    }
    if value % 2 == 0 && (value / 2) % half == 0 {
      var q := value / 2 / half;
      assert value / 2 == half * q;
      assert value == (2 * half) * q;
      MultipleRemainder(q, 2 * half);
    }
  }

  lemma MultipleRemainder(q: nat, divisor: nat)
    requires divisor > 0
    ensures (divisor * q) % divisor == 0
  {
    var k, r := (divisor * q) / divisor, (divisor * q) % divisor;
    assert divisor * q == divisor * k + r;
    if q < k {
      ProductGrows(divisor, q, k);
    } else if k < q {
      ProductGrows(divisor, k, q);
    }
  }

  lemma {:induction false} ProductGrows(d: nat, a: nat, b: nat)
    requires a < b
    ensures d * a + d <= d * b
    decreases b
  {
    if a + 1 < b {
      ProductGrows(d, a, b - 1);
    }
    assert d * b == d * (b - 1) + d;
  }

  lemma {:induction false} AlignDownIsAligned(value: nat, alignment: nat)
    ensures Aligned(AlignDown(value, alignment), alignment)
    decreases alignment
  {
    if alignment > 1 {
      AlignDownIsAligned(value / 2, alignment / 2);
      AlignedDouble(AlignDown(value / 2, alignment / 2), alignment);
    }
  }

  lemma AlignedDouble(half: nat, alignment: nat)
    requires Aligned(half, alignment / 2)
    ensures Aligned(2 * half, alignment)
  {
    assert 2 * half % 2 == 0 && 2 * half / 2 == half;
  }

  lemma {:induction false} AlignDownIsClose(value: nat, alignment: nat)
    requires PowerOfTwo(alignment)
    ensures AlignDown(value, alignment) <= value < AlignDown(value, alignment) + alignment
    decreases alignment
  {
    if alignment > 1 {
      AlignDownIsClose(value / 2, alignment / 2);
    }
  }

  lemma {:induction false} AlignedZero(alignment: nat)
    ensures Aligned(0, alignment)
    decreases alignment
  {
    if alignment > 1 {
      AlignedZero(alignment / 2);
    }
  }

  lemma {:induction false} AlignedSelf(alignment: nat)
    requires PowerOfTwo(alignment)
    ensures Aligned(alignment, alignment)
    decreases alignment
  {
    if alignment > 1 {
      AlignedSelf(alignment / 2);
    }
  }

  lemma {:induction false} AlignedSum(a: nat, b: nat, alignment: nat)
    requires Aligned(a, alignment) && Aligned(b, alignment)
    ensures Aligned(a + b, alignment)
    decreases alignment
  {
    if alignment > 1 {
      AlignedSum(a / 2, b / 2, alignment / 2);
    }
  }

  lemma {:induction false} AlignedGap(a: nat, b: nat, alignment: nat)
    requires PowerOfTwo(alignment) && Aligned(a, alignment) && Aligned(b, alignment) && a < b
    ensures a + alignment <= b
    decreases alignment
  {
    if alignment > 1 {
      AlignedGap(a / 2, b / 2, alignment / 2);
    }
  }

  /** What is aligned for the larger is aligned for the smaller. */
  lemma {:induction false} AlignedWeaker(value: nat, smaller: nat, larger: nat)
    requires PowerOfTwo(smaller) && PowerOfTwo(larger) && smaller <= larger && Aligned(value, larger)
    ensures Aligned(value, smaller)
    decreases larger
  {
    if smaller > 1 {
      AlignedWeaker(value / 2, smaller / 2, larger / 2);
    }
  }

  function CheckedAdd(left: nat, right: nat): Option<nat> {
    if left > MAXIMUM - right then None else Some(left + right)
  }

  function CheckedAlign(value: nat, alignment: nat): Option<nat> {
    if !PowerOfTwo(alignment) then None
    else
      var padded := CheckedAdd(value, alignment - 1);
      if padded.None? then None else Some(AlignDown(padded.value, alignment))
  }

  lemma AlignUpIsClose(value: nat, alignment: nat)
    requires PowerOfTwo(alignment)
    ensures var r := AlignDown(value + alignment - 1, alignment);
            value <= r < value + alignment && Aligned(r, alignment)
  {
    AlignDownIsClose(value + alignment - 1, alignment);
    AlignDownIsAligned(value + alignment - 1, alignment);
  }

  /** An aligned number less than one alignment above a value is below every aligned number from the value on. */
  lemma NearestIsLeast(value: nat, r: nat, x: nat, alignment: nat)
    requires PowerOfTwo(alignment) && Aligned(r, alignment) && r < value + alignment
    requires value <= x && Aligned(x, alignment)
    ensures r <= x
  {
    if x < r {
      AlignedGap(x, r, alignment);
    }
  }

  /** Aligning gives a multiple within one alignment of the value; it fails exactly when the alignment is not a
      power of two or the padded value does not fit 64 bits. */
  lemma CheckedAlignIsClose(value: nat, alignment: nat)
    requires value <= MAXIMUM && alignment <= MAXIMUM
    ensures CheckedAlign(value, alignment).None? <==> !PowerOfTwo(alignment) || value + alignment - 1 > MAXIMUM
    ensures CheckedAlign(value, alignment).Some? ==>
              var r := CheckedAlign(value, alignment).value;
              value <= r <= MAXIMUM && r < value + alignment && Aligned(r, alignment)
  {
    if PowerOfTwo(alignment) {
      AlignUpIsClose(value, alignment);
    }
  }
}
