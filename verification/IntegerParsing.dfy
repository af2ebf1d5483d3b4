/** Integer parsing in the runtime, proved exact against the grammar and the mathematical value. */
module IntegerParsing {
  datatype Width = W8 | W16 | W32 | W64

  datatype IntegerType = IntegerType(width: Width, signed: bool)

  datatype Outcome = Value(bits: nat) | Invalid | OutOfRange

  const WORD: nat := 0x1_0000_0000_0000_0000

  /** Two to the width. */
  function Modulus(width: Width): nat {
    match width
    case W8 => 0x100
    case W16 => 0x1_0000
    case W32 => 0x1_0000_0000
    case W64 => WORD
  }

  function BitsIn(width: Width): nat {
    match width
    case W8 => 8
    case W16 => 16
    case W32 => 32
    case W64 => 64
  }

  function PowerOf(radix: nat, n: nat): nat {
    if n == 0 then 1 else radix * PowerOf(radix, n - 1)
  }

  lemma ModulusIsPower(width: Width)
    ensures Modulus(width) == PowerOf(2, BitsIn(width))
  {
    EightTwos(0);
    EightTwos(8);
    if width.W32? || width.W64? {
      EightTwos(16);
      EightTwos(24);
    }
    if width.W64? {
      EightTwos(32);
      EightTwos(40);
      EightTwos(48);
      EightTwos(56);
    }
  }

  lemma EightTwos(n: nat)
    ensures PowerOf(2, n + 8) == 256 * PowerOf(2, n)
  {
    assert PowerOf(2, n + 2) == 2 * PowerOf(2, n + 1) == 4 * PowerOf(2, n);
    assert PowerOf(2, n + 4) == 2 * PowerOf(2, n + 3) == 4 * PowerOf(2, n + 2);
    assert PowerOf(2, n + 6) == 2 * PowerOf(2, n + 5) == 4 * PowerOf(2, n + 4);
    assert PowerOf(2, n + 8) == 2 * PowerOf(2, n + 7) == 4 * PowerOf(2, n + 6);
  }

  // ----- the grammar and its values -----

  function DigitValue(c: char): int {
    if '0' <= c <= '9' then c as int - '0' as int
    else if 'a' <= c <= 'f' then c as int - 'a' as int + 10
    else if 'A' <= c <= 'F' then c as int - 'A' as int + 10
    else -1
  }

  /** The digits in order, in either case. */
  lemma DigitsInOrder(k: nat)
    requires k < 16
    ensures DigitValue("0123456789abcdef"[k]) == k && DigitValue("0123456789ABCDEF"[k]) == k
  {
  }

  lemma NoOtherDigits(c: char)
    requires DigitValue(c) != -1
    ensures 0 <= DigitValue(c) < 16
    ensures c == "0123456789abcdef"[DigitValue(c)] || c == "0123456789ABCDEF"[DigitValue(c)]
  {
  }

  predicate IsDigit(c: char, radix: nat) {
    0 <= DigitValue(c) < radix
  }

  /** A sign, then a radix prefix, then the rest: what a text is read as. */
  datatype Numeral = Numeral(negative: bool, radix: nat, body: string)

  function RadixOf(s: string): nat {
    if |s| < 2 || s[0] != '0' then 10
    else if s[1] == 'b' then 2
    else if s[1] == 'o' then 8
    else if s[1] == 'x' then 16
    else 10
  }

  function Split(text: string): Numeral {
    var signed := text != "" && (text[0] == '+' || text[0] == '-');
    var rest := if signed then text[1..] else text;
    var radix := RadixOf(rest);
    Numeral(signed && text[0] == '-', radix, if radix == 10 then rest else rest[2..])
  }

  /** A digit, or an underscore with a digit on either side. */
  predicate Allowed(s: string, k: nat, radix: nat)
    requires k < |s|
  {
    || IsDigit(s[k], radix)
    || (s[k] == '_' && 0 < k < |s| - 1 && IsDigit(s[k - 1], radix) && IsDigit(s[k + 1], radix))
  }

  ghost predicate IsBody(s: string, radix: nat) {
    s != "" && forall k :: 0 <= k < |s| ==> Allowed(s, k, radix)
  }

  ghost predicate InGrammar(text: string, t: IntegerType) {
    var n := Split(text);
    (n.negative ==> t.signed) && IsBody(n.body, n.radix)
  }

  /** The number the digits of a body spell, underscores skipped. */
  function Magnitude(s: string, radix: nat): nat {
    if s == "" then 0
    else
      var before := Magnitude(s[..|s| - 1], radix);
      var digit := DigitValue(s[|s| - 1]);
      if 0 <= digit < radix then before * radix + digit else before
  }

  function Signed(negative: bool, magnitude: nat): int {
    if negative then 0 - magnitude else magnitude
  }

  function MathematicalValue(text: string): int {
    var n := Split(text);
    Signed(n.negative, Magnitude(n.body, n.radix))
  }

  predicate InRange(v: int, t: IntegerType) {
    if t.signed then -(Modulus(t.width) / 2) <= v < Modulus(t.width) / 2 else 0 <= v < Modulus(t.width)
  }

  // ----- the parser -----

  predicate Known(radix: nat) {
    radix == 2 || radix == 8 || radix == 10 || radix == 16
  }

  /** The overflow test of one digit is exact, and neither it nor the update leaves 64 bits. */
  lemma DigitStep(magnitude: nat, limit: nat, radix: nat, digit: nat)
    requires Known(radix) && digit < radix && 127 <= limit < WORD && magnitude <= limit
    ensures digit <= limit
    ensures magnitude > (limit - digit) / radix <==> magnitude * radix + digit > limit
  {
  }

  lemma MagnitudeStep(s: string, k: nat, radix: nat)
    requires k < |s| && Known(radix)
    ensures Magnitude(s[..k + 1], radix)
         == if IsDigit(s[k], radix) then Magnitude(s[..k], radix) * radix + DigitValue(s[k])
           else Magnitude(s[..k], radix)
    ensures Magnitude(s[..k + 1], radix) >= Magnitude(s[..k], radix)
  {
    assert s[..k + 1][..k] == s[..k] && s[..k + 1][k] == s[k];
    Grows(Magnitude(s[..k], radix), radix);
  }

  lemma Grows(m: nat, radix: nat)
    requires Known(radix)
    ensures m * radix >= m
  {
  }

  lemma AfterUnderscore(s: string, k: nat, radix: nat)
    requires 0 < k < |s| && s[k] == '_' && Allowed(s, k - 1, radix)
    ensures IsDigit(s[k - 1], radix)
  {
  }

  /** The digit loop. The result is none when the body does not fit the grammar; otherwise its magnitude,
      or the fact that it passes the limit. */
  method ReadDigits(body: string, radix: nat, limit: nat) returns (fits: bool, inRange: bool, magnitude: nat)
    requires Known(radix) && 127 <= limit < WORD
    ensures fits <==> IsBody(body, radix)
    ensures fits ==> (inRange <==> Magnitude(body, radix) <= limit)
    ensures fits && inRange ==> magnitude == Magnitude(body, radix)
  {
    magnitude := 0;
    var index, hasDigit, outOfRange := 0, false, false;
    while index < |body|
      invariant index <= |body| && (hasDigit <==> index > 0)
      invariant forall k :: 0 <= k < index ==> Allowed(body, k, radix)
      invariant if outOfRange then Magnitude(body[..index], radix) > limit
                else magnitude == Magnitude(body[..index], radix) <= limit
    {
      var digit := DigitValue(body[index]);
      MagnitudeStep(body, index, radix);
      if 0 <= digit < radix {
        hasDigit := true;
        if !outOfRange {
          DigitStep(magnitude, limit, radix, digit);
          if magnitude > (limit - digit) / radix {
            outOfRange := true;
          } else {
            magnitude := magnitude * radix + digit;
          }
        }
        index := index + 1;
      } else {
        if body[index] != '_' || !hasDigit || index + 1 == |body| {
          assert !Allowed(body, index, radix);
          return false, false, 0;
        }
        var next := DigitValue(body[index + 1]);
        if next < 0 || next >= radix {
          assert !Allowed(body, index, radix);
          return false, false, 0;
        }
        AfterUnderscore(body, index, radix);
        index := index + 1;
      }
    }
    assert body[..|body|] == body;
    if !hasDigit {
      return false, false, 0;
    }
    return true, !outOfRange, magnitude;
  }

  method ReadPrefix(text: string) returns (negative: bool, radix: nat, body: string)
    ensures Split(text) == Numeral(negative, radix, body)
  {
    var index := 0;
    negative := false;
    if index < |text| && (text[index] == '+' || text[index] == '-') {
      negative := text[index] == '-';
      index := index + 1;
    }
    ghost var rest := text[index..];
    radix := 10;
    assert |rest| == |text| - index && forall k :: 0 <= k < |rest| ==> rest[k] == text[index + k];
    if |text| - index >= 2 && text[index] == '0' {
      if text[index + 1] == 'b' {
        radix := 2;
      } else if text[index + 1] == 'o' {
        radix := 8;
      } else if text[index + 1] == 'x' {
        radix := 16;
      }
      if radix != 10 {
        index := index + 2;
        assert text[index..] == rest[2..];
      }
    }
    assert radix == RadixOf(rest);
    body := text[index..];
  }

  /** The largest magnitude a type admits with a sign. */
  function Limit(t: IntegerType, negative: bool): nat {
    if t.signed then Modulus(t.width) / 2 - 1 + (if negative then 1 else 0) else Modulus(t.width) - 1
  }

  lemma LimitIsRange(t: IntegerType, negative: bool, magnitude: nat)
    requires negative ==> t.signed
    ensures 127 <= Limit(t, negative) < WORD
    ensures magnitude <= Limit(t, negative) <==> InRange(Signed(negative, magnitude), t)
  {
  }

  /** Complement, add one, mask. */
  function Bits(t: IntegerType, negative: bool, magnitude: nat): nat
    requires magnitude < WORD
  {
    if negative then ((WORD - 1 - magnitude) + 1) % WORD % Modulus(t.width) else magnitude
  }

  lemma BitsAreResidue(t: IntegerType, negative: bool, magnitude: nat)
    requires (negative ==> t.signed) && magnitude <= Limit(t, negative) < WORD
    ensures Bits(t, negative, magnitude) == Signed(negative, magnitude) % Modulus(t.width) < Modulus(t.width)
  {
    match t.width
    case W8 => if negative { Complement(magnitude, 0x100); }
    case W16 => if negative { Complement(magnitude, 0x1_0000); }
    case W32 => if negative { Complement(magnitude, 0x1_0000_0000); }
    case W64 => if negative { Complement(magnitude, WORD); }
  }

  lemma Complement(magnitude: nat, modulus: nat)
    requires modulus == 0x100 || modulus == 0x1_0000 || modulus == 0x1_0000_0000 || modulus == WORD
    requires magnitude <= modulus / 2
    ensures ((WORD - 1 - magnitude) + 1) % WORD % modulus == (if magnitude == 0 then 0 else modulus - magnitude)
    ensures (0 - magnitude) % modulus == (if magnitude == 0 then 0 else modulus - magnitude)
  {
    if modulus == 0x100 {
      assert (WORD - magnitude) % 0x100 == (0 - magnitude) % 0x100;
    } else if modulus == 0x1_0000 {
      assert (WORD - magnitude) % 0x1_0000 == (0 - magnitude) % 0x1_0000;
    } else if modulus == 0x1_0000_0000 {
      assert (WORD - magnitude) % 0x1_0000_0000 == (0 - magnitude) % 0x1_0000_0000;
    }
  }

  method ParseInteger(text: string, t: IntegerType) returns (r: Outcome)
    ensures r.Invalid? <==> !InGrammar(text, t)
    ensures r.OutOfRange? <==> InGrammar(text, t) && !InRange(MathematicalValue(text), t)
    ensures r.Value? ==> r.bits == MathematicalValue(text) % Modulus(t.width) < Modulus(t.width)
  {
    var negative, radix, body := ReadPrefix(text);
    if negative && !t.signed {
      return Invalid;
    }
    LimitIsRange(t, negative, Magnitude(body, radix));
    var fits, inRange, magnitude := ReadDigits(body, radix, Limit(t, negative));
    if !fits {
      return Invalid;
    }
    if !inRange {
      return OutOfRange;
    }
    BitsAreResidue(t, negative, magnitude);
    return Value(Bits(t, negative, magnitude));
  }
}
