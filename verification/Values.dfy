/** Structural equality and hashing of boxed values: both are functions of what the bytes stand for, so equal values
    hash alike, and equality is symmetric and transitive and fails to be reflexive exactly where a NaN is met. */
module Values {
  import opened Wrappers
  import opened Bits
  import opened Hashing

  type Bytes = seq<Byte>

  datatype Kind =
    | Unsigned(width: nat)
    | Signed(width: nat)
    | Float32
    | Float64
    | StringKind
    | ReferenceKind
    | StructKind
    | NullableKind

  datatype Layout = Layout(kind: Kind, size: nat, name: Bytes, fields: seq<FieldLayout>)

  datatype FieldLayout = FieldLayout(offset: nat, layout: Layout)

  const POINTER_SIZE: nat := 8
  const MAXIMUM_DEPTH: nat := 128

  /** What validation of a layout tree leaves: scalars of their sizes, fields inside the value, one payload behind the
      tag of a nullable. */
  predicate Valid(l: Layout) {
    && l.size > 0 && ScalarFits(l.kind, l.size)
    && (l.kind.NullableKind? ==> |l.fields| == 1 && l.fields[0].offset >= 1)
    && forall i :: 0 <= i < |l.fields| ==>
        Valid(l.fields[i].layout) && l.fields[i].offset + l.fields[i].layout.size <= l.size
  }

  predicate ScalarFits(kind: Kind, size: nat) {
    match kind
    case Unsigned(width) => size == width && width in {1, 2, 4, 8}
    case Signed(width) => size == width && width in {1, 2, 4, 8}
    case Float32 => size == 4
    case Float64 => size == 8
    case StringKind => size == POINTER_SIZE
    case ReferenceKind => size == POINTER_SIZE
    case _ => true
  }

  /** The heap as equality and hashing see it: the bytes of the strings and the identities of the objects. */
  datatype Heap = Heap(strings: map<nat, Bytes>, identities: map<nat, nat>)

  /** The word that bytes spell, least significant first. */
  function Load(bytes: Bytes): nat {
    if bytes == [] then 0 else bytes[0] + 256 * Load(bytes[1..])
  }

  /** The bytes of a field. */
  function Part(bytes: Bytes, f: FieldLayout): (r: Bytes)
    requires f.offset + f.layout.size <= |bytes|
    ensures |r| == f.layout.size && forall k :: 0 <= k < |r| ==> r[k] == bytes[f.offset + k]
  {
    bytes[f.offset..f.offset + f.layout.size]
  }

  // ----- floating point, as bit patterns -----

  predicate IsNaN(kind: Kind, bits: nat) {
    if kind.Float32? then bits / 0x80_0000 % 0x100 == 0xff && bits % 0x80_0000 != 0
    else bits / 0x10_0000_0000_0000 % 0x800 == 0x7ff && bits % 0x10_0000_0000_0000 != 0
  }

  /** Either zero. */
  predicate IsZero(kind: Kind, bits: nat) {
    if kind.Float32? then bits % 0x8000_0000 == 0 else bits % 0x8000_0000_0000_0000 == 0
  }

  predicate FloatEqual(kind: Kind, left: nat, right: nat) {
    !IsNaN(kind, left) && !IsNaN(kind, right) && (left == right || (IsZero(kind, left) && IsZero(kind, right)))
  }

  // ----- equality and hashing as they run; none is a runtime failure -----

  function StringEqual(heap: Heap, left: nat, right: nat): Option<bool> {
    if left == right then Some(true)
    else if left == 0 || right == 0 then Some(false)
    else if left !in heap.strings || right !in heap.strings then None
    else Some(heap.strings[left] == heap.strings[right])
  }

  function ValuesEqual(heap: Heap, l: Layout, left: Bytes, right: Bytes, depth: nat): Option<bool>
    requires Valid(l) && |left| == |right| == l.size
    decreases l, 0
  {
    if depth > MAXIMUM_DEPTH then None
    else
      match l.kind
      case Unsigned(_) => Some(Load(left) == Load(right))
      case Signed(_) => Some(Load(left) == Load(right))
      case Float32 => Some(FloatEqual(l.kind, Load(left), Load(right)))
      case Float64 => Some(FloatEqual(l.kind, Load(left), Load(right)))
      case StringKind => StringEqual(heap, Load(left), Load(right))
      case ReferenceKind => Some(Load(left) == Load(right))
      case StructKind => FieldsEqual(heap, l, 0, left, right, depth)
      case NullableKind =>
        if left[0] > 1 || right[0] > 1 then None
        else if left[0] != right[0] || left[0] == 0 then Some(left[0] == right[0])
        else ValuesEqual(heap, l.fields[0].layout, Part(left, l.fields[0]), Part(right, l.fields[0]), depth + 1)
  }

  function FieldsEqual(heap: Heap, l: Layout, i: nat, left: Bytes, right: Bytes, depth: nat): Option<bool>
    requires Valid(l) && |left| == |right| == l.size && i <= |l.fields|
    decreases l, 0, |l.fields| - i
  {
    if i == |l.fields| then Some(true)
    else
      var f := l.fields[i];
      var same := ValuesEqual(heap, f.layout, Part(left, f), Part(right, f), depth + 1);
      if same == Some(true) then FieldsEqual(heap, l, i + 1, left, right, depth) else same
  }

  function CombineHash(left: nat, right: nat): nat {
    MixHash(Xor(left, (right + 0x9e37_79b9_7f4a_7c15 + left * 64 + left / 4) % WORD))
  }

  /** Fowler, Noll and Vo's hash of bytes, from its offset basis. */
  function Scramble(bytes: Bytes): nat {
    if bytes == [] then 0xcbf2_9ce4_8422_2325
    else Multiply(Xor(Scramble(bytes[..|bytes| - 1]), bytes[|bytes| - 1]), 0x100_0000_01b3)
  }

  function HashBytes(bytes: Bytes): nat {
    MixHash(Scramble(bytes))
  }

  function HashString(bytes: Bytes): nat {
    MixHash(Xor(Scramble(bytes), 0x7374_7269_6e67))
  }

  /** A signed number of some bytes as a 64-bit word. */
  function Extend(width: nat, bits: nat): nat {
    if width < 8 && bits >= Power256(width) / 2 then (bits + (WORD - Power256(width))) % WORD else bits
  }

  function HashReference(heap: Heap, address: nat): Option<nat> {
    if address == 0 then Some(0)
    else if address in heap.identities then Some(MixHash(heap.identities[address])) else None
  }

  function ValueHash(heap: Heap, l: Layout, bytes: Bytes, depth: nat): Option<nat>
    requires Valid(l) && |bytes| == l.size
    decreases l, 0
  {
    if depth > MAXIMUM_DEPTH then None
    else
      match l.kind
      case Unsigned(_) => Some(MixHash(Load(bytes)))
      case Signed(width) => Some(MixHash(Extend(width, Load(bytes))))
      case Float32 => Some(MixHash(if IsZero(l.kind, Load(bytes)) then 0 else Load(bytes)))
      case Float64 => Some(MixHash(if IsZero(l.kind, Load(bytes)) then 0 else Load(bytes)))
      case StringKind =>
        if Load(bytes) == 0 then Some(0)
        else if Load(bytes) in heap.strings then Some(HashString(heap.strings[Load(bytes)])) else None
      case ReferenceKind => HashReference(heap, Load(bytes))
      case StructKind => HashFields(heap, l, 0, HashBytes(l.name), bytes, depth)
      case NullableKind =>
        if bytes[0] > 1 then None
        else if bytes[0] == 0 then Some(MixHash(0))
        else
          var payload := ValueHash(heap, l.fields[0].layout, Part(bytes, l.fields[0]), depth + 1);
          if payload.None? then None else Some(CombineHash(MixHash(1), payload.value))
  }

  function HashFields(heap: Heap, l: Layout, i: nat, hash: nat, bytes: Bytes, depth: nat): Option<nat>
    requires Valid(l) && |bytes| == l.size && i <= |l.fields|
    decreases l, 0, |l.fields| - i
  {
    if i == |l.fields| then Some(hash)
    else
      var f := l.fields[i];
      var part := ValueHash(heap, f.layout, Part(bytes, f), depth + 1);
      if part.None? then None else HashFields(heap, l, i + 1, CombineHash(hash, part.value), bytes, depth)
  }

  // ----- what bytes stand for -----

  /** What a bit pattern denotes: infinities, and numbers as multiples of the least positive one. */
  datatype Denoted = NaN | Infinite(negative: bool) | Finite(multiple: int)

  datatype Meaning =
    | Number(number: int)
    | Real(denoted: Denoted)
    | NoText
    | Text(content: Bytes)
    | Dangling(address: nat)
    | Object(address: nat)
    | Record(parts: seq<Meaning>)
    | Absent
    | Present(value: Meaning)
    | Broken

  /** A number in two's complement. */
  function SignedValue(width: nat, bits: nat): int {
    if bits >= Power256(width) / 2 then bits - Power256(width) else bits
  }

  /** How many fractions and how many exponents the format has. */
  function Fractions(kind: Kind): (n: nat)
    ensures n > 0
  {
    if kind.Float32? then 0x80_0000 else 0x10_0000_0000_0000
  }

  function Exponents(kind: Kind): (n: nat)
    ensures n > 1
  {
    if kind.Float32? then 0x100 else 0x800
  }

  /** Sign, exponent and fraction of a bit pattern, as IEEE 754 lays them out. */
  datatype Parts = Parts(negative: bool, exponent: nat, fraction: nat)

  function PartsOf(kind: Kind, bits: nat): Parts {
    var units, exponents := Fractions(kind), Exponents(kind);
    Parts(bits / units / exponents % 2 == 1, bits / units % exponents, bits % units)
  }

  /** All exponent bits set stand for an infinity or for no number, none for a fraction alone, and others add one before
      the fraction. */
  function Denote(kind: Kind, p: Parts): Denoted {
    if p.exponent == Exponents(kind) - 1 then (if p.fraction == 0 then Infinite(p.negative) else NaN)
    else
      var magnitude: int := Magnitude(Fractions(kind), p.exponent, p.fraction);
      Finite(if p.negative then -magnitude else magnitude)
  }

  function Denotation(kind: Kind, bits: nat): Denoted {
    Denote(kind, PartsOf(kind, bits))
  }

  function Magnitude(units: nat, exponent: nat, fraction: nat): nat {
    if exponent == 0 then fraction else (units + fraction) * Pow2(exponent - 1)
  }

  function MeaningOf(heap: Heap, l: Layout, bytes: Bytes, depth: nat): Meaning
    requires Valid(l) && |bytes| == l.size
    decreases l, 0
  {
    if depth > MAXIMUM_DEPTH then Broken
    else
      match l.kind
      case Unsigned(_) => Number(Load(bytes))
      case Signed(width) => Number(SignedValue(width, Load(bytes)))
      case Float32 => Real(Denotation(l.kind, Load(bytes)))
      case Float64 => Real(Denotation(l.kind, Load(bytes)))
      case StringKind => TextMeaning(heap, Load(bytes))
      case ReferenceKind => Object(Load(bytes))
      case StructKind => Record(PartMeanings(heap, l, 0, bytes, depth))
      case NullableKind =>
        if bytes[0] > 1 then Broken
        else if bytes[0] == 0 then Absent
        else Present(MeaningOf(heap, l.fields[0].layout, Part(bytes, l.fields[0]), depth + 1))
  }

  function TextMeaning(heap: Heap, address: nat): Meaning {
    if address == 0 then NoText else if address in heap.strings then Text(heap.strings[address]) else Dangling(address)
  }

  function PartMeanings(heap: Heap, l: Layout, i: nat, bytes: Bytes, depth: nat): (r: seq<Meaning>)
    requires Valid(l) && |bytes| == l.size && i <= |l.fields|
    ensures |r| == |l.fields| - i
    decreases l, 0, |l.fields| - i
  {
    if i == |l.fields| then []
    else
      [MeaningOf(heap, l.fields[i].layout, Part(bytes, l.fields[i]), depth + 1)]
      + PartMeanings(heap, l, i + 1, bytes, depth)
  }

  /** No NaN, no invalid tag and no nesting beyond the limit is met. */
  predicate Ordinary(m: Meaning) {
    match m
    case Real(denoted) => !denoted.NaN?
    case Broken => false
    case Record(parts) => AllOrdinary(parts)
    case Present(value) => Ordinary(value)
    case _ => true
  }

  predicate AllOrdinary(parts: seq<Meaning>) {
    parts == [] || (Ordinary(parts[0]) && AllOrdinary(parts[1..]))
  }

  // ----- equality is equality of meaning -----

  lemma {:induction false} LoadBound(bytes: Bytes)
    ensures Load(bytes) < Power256(|bytes|)
  {
    if bytes != [] {
      LoadBound(bytes[1..]);
    }
  }

  /** Byte strings of one length spell the same word only when they are the same. */
  lemma {:induction false} LoadIsInjective(left: Bytes, right: Bytes)
    requires |left| == |right|
    ensures Load(left) == Load(right) <==> left == right
  {
    if left != [] {
      LoadIsInjective(left[1..], right[1..]);
      assert left == [left[0]] + left[1..] && right == [right[0]] + right[1..];
    }
  }

  lemma WidthPowers()
    ensures Power256(1) == 0x100 && Power256(2) == 0x1_0000 && Power256(4) == WORD32 && Power256(8) == WORD
  {
    assert Power256(2) == 256 * Power256(1);
    assert Power256(4) == 256 * Power256(3) && Power256(3) == 256 * Power256(2);
    assert Power256(6) == 256 * Power256(5) && Power256(5) == 256 * Power256(4);
    assert Power256(8) == 256 * Power256(7) && Power256(7) == 256 * Power256(6);
  }

  const WORD32: nat := 0x1_0000_0000

  lemma LoadFits(l: Layout, bytes: Bytes)
    requires Valid(l) && |bytes| == l.size && IsScalar(l.kind)
    ensures Load(bytes) < WORD && (l.kind.Float32? ==> Load(bytes) < WORD32)
    ensures l.kind.Signed? ==> Load(bytes) < Power256(l.kind.width) <= WORD && l.kind.width <= 8
  {
    LoadBound(bytes);
    WidthPowers();
  }

  predicate IsScalar(kind: Kind) {
    !kind.StructKind? && !kind.NullableKind?
  }

  lemma SignedIsInjective(width: nat, left: nat, right: nat)
    requires left < Power256(width) && right < Power256(width)
    ensures SignedValue(width, left) == SignedValue(width, right) <==> left == right
  {
  }

  /** Integers and references are equal exactly when their bytes are. */
  lemma EqualBytes(heap: Heap, l: Layout, left: Bytes, right: Bytes, depth: nat)
    requires Valid(l) && |left| == |right| == l.size && depth <= MAXIMUM_DEPTH
    requires l.kind.Unsigned? || l.kind.Signed? || l.kind.ReferenceKind?
    ensures ValuesEqual(heap, l, left, right, depth) == Some(left == right)
  {
    LoadIsInjective(left, right);
  }

  // ----- floating point by value -----

  lemma {:induction false} PowerGrows(m: nat, n: nat)
    requires m <= n
    ensures Pow2(m) <= Pow2(n)
  {
    if m < n {
      PowerGrows(m, n - 1);
    }
  }

  lemma MagnitudeGrows(units: nat, e1: nat, f1: nat, e2: nat, f2: nat)
    requires e1 < e2 && f1 < units && f2 < units
    ensures Magnitude(units, e1, f1) < Magnitude(units, e2, f2)
  {
    var high := Pow2(e2 - 1);
    AtLeast(units, f2, high);
    if e1 == 0 {
      AtLeast(units, 0, high);
    } else {
      var low := Pow2(e1 - 1);
      PowerGrows(e1, e2 - 1);
      LessThanTwice(units, f1, low);
      ScaledGrows(units, 2 * low, high);
    }
  }

  lemma AtLeast(units: nat, f: nat, scale: nat)
    requires scale > 0
    ensures units <= units * scale <= (units + f) * scale
  {
    assert (units + f) * scale == units * scale + f * scale;
    assert units * scale == units + units * (scale - 1);
  }

  lemma LessThanTwice(units: nat, f: nat, scale: nat)
    requires f < units && scale > 0
    ensures (units + f) * scale < units * (2 * scale)
  {
    Regroup(units, f, scale);
    LessScaled(f, units, scale);
  }

  lemma Regroup(units: nat, f: nat, scale: nat)
    ensures (units + f) * scale == units * scale + f * scale && units * (2 * scale) == units * scale + units * scale
  {
  }

  lemma LessScaled(a: nat, b: nat, scale: nat)
    requires a < b && scale > 0
    ensures a * scale < b * scale
  {
    var gap := b - a;
    assert b * scale == (a + gap) * scale == a * scale + gap * scale;
    assert gap * scale > 0;
  }

  lemma ScaledGrows(units: nat, a: nat, b: nat)
    requires a <= b
    ensures units * a <= units * b
  {
    assert units * b == units * a + units * (b - a);
  }

  /** No two pairs of exponent and fraction denote the same magnitude. */
  lemma MagnitudeIsInjective(units: nat, e1: nat, f1: nat, e2: nat, f2: nat)
    requires f1 < units && f2 < units && Magnitude(units, e1, f1) == Magnitude(units, e2, f2)
    ensures e1 == e2 && f1 == f2
  {
    if e1 < e2 {
      MagnitudeGrows(units, e1, f1, e2, f2);
    } else if e2 < e1 {
      MagnitudeGrows(units, e2, f2, e1, f1);
    } else if e1 > 0 {
      Cancel(units + f1, units + f2, Pow2(e1 - 1));
    }
  }

  lemma Cancel(a: nat, b: nat, scale: nat)
    requires scale > 0 && a * scale == b * scale
    ensures a == b
  {
    if a < b {
      LessScaled(a, b, scale);
    } else if b < a {
      LessScaled(b, a, scale);
    }
  }

  lemma MagnitudeIsZero(units: nat, e: nat, f: nat)
    requires f < units
    ensures Magnitude(units, e, f) == 0 <==> e == 0 && f == 0
  {
    if e > 0 {
      AtLeast(units, f, Pow2(e - 1));
    }
  }

  predicate Fits(kind: Kind, bits: nat) {
    bits < if kind.Float32? then WORD32 else WORD
  }

  lemma PartsAreBits(kind: Kind, left: nat, right: nat)
    requires Fits(kind, left) && Fits(kind, right)
    ensures left == right <==> PartsOf(kind, left) == PartsOf(kind, right)
  {
    RejoinParts(kind, left);
    RejoinParts(kind, right);
  }

  lemma RejoinParts(kind: Kind, bits: nat)
    requires Fits(kind, bits)
    ensures var units, p := Fractions(kind), PartsOf(kind, bits);
            && p.fraction < units && p.exponent < Exponents(kind)
            && bits == (if p.negative then (if kind.Float32? then WORD32 / 2 else WORD / 2) else 0)
                       + p.exponent * units + p.fraction
  {
    if kind.Float32? {
      SingleParts(bits);
    } else {
      DoubleParts(bits);
    }
  }

  lemma SingleParts(bits: nat)
    requires bits < WORD32
    ensures bits == bits / 0x80_0000 / 0x100 % 2 * 0x8000_0000 + bits / 0x80_0000 % 0x100 * 0x80_0000 + bits % 0x80_0000
  {
    var high := bits / 0x80_0000;
    assert bits == high * 0x80_0000 + bits % 0x80_0000 && high < 0x200;
    assert high == high / 0x100 * 0x100 + high % 0x100 && high / 0x100 < 2;
  }

  lemma DoubleParts(bits: nat)
    requires bits < WORD
    ensures bits == bits / 0x10_0000_0000_0000 / 0x800 % 2 * 0x8000_0000_0000_0000
                    + bits / 0x10_0000_0000_0000 % 0x800 * 0x10_0000_0000_0000 + bits % 0x10_0000_0000_0000
  {
    var high := bits / 0x10_0000_0000_0000;
    assert bits == high * 0x10_0000_0000_0000 + bits % 0x10_0000_0000_0000 && high < 0x1000;
    assert high == high / 0x800 * 0x800 + high % 0x800 && high / 0x800 < 2;
  }

  lemma SpecialParts(kind: Kind, bits: nat)
    requires Fits(kind, bits)
    ensures var p := PartsOf(kind, bits);
            && (IsNaN(kind, bits) <==> p.exponent == Exponents(kind) - 1 && p.fraction != 0)
            && (IsZero(kind, bits) <==> p.exponent == 0 && p.fraction == 0)
  {
    RejoinParts(kind, bits);
    if kind.Float32? {
      assert bits % 0x8000_0000 == bits % 0x80_0000 + (bits / 0x80_0000 % 0x100) * 0x80_0000;
    } else {
      LowParts(bits);
    }
  }

  lemma LowParts(bits: nat)
    ensures bits % 0x8000_0000_0000_0000
         == bits % 0x10_0000_0000_0000 + bits / 0x10_0000_0000_0000 % 0x800 * 0x10_0000_0000_0000
  {
    var high := bits / 0x10_0000_0000_0000;
    assert bits == bits % 0x10_0000_0000_0000 + (high / 0x800 * 0x800 + high % 0x800) * 0x10_0000_0000_0000;
  }

  /** Floats are equal exactly when neither is a NaN and both denote the same infinity or number. */
  lemma FloatsEqual(kind: Kind, left: nat, right: nat)
    requires Fits(kind, left) && Fits(kind, right)
    ensures FloatEqual(kind, left, right) <==>
              Denotation(kind, left) == Denotation(kind, right) && !Denotation(kind, left).NaN?
  {
    SpecialParts(kind, left);
    SpecialParts(kind, right);
    PartsAreBits(kind, left, right);
    RejoinParts(kind, left);
    RejoinParts(kind, right);
    if !IsNaN(kind, left) {
      PartsDenote(kind, PartsOf(kind, left), PartsOf(kind, right));
    }
  }

  /** Patterns that are no NaNs denote the same when they are the same, and when both are zeros. */
  lemma PartsDenote(kind: Kind, p: Parts, q: Parts)
    requires p.fraction < Fractions(kind) && q.fraction < Fractions(kind)
    requires p.exponent < Exponents(kind) && q.exponent < Exponents(kind)
    requires !Denote(kind, p).NaN?
    ensures Denote(kind, p) == Denote(kind, q) <==>
              p == q || (p.exponent == p.fraction == 0 && q.exponent == q.fraction == 0)
  {
    MagnitudeIsZero(Fractions(kind), p.exponent, p.fraction);
    MagnitudeIsZero(Fractions(kind), q.exponent, q.fraction);
    if Magnitude(Fractions(kind), p.exponent, p.fraction) == Magnitude(Fractions(kind), q.exponent, q.fraction) {
      MagnitudeIsInjective(Fractions(kind), p.exponent, p.fraction, q.exponent, q.fraction);
    }
  }

  lemma StringsEqual(heap: Heap, left: nat, right: nat)
    ensures StringEqual(heap, left, right) == Some(true) <==> TextMeaning(heap, left) == TextMeaning(heap, right)
  {
  }

  /** Two values are equal exactly when they stand for the same thing and meet nothing out of the ordinary. */
  lemma {:induction false} EqualIsSameMeaning(heap: Heap, l: Layout, left: Bytes, right: Bytes, depth: nat)
    requires Valid(l) && |left| == |right| == l.size
    ensures ValuesEqual(heap, l, left, right, depth) == Some(true)
       <==> MeaningOf(heap, l, left, depth) == MeaningOf(heap, l, right, depth)
            && Ordinary(MeaningOf(heap, l, left, depth))
    decreases l, 0
  {
    if depth <= MAXIMUM_DEPTH {
      match l.kind
      case Signed(width) =>
        LoadFits(l, left);
        LoadFits(l, right);
        SignedIsInjective(width, Load(left), Load(right));
      case Float32 => FloatsSameMeaning(l, left, right);
      case Float64 => FloatsSameMeaning(l, left, right);
      case StringKind => StringsEqual(heap, Load(left), Load(right));
      case StructKind => FieldsSameMeaning(heap, l, 0, left, right, depth);
      case NullableKind =>
        EqualIsSameMeaning(heap, l.fields[0].layout, Part(left, l.fields[0]), Part(right, l.fields[0]), depth + 1);
      case _ =>
    }
  }

  lemma FloatsSameMeaning(l: Layout, left: Bytes, right: Bytes)
    requires Valid(l) && |left| == |right| == l.size && (l.kind.Float32? || l.kind.Float64?)
    ensures FloatEqual(l.kind, Load(left), Load(right)) <==>
              Denotation(l.kind, Load(left)) == Denotation(l.kind, Load(right)) && !Denotation(l.kind, Load(left)).NaN?
  {
    LoadFits(l, left);
    LoadFits(l, right);
    FloatsEqual(l.kind, Load(left), Load(right));
  }

  lemma {:induction false} FieldsSameMeaning(heap: Heap, l: Layout, i: nat, left: Bytes, right: Bytes, depth: nat)
    requires Valid(l) && |left| == |right| == l.size && i <= |l.fields|
    ensures FieldsEqual(heap, l, i, left, right, depth) == Some(true)
       <==> PartMeanings(heap, l, i, left, depth) == PartMeanings(heap, l, i, right, depth)
            && AllOrdinary(PartMeanings(heap, l, i, left, depth))
    decreases l, 0, |l.fields| - i
  {
    if i < |l.fields| {
      var f := l.fields[i];
      EqualIsSameMeaning(heap, f.layout, Part(left, f), Part(right, f), depth + 1);
      FieldsSameMeaning(heap, l, i + 1, left, right, depth);
      SameCons(MeaningOf(heap, f.layout, Part(left, f), depth + 1), PartMeanings(heap, l, i + 1, left, depth),
               MeaningOf(heap, f.layout, Part(right, f), depth + 1), PartMeanings(heap, l, i + 1, right, depth));
    }
  }

  lemma SameCons(a: Meaning, s: seq<Meaning>, b: Meaning, t: seq<Meaning>)
    ensures [a] + s == [b] + t <==> a == b && s == t
    ensures AllOrdinary([a] + s) <==> Ordinary(a) && AllOrdinary(s)
  {
    assert ([a] + s)[0] == a && ([a] + s)[1..] == s && ([b] + t)[0] == b && ([b] + t)[1..] == t;
  }

  /** A value equals itself exactly when it is ordinary. */
  lemma EqualToItself(heap: Heap, l: Layout, bytes: Bytes, depth: nat)
    requires Valid(l) && |bytes| == l.size
    ensures ValuesEqual(heap, l, bytes, bytes, depth) == Some(true) <==> Ordinary(MeaningOf(heap, l, bytes, depth))
  {
    EqualIsSameMeaning(heap, l, bytes, bytes, depth);
  }

  lemma EqualityIsTransitive(heap: Heap, l: Layout, a: Bytes, b: Bytes, c: Bytes, depth: nat)
    requires Valid(l) && |a| == |b| == |c| == l.size
    requires ValuesEqual(heap, l, a, b, depth) == Some(true) && ValuesEqual(heap, l, b, c, depth) == Some(true)
    ensures ValuesEqual(heap, l, a, c, depth) == Some(true)
  {
    EqualIsSameMeaning(heap, l, a, b, depth);
    EqualIsSameMeaning(heap, l, b, c, depth);
    EqualIsSameMeaning(heap, l, a, c, depth);
  }

  /** The order of the operands changes nothing, failures included. */
  lemma {:induction false} EqualityIsSymmetric(heap: Heap, l: Layout, left: Bytes, right: Bytes, depth: nat)
    requires Valid(l) && |left| == |right| == l.size
    ensures ValuesEqual(heap, l, left, right, depth) == ValuesEqual(heap, l, right, left, depth)
    decreases l, 0
  {
    if depth <= MAXIMUM_DEPTH {
      match l.kind
      case StructKind => FieldsSymmetric(heap, l, 0, left, right, depth);
      case NullableKind =>
        EqualityIsSymmetric(heap, l.fields[0].layout, Part(left, l.fields[0]), Part(right, l.fields[0]), depth + 1);
      case _ =>
    }
  }

  lemma {:induction false} FieldsSymmetric(heap: Heap, l: Layout, i: nat, left: Bytes, right: Bytes, depth: nat)
    requires Valid(l) && |left| == |right| == l.size && i <= |l.fields|
    ensures FieldsEqual(heap, l, i, left, right, depth) == FieldsEqual(heap, l, i, right, left, depth)
    decreases l, 0, |l.fields| - i
  {
    if i < |l.fields| {
      var f := l.fields[i];
      EqualityIsSymmetric(heap, f.layout, Part(left, f), Part(right, f), depth + 1);
      FieldsSymmetric(heap, l, i + 1, left, right, depth);
    }
  }

  /** Equal values hash alike, through structs and nullables, signed zeros, null strings and references. */
  lemma {:induction false} EqualHashesAlike(heap: Heap, l: Layout, left: Bytes, right: Bytes, depth: nat)
    requires Valid(l) && |left| == |right| == l.size && ValuesEqual(heap, l, left, right, depth) == Some(true)
    ensures ValueHash(heap, l, left, depth) == ValueHash(heap, l, right, depth)
    decreases l, 0
  {
    match l.kind
    case StructKind => FieldsHashAlike(heap, l, 0, HashBytes(l.name), left, right, depth);
    case NullableKind =>
      if left[0] == 1 {
        EqualHashesAlike(heap, l.fields[0].layout, Part(left, l.fields[0]), Part(right, l.fields[0]), depth + 1);
      }
    case _ =>
  }

  lemma {:induction false} FieldsHashAlike(heap: Heap, l: Layout, i: nat, hash: nat, left: Bytes, right: Bytes,
                                           depth: nat)
    requires Valid(l) && |left| == |right| == l.size && i <= |l.fields|
    requires FieldsEqual(heap, l, i, left, right, depth) == Some(true)
    ensures HashFields(heap, l, i, hash, left, depth) == HashFields(heap, l, i, hash, right, depth)
    decreases l, 0, |l.fields| - i
  {
    if i < |l.fields| {
      var f := l.fields[i];
      EqualHashesAlike(heap, f.layout, Part(left, f), Part(right, f), depth + 1);
      var part := ValueHash(heap, f.layout, Part(left, f), depth + 1);
      if part.Some? {
        FieldsHashAlike(heap, l, i + 1, CombineHash(hash, part.value), left, right, depth);
      }
    }
  }

  // ----- what the hash tells apart -----

  lemma RemainderOf(x: int)
    requires 0 <= x + WORD && x < WORD
    ensures x % WORD == if x < 0 then x + WORD else x
  {
  }

  lemma ExtendIsRemainder(width: nat, bits: nat)
    requires width in {1, 2, 4, 8} && bits < Power256(width)
    ensures Extend(width, bits) == SignedValue(width, bits) % WORD
    ensures 0 <= SignedValue(width, bits) + WORD / 2 < WORD
  {
    WidthPowers();
    RemainderOf(SignedValue(width, bits));
    if width < 8 && bits >= Power256(width) / 2 {
      RemainderOf(bits + (WORD - Power256(width)));
    }
  }

  /** A signed number hashes as its 64-bit two's complement. */
  lemma SignedHash(heap: Heap, l: Layout, bytes: Bytes, depth: nat)
    requires Valid(l) && |bytes| == l.size && l.kind.Signed? && depth <= MAXIMUM_DEPTH
    ensures ValueHash(heap, l, bytes, depth) == Some(MixHash(SignedValue(l.kind.width, Load(bytes)) % WORD))
  {
    LoadFits(l, bytes);
    ExtendIsRemainder(l.kind.width, Load(bytes));
  }

  /** Integers of one kind hash alike exactly when they are equal. */
  lemma NumbersHashApart(heap: Heap, l: Layout, left: Bytes, right: Bytes, depth: nat)
    requires Valid(l) && |left| == |right| == l.size && depth <= MAXIMUM_DEPTH && (l.kind.Unsigned? || l.kind.Signed?)
    ensures ValueHash(heap, l, left, depth) == ValueHash(heap, l, right, depth) <==> left == right
  {
    LoadIsInjective(left, right);
    LoadFits(l, left);
    LoadFits(l, right);
    if l.kind.Signed? {
      ExtendTells(l.kind.width, Load(left), Load(right));
    } else {
      MixHashIsInjective(Load(left), Load(right));
    }
  }

  lemma ExtendTells(width: nat, left: nat, right: nat)
    requires width in {1, 2, 4, 8} && left < Power256(width) && right < Power256(width)
    ensures MixHash(Extend(width, left)) == MixHash(Extend(width, right)) <==> left == right
  {
    ExtendIsRemainder(width, left);
    ExtendIsRemainder(width, right);
    var a, b := SignedValue(width, left), SignedValue(width, right);
    SignedIsInjective(width, left, right);
    RemainderOf(a);
    RemainderOf(b);
    MixHashIsInjective(Extend(width, left), Extend(width, right));
  }

  /** Floats hash alike exactly when their bytes are the same or both are zero. */
  lemma FloatsHashApart(heap: Heap, l: Layout, left: Bytes, right: Bytes, depth: nat)
    requires Valid(l) && |left| == |right| == l.size && depth <= MAXIMUM_DEPTH && (l.kind.Float32? || l.kind.Float64?)
    ensures ValueHash(heap, l, left, depth) == ValueHash(heap, l, right, depth)
       <==> left == right || (IsZero(l.kind, Load(left)) && IsZero(l.kind, Load(right)))
  {
    LoadIsInjective(left, right);
    LoadFits(l, left);
    LoadFits(l, right);
    var a := if IsZero(l.kind, Load(left)) then 0 else Load(left);
    var b := if IsZero(l.kind, Load(right)) then 0 else Load(right);
    MixHashIsInjective(a, b);
  }

  /** Identities are words other than zero, and no two objects have the same. */
  ghost predicate Identified(heap: Heap) {
    && (forall a :: a in heap.identities ==> 0 < heap.identities[a] < WORD && a != 0)
    && forall a, b :: a in heap.identities && b in heap.identities && heap.identities[a] == heap.identities[b] ==>
        a == b
  }

  /** References hash alike exactly when they are the same. */
  lemma ReferencesHashApart(heap: Heap, left: nat, right: nat)
    requires Identified(heap) && HashReference(heap, left).Some? && HashReference(heap, right).Some?
    ensures HashReference(heap, left) == HashReference(heap, right) <==> left == right
  {
    var a := if left == 0 then 0 else heap.identities[left];
    var b := if right == 0 then 0 else heap.identities[right];
    MixOfZero();
    MixHashIsInjective(a, b);
  }

  lemma {:induction false} ShrOfZero(k: nat)
    ensures Shr(0, k) == 0
  {
    if k > 0 {
      ShrOfZero(k - 1);
    }
  }

  lemma MixOfZero()
    ensures MixHash(0) == 0
  {
    ShrOfZero(30);
    ShrOfZero(27);
    ShrOfZero(31);
  }

  const PRIME_INVERSE: nat := 0xce96_5057_aff6_957b

  lemma XorIsWord(a: nat, b: nat)
    requires a < WORD && b < WORD
    ensures Xor(a, b) < WORD
  {
    WordIsPower();
    XorBound(a, b, 64);
  }

  lemma {:induction false} ScrambleIsWord(bytes: Bytes)
    ensures Scramble(bytes) < WORD
  {
  }

  /** One step of the scrambling can be undone, so it loses nothing of what came before nor of the byte. */
  lemma StepTells(s: nat, a: Byte, t: nat, b: Byte)
    requires s < WORD && t < WORD && (s == t || a == b)
    ensures Multiply(Xor(s, a), 0x100_0000_01b3) == Multiply(Xor(t, b), 0x100_0000_01b3) <==> s == t && a == b
  {
    XorIsWord(s, a);
    XorIsWord(t, b);
    FactorCancels(Xor(s, a), 0x100_0000_01b3, PRIME_INVERSE, 887285111055);
    FactorCancels(Xor(t, b), 0x100_0000_01b3, PRIME_INVERSE, 887285111055);
    XorCancels(s, a);
    XorCancels(t, b);
    XorCommutes(s, a);
    XorCommutes(t, b);
    XorCancels(a, s);
    XorCancels(b, t);
  }

  lemma {:induction false} ScrambleKeepsApart(x: Bytes, y: Bytes, rest: Bytes)
    ensures Scramble(x + rest) == Scramble(y + rest) <==> Scramble(x) == Scramble(y)
    decreases |rest|
  {
    if rest == [] {
      assert x + rest == x && y + rest == y;
    } else {
      var front, last := rest[..|rest| - 1], rest[|rest| - 1];
      ScrambleKeepsApart(x, y, front);
      assert (x + rest)[..|x + rest| - 1] == x + front && (y + rest)[..|y + rest| - 1] == y + front;
      ScrambleIsWord(x + front);
      ScrambleIsWord(y + front);
      StepTells(Scramble(x + front), last, Scramble(y + front), last);
    }
  }

  /** Strings that differ in one byte hash differently. */
  lemma OneByteTells(before: Bytes, a: Byte, b: Byte, after: Bytes)
    ensures HashString(before + [a] + after) == HashString(before + [b] + after) <==> a == b
    ensures HashBytes(before + [a] + after) == HashBytes(before + [b] + after) <==> a == b
  {
    var x, y := before + [a], before + [b];
    assert x[..|x| - 1] == before && y[..|y| - 1] == before;
    ScrambleIsWord(before);
    StepTells(Scramble(before), a, Scramble(before), b);
    ScrambleKeepsApart(x, y, after);
    ScrambleIsWord(x + after);
    ScrambleIsWord(y + after);
    MixHashIsInjective(Scramble(x + after), Scramble(y + after));
    SaltTells(Scramble(x + after), Scramble(y + after), 0x7374_7269_6e67);
  }

  lemma SaltTells(s: nat, t: nat, salt: nat)
    requires s < WORD && t < WORD && salt < WORD
    ensures MixHash(Xor(s, salt)) == MixHash(Xor(t, salt)) <==> s == t
  {
    XorIsWord(s, salt);
    XorIsWord(t, salt);
    MixHashIsInjective(Xor(s, salt), Xor(t, salt));
    XorCancels(s, salt);
    XorCancels(t, salt);
  }

  /** Combining tells apart what is combined with one hash. */
  lemma CombineTells(left: nat, a: nat, b: nat)
    requires left < WORD && a < WORD && b < WORD
    ensures CombineHash(left, a) == CombineHash(left, b) <==> a == b
  {
    var c := 0x9e37_79b9_7f4a_7c15 + left * 64 + left / 4;
    var x, y := (a + c) % WORD, (b + c) % WORD;
    SameRemainder(a, b, c);
    SaltTells(x, y, left);
    XorCommutes(left, x);
    XorCommutes(left, y);
  }

  lemma SameRemainder(a: nat, b: nat, c: nat)
    requires a < WORD && b < WORD
    ensures (a + c) % WORD == (b + c) % WORD <==> a == b
  {
  }
}
