/** The layouts of types, and nullable values in particular: a presence byte, then the value at its alignment. The
    producer and the importer compute them separately. */
module AbiTypes {
  import opened Wrappers
  import opened Bits
  import opened Alignment
  import opened AbiLayout
  import Values

  datatype SemanticType =
    | ErrorType
    | BottomType
    | VoidType
    | StructType(file: nat)
    | NullType
    | ReferenceType
    | NullableType(element: Option<nat>)
    | BoolType
    | CharType
    | Int8Type
    | Int16Type
    | Int32Type
    | Int64Type
    | Float32Type
    | Float64Type

  function Make(kind: AbiKind, bits: nat, size: nat, alignment: nat): TypeLayout {
    TypeLayout(kind, bits, Storage(size, alignment), if kind.ReferenceKind? then [0] else [])
  }

  function Pointer(target: Target): TypeLayout {
    Make(ReferenceKind, 8 * target.pointer.size, target.pointer.size, target.pointer.alignment)
  }

  const INVALID: TypeLayout := Make(InvalidKind, 0, 0, 1)

  /** A struct whose file has not been laid out, and a nullable value that cannot be. */
  const UNPLACED: TypeLayout := Make(AggregateKind, 0, 0, 1)

  // ----- nullable values -----

  /** The value has storage, and with a presence byte one alignment before it still fits 64 bits. */
  predicate Wraps(element: TypeLayout) {
    element.storage.size > 0 && 2 * element.storage.alignment + element.storage.size - 1 <= MAXIMUM
  }

  /** What a nullable value comes to: the value one alignment in, its references moved with it. */
  function NullableLayout(element: TypeLayout): Option<TypeLayout> {
    var size, alignment := element.storage.size, element.storage.alignment;
    if !Wraps(element) || !PowerOfTwo(alignment) then None
    else Some(TypeLayout(AggregateKind, 0, Storage(AlignDown(alignment + size + (alignment - 1), alignment), alignment),
                         Shifted(element.references, alignment)))
  }

  /** The first multiple from one on is the alignment itself. */
  lemma PayloadIsAlignment(alignment: nat)
    requires PowerOfTwo(alignment) && alignment <= MAXIMUM
    ensures CheckedAlign(1, alignment) == Some(alignment)
  {
    CheckedAlignIsClose(1, alignment);
    AlignedZero(alignment);
    AlignedGap(0, CheckedAlign(1, alignment).value, alignment);
  }

  lemma ReferencesFit(t: TypeLayout, target: Target, i: nat)
    requires ValidTarget(target) && ValidType(target, t) && i < |t.references|
    ensures t.references[i] < t.storage.size
  {
    SpacedIncreases(t.references, 0, t.storage.size, target.pointer.size, i);
  }

  /** The producer's layout of a nullable value, with every addition checked. */
  method LowerNullable(target: Target, element: TypeLayout) returns (r: Option<TypeLayout>)
    requires ValidTarget(target) && ValidType(target, element)
    ensures r == NullableLayout(element)
  {
    var alignment := element.storage.alignment;
    if element.kind.InvalidKind? || element.kind.VoidKind? || element.storage.size == 0 || !PowerOfTwo(alignment) {
      return None;
    }
    var payload := CheckedAlign(1, alignment);
    PayloadIsAlignment(alignment);
    var end := CheckedAdd(payload.value, element.storage.size);
    if end.None? { return None; }
    var size := CheckedAlign(end.value, alignment);
    if size.None? { return None; }
    var references := [];
    for i := 0 to |element.references|
      invariant references == Shifted(element.references, alignment)[..i]
    {
      ReferencesFit(element, target, i);
      var shifted := CheckedAdd(payload.value, element.references[i]);
      if shifted.None? { return None; }
      references := references + [shifted.value];
    }
    assert Shifted(element.references, alignment)[..|element.references|] == Shifted(element.references, alignment);
    r := Some(TypeLayout(AggregateKind, 0, Storage(size.value, alignment), references));
  }

  /** The importer's, whose arithmetic is guarded instead; none stands for its invalid layout. */
  method ExpectNullable(target: Target, element: TypeLayout) returns (r: Option<TypeLayout>)
    requires ValidTarget(target) && ValidType(target, element)
    ensures r == if element.kind.ReferenceKind? then Some(Pointer(target)) else NullableLayout(element)
  {
    var size, alignment := element.storage.size, element.storage.alignment;
    if element.kind.ReferenceKind? { return Some(Pointer(target)); }
    if !(element.kind.IntegerKind? || element.kind.FloatKind? || element.kind.AggregateKind?) || size == 0
       || !PowerOfTwo(alignment) || alignment - 1 > MAXIMUM - 1 {
      return None;
    }
    PayloadIsAlignment(alignment);
    var payload := AlignDown(1 + alignment - 1, alignment);
    if size > MAXIMUM - payload { return None; }
    var end := payload + size;
    if alignment - 1 > MAXIMUM - end { return None; }
    var padded := AlignDown(end + alignment - 1, alignment);
    var references := [];
    for i := 0 to |element.references|
      invariant references == Shifted(element.references, alignment)[..i]
    {
      ReferencesFit(element, target, i);
      if element.references[i] > MAXIMUM - payload { return None; }
      references := references + [payload + element.references[i]];
    }
    assert Shifted(element.references, alignment)[..|element.references|] == Shifted(element.references, alignment);
    r := Some(TypeLayout(AggregateKind, 0, Storage(padded, alignment), references));
  }

  /** A nullable value's layout is a valid one: its references stay in order, aligned and inside it. */
  lemma NullableIsValid(target: Target, element: TypeLayout)
    requires ValidTarget(target) && ValidType(target, element) && NullableLayout(element).Some?
    ensures ValidType(target, NullableLayout(element).value)
  {
    var size, alignment := element.storage.size, element.storage.alignment;
    AlignDownIsClose(alignment + size + (alignment - 1), alignment);
    var padded := AlignDown(alignment + size + (alignment - 1), alignment);
    ShiftedIsSpaced(element.references, alignment, size, padded, target.pointer.size);
    ShiftedIsSound(target, element.references, alignment);
  }

  /** A map moved behind the tag stays in order inside the larger storage. */
  lemma ShiftedIsSpaced(references: seq<nat>, payload: nat, size: nat, padded: nat, width: nat)
    requires Spaced(references, 0, size, width) && payload + size <= padded
    ensures Spaced(Shifted(references, payload), 0, padded, width)
  {
    assert Spaced([], 0, 0, width);
    SpacedAppend([], 0, 0, references, payload, size, width);
    assert [] + Shifted(references, payload) == Shifted(references, payload);
    SpacedWiden(Shifted(references, payload), 0, payload + size, padded, width);
  }

  /** Moving a map by the alignment of its storage keeps it on pointer boundaries. */
  lemma ShiftedIsSound(target: Target, references: seq<nat>, alignment: nat)
    requires ValidTarget(target) && PowerOfTwo(alignment) && SoundMap(target, references, alignment)
    ensures SoundMap(target, Shifted(references, alignment), alignment)
  {
    AlignedSelf(alignment);
    forall i | 0 <= i < |references| ensures Aligned(Shifted(references, alignment)[i], target.pointer.alignment) {
      AlignedWeaker(alignment, target.pointer.alignment, alignment);
      AlignedSum(alignment, references[i], target.pointer.alignment);
    }
  }

  // ----- the type table -----

  /** The types that stand by themselves. */
  function ScalarLayout(target: Target, t: SemanticType): TypeLayout
    requires !t.NullableType? && !t.StructType?
  {
    match t
    case ErrorType => INVALID
    case BottomType => INVALID
    case VoidType => Make(VoidKind, 0, 0, 1)
    case NullType => Pointer(target)
    case ReferenceType => Pointer(target)
    case BoolType => Make(IntegerKind, 1, 1, 1)
    case CharType => Make(IntegerKind, 32, 4, 4)
    case Int8Type => Make(IntegerKind, 8, 1, 1)
    case Int16Type => Make(IntegerKind, 16, 2, 2)
    case Int32Type => Make(IntegerKind, 32, 4, 4)
    case Int64Type => Make(IntegerKind, 64, 8, target.int64Alignment)
    case Float32Type => Make(FloatKind, 32, 4, 4)
    case Float64Type => Make(FloatKind, 64, 8, target.float64Alignment)
  }

  /** The producer's entry for a type, from the entries before it: the layouts above, a pointer for a nullable
      reference, the tagged value for another nullable, and nothing yet for a struct. */
  function LoweredEntry(target: Target, defs: seq<SemanticType>, t: SemanticType, types: seq<TypeLayout>): TypeLayout {
    match t
    case StructType(_) => UNPLACED
    case NullableType(None) => INVALID
    case NullableType(Some(e)) =>
      if e >= |defs| then INVALID
      else if defs[e].ReferenceType? then Pointer(target)
      else if e < |types| && NullableLayout(types[e]).Some? then NullableLayout(types[e]).value
      else UNPLACED
    case _ => ScalarLayout(target, t)
  }

  method LowerType(target: Target, defs: seq<SemanticType>, t: SemanticType, types: seq<TypeLayout>)
    returns (r: TypeLayout)
    requires ValidTarget(target) && forall i :: 0 <= i < |types| ==> ValidType(target, types[i])
    ensures r == LoweredEntry(target, defs, t, types) && ValidType(target, r)
  {
    AlignedZero(target.pointer.alignment);
    match t
    case ErrorType => r := Make(InvalidKind, 0, 0, 1);
    case BottomType => r := Make(InvalidKind, 0, 0, 1);
    case VoidType => r := Make(VoidKind, 0, 0, 1);
    case StructType(_) => r := Make(AggregateKind, 0, 0, 1);
    case NullType => r := Pointer(target);
    case ReferenceType => r := Pointer(target);
    case NullableType(element) =>
      if element.None? || element.value >= |defs| { return Make(InvalidKind, 0, 0, 1); }
      if defs[element.value].ReferenceType? {
        r := Pointer(target);
      } else {
        r := Make(AggregateKind, 0, 0, 1);
        if element.value < |types| {
          var layout := LowerNullable(target, types[element.value]);
          if layout.Some? {
            NullableIsValid(target, types[element.value]);
            r := layout.value;
          }
        }
      }
    case BoolType => r := Make(IntegerKind, 1, 1, 1);
    case CharType => r := Make(IntegerKind, 32, 4, 4);
    case Int8Type => r := Make(IntegerKind, 8, 1, 1);
    case Int16Type => r := Make(IntegerKind, 16, 2, 2);
    case Int32Type => r := Make(IntegerKind, 32, 4, 4);
    case Int64Type => r := Make(IntegerKind, 64, 8, target.int64Alignment);
    case Float32Type => r := Make(FloatKind, 32, 4, 4);
    case Float64Type => r := Make(FloatKind, 64, 8, target.float64Alignment);
  }

  // ----- the importer's contract for types -----

  /** The importer's layout for entry `t` of a table; for a struct, the stored one, which its file answers for. */
  function ExpectedEntry(target: Target, defs: seq<SemanticType>, types: seq<TypeLayout>, t: nat): TypeLayout
    requires t < |defs| == |types|
  {
    match defs[t]
    case StructType(_) => TypeLayout(AggregateKind, 0, types[t].storage, types[t].references)
    case NullableType(None) => INVALID
    case NullableType(Some(e)) =>
      if e >= |types| then INVALID
      else if types[e].kind.ReferenceKind? then Pointer(target)
      else if NullableLayout(types[e]).Some? then NullableLayout(types[e]).value
      else INVALID
    case _ => ScalarLayout(target, defs[t])
  }

  method ExpectType(target: Target, defs: seq<SemanticType>, types: seq<TypeLayout>, t: nat) returns (r: TypeLayout)
    requires ValidTarget(target) && t < |defs| == |types|
    requires forall i :: 0 <= i < |types| ==> ValidType(target, types[i])
    ensures r == ExpectedEntry(target, defs, types, t)
  {
    match defs[t]
    case StructType(_) => r := TypeLayout(AggregateKind, 0, types[t].storage, types[t].references);
    case ErrorType => r := Make(InvalidKind, 0, 0, 1);
    case BottomType => r := Make(InvalidKind, 0, 0, 1);
    case VoidType => r := Make(VoidKind, 0, 0, 1);
    case NullType => r := Pointer(target);
    case ReferenceType => r := Pointer(target);
    case NullableType(element) =>
      r := Make(InvalidKind, 0, 0, 1);
      if element.Some? && element.value < |types| {
        var layout := ExpectNullable(target, types[element.value]);
        if layout.Some? {
          r := layout.value;
        }
      }
    case BoolType => r := Make(IntegerKind, 1, 1, 1);
    case CharType => r := Make(IntegerKind, 32, 4, 4);
    case Int8Type => r := Make(IntegerKind, 8, 1, 1);
    case Int16Type => r := Make(IntegerKind, 16, 2, 2);
    case Int32Type => r := Make(IntegerKind, 32, 4, 4);
    case Int64Type => r := Make(IntegerKind, 64, 8, target.int64Alignment);
    case Float32Type => r := Make(FloatKind, 32, 4, 4);
    case Float64Type => r := Make(FloatKind, 64, 8, target.float64Alignment);
  }

  /** What the semantic model keeps: a nullable comes after its element, which is no nullable itself. */
  predicate FlatNullables(defs: seq<SemanticType>) {
    forall t :: 0 <= t < |defs| && defs[t].NullableType? && defs[t].element.Some? ==>
      defs[t].element.value < t && !defs[defs[t].element.value].NullableType?
  }

  /** The entries are the producer's, whatever the structs have come to. */
  predicate Tabled(target: Target, defs: seq<SemanticType>, types: seq<TypeLayout>) {
    && |types| == |defs| && (forall t :: 0 <= t < |types| ==> ValidType(target, types[t]))
    && (forall t :: 0 <= t < |types| ==>
          if defs[t].StructType? then types[t].kind.AggregateKind? && types[t].bits == 0
          else types[t] == LoweredEntry(target, defs, defs[t], types))
  }

  /** The nullable types whose elements can be tagged: those of references, and of values with storage that fits. */
  predicate Taggable(defs: seq<SemanticType>, types: seq<TypeLayout>, t: SemanticType) {
    t.NullableType? && t.element.Some? && t.element.value < |defs| && t.element.value < |types| ==>
      var e := t.element.value;
      defs[e].ReferenceType? || (!defs[e].NullType? && Wraps(types[e]))
  }

  /** Producer and importer agree on an entry exactly when it is no nullable or its element can be tagged. */
  lemma EntriesAgree(target: Target, defs: seq<SemanticType>, types: seq<TypeLayout>, t: nat)
    requires ValidTarget(target) && FlatNullables(defs) && Tabled(target, defs, types) && t < |defs|
    ensures types[t] == ExpectedEntry(target, defs, types, t) <==> Taggable(defs, types, defs[t])
  {
    if defs[t].NullableType? && defs[t].element.Some? {
      var e := defs[t].element.value;
      assert ValidType(target, types[e]);
      ElementKind(target, defs, types, e);
    }
  }

  /** Among types that are not nullable, exactly the references and the null type are laid out as references. */
  lemma ElementKind(target: Target, defs: seq<SemanticType>, types: seq<TypeLayout>, e: nat)
    requires Tabled(target, defs, types) && e < |defs| && !defs[e].NullableType?
    ensures types[e].kind.ReferenceKind? <==> defs[e].ReferenceType? || defs[e].NullType?
  {
  }

  // ----- storage and what the runtime makes of it -----

  /** What the runtime takes a number for when it compares and hashes one. */
  function RuntimeKind(t: SemanticType, signed: bool): Option<Values.Kind> {
    match t
    case BoolType => Some(Values.Unsigned(1))
    case CharType => Some(Values.Unsigned(4))
    case Int8Type => Some(if signed then Values.Signed(1) else Values.Unsigned(1))
    case Int16Type => Some(if signed then Values.Signed(2) else Values.Unsigned(2))
    case Int32Type => Some(if signed then Values.Signed(4) else Values.Unsigned(4))
    case Int64Type => Some(if signed then Values.Signed(8) else Values.Unsigned(8))
    case Float32Type => Some(Values.Float32)
    case Float64Type => Some(Values.Float64)
    case _ => None
  }

  /** The storage of a number holds its bits, and is of the size the runtime reads; up to four bytes it is aligned to
      its
      size. It holds no reference, while a pointer is one. */
  lemma StorageHoldsBits(target: Target, defs: seq<SemanticType>, types: seq<TypeLayout>, t: nat, signed: bool)
    requires Tabled(target, defs, types) && t < |defs|
    ensures var kind, layout := RuntimeKind(defs[t], signed), types[t];
            kind.Some? ==>
              && Values.ScalarFits(kind.value, layout.storage.size) && layout.references == []
              && (if defs[t].BoolType? then layout.bits == 1 else layout.bits == 8 * layout.storage.size)
              && (layout.storage.size <= 4 ==> layout.storage.alignment == layout.storage.size)
    ensures defs[t].NullType? || defs[t].ReferenceType? ==>
              types[t].storage == target.pointer && types[t].references == [0]
                  && types[t].bits == 8 * target.pointer.size
  {
  }

  /** A nullable value has room for its value one alignment in, and refers to exactly what the value refers to there. */
  lemma NullableHoldsValue(element: TypeLayout, offset: nat)
    requires NullableLayout(element).Some?
    ensures var nullable, payload := NullableLayout(element).value, element.storage.alignment;
            && 1 <= payload && payload + element.storage.size <= nullable.storage.size
            && (offset in nullable.references <==> offset >= payload && offset - payload in element.references)
  {
    var alignment, size := element.storage.alignment, element.storage.size;
    AlignDownIsClose(alignment + size + (alignment - 1), alignment);
    if offset >= alignment && offset - alignment in element.references {
      var i :| 0 <= i < |element.references| && element.references[i] == offset - alignment;
      assert NullableLayout(element).value.references[i] == offset;
    }
  }

  // ----- the importer's check of one type -----

  predicate Increasing(references: seq<nat>) {
    forall i, j :: 0 <= i < j < |references| ==> references[i] < references[j]
  }

  /** A record has the shape of its kind: none stands for the error type, and a nullable names its element. */
  predicate Formed(defs: seq<SemanticType>, t: nat)
    requires t < |defs|
  {
    !defs[t].ErrorType? && (defs[t].NullableType? ==> defs[t].element.Some? && defs[t].element.value < |defs|)
  }

  /** What the importer accepts of a record: its shape, the layout it expects, structs with storage within the limits,
      and a map that increases, is aligned and lies inside storage aligned for pointers. */
  predicate RecordAccepted(target: Target, defs: seq<SemanticType>, types: seq<TypeLayout>, t: nat)
    requires t < |defs| == |types|
  {
    var stored := types[t];
    && Formed(defs, t) && stored == ExpectedEntry(target, defs, types, t)
    && |stored.references| <= MAX_LAYOUT_REFERENCES
    && (defs[t].StructType? ==> 0 < stored.storage.size <= MAX_STRUCT_SIZE)
    && (defs[t].StructType? ==> PowerOfTwo(stored.storage.alignment))
    && (defs[t].StructType? ==> Aligned(stored.storage.size, stored.storage.alignment))
    && Increasing(stored.references)
    && forall i :: 0 <= i < |stored.references| ==> SlotFits(target, stored.storage, stored.references[i])
  }

  /** What the check of a whole closure adds: no aggregate, struct or tagged nullable, passes the limits. */
  predicate WithinLimits(stored: TypeLayout) {
    stored.kind.AggregateKind? ==>
      stored.storage.size <= MAX_STRUCT_SIZE && |stored.references| <= MAX_LAYOUT_REFERENCES
  }

  predicate TypeAccepted(target: Target, defs: seq<SemanticType>, types: seq<TypeLayout>, t: nat)
    requires t < |defs| == |types|
  {
    RecordAccepted(target, defs, types, t) && WithinLimits(types[t])
  }

  method VerifyType(target: Target, defs: seq<SemanticType>, types: seq<TypeLayout>, t: nat) returns (ok: bool)
    requires ValidTarget(target) && t < |defs| == |types|
    requires forall i :: 0 <= i < |types| ==> ValidType(target, types[i])
    ensures ok <==> RecordAccepted(target, defs, types, t)
  {
    var stored := types[t];
    if defs[t].NullableType? {
      if defs[t].element.None? || defs[t].element.value >= |defs| { return false; }
    } else if defs[t].ErrorType? {
      return false;
    }
    if (defs[t].StructType? && stored.storage.size > MAX_STRUCT_SIZE) || |stored.references| > MAX_LAYOUT_REFERENCES {
      return false;
    }
    ok := true;
    if defs[t].StructType? && (stored.storage.size == 0 || !PowerOfTwo(stored.storage.alignment)
                               || !Aligned(stored.storage.size, stored.storage.alignment)) {
      ok := false;
    }
    var expected := ExpectType(target, defs, types, t);
    if defs[t].NullableType? && expected.kind.AggregateKind? {
      if stored.references != expected.references { ok := false; }
    } else if !defs[t].StructType? && stored.references != (if stored.kind.ReferenceKind? then [0] else []) {
      ok := false;
    }
    var increasing := CheckIncreasing(stored.references);
    var inside := CheckInside(target, stored);
    if stored.kind != expected.kind || stored.bits != expected.bits || stored.storage != expected.storage {
      ok := false;
    }
    ok := ok && increasing && inside;
  }

  method CheckIncreasing(references: seq<nat>) returns (ok: bool)
    ensures ok <==> Increasing(references)
  {
    if references == [] { return true; }
    for i := 1 to |references|
      invariant Increasing(references[..i])
    {
      if references[i - 1] >= references[i] { return false; }
      assert references[..i + 1] == references[..i] + [references[i]] && references[..i][i - 1] == references[i - 1];
    }
    assert references[..|references|] == references;
    ok := true;
  }

  /** The slot is aligned and lies inside storage aligned for pointers. */
  predicate SlotFits(target: Target, storage: Storage, offset: nat) {
    Aligned(offset, target.pointer.alignment) && storage.alignment >= target.pointer.alignment
        && offset + target.pointer.size <= storage.size
  }

  method CheckInside(target: Target, stored: TypeLayout) returns (ok: bool)
    ensures ok <==> forall i :: 0 <= i < |stored.references| ==> SlotFits(target, stored.storage, stored.references[i])
  {
    for i := 0 to |stored.references|
      invariant forall k :: 0 <= k < i ==> SlotFits(target, stored.storage, stored.references[k])
    {
      var offset := stored.references[i];
      if !Aligned(offset, target.pointer.alignment) || stored.storage.alignment < target.pointer.alignment
         || offset > stored.storage.size || target.pointer.size > stored.storage.size - offset {
        assert !SlotFits(target, stored.storage, stored.references[i]);
        return false;
      }
    }
    ok := true;
  }

  /** What a valid map is to the importer. */
  lemma ValidMapIsAccepted(target: Target, t: TypeLayout)
    requires ValidTarget(target) && ValidType(target, t)
    ensures Increasing(t.references)
    ensures forall i :: 0 <= i < |t.references| ==> SlotFits(target, t.storage, t.references[i])
  {
    forall i | 0 <= i < |t.references|
      ensures t.references[i] + target.pointer.size <= t.storage.size
      ensures forall j :: i < j < |t.references| ==> t.references[i] < t.references[j]
    {
      SpacedIncreases(t.references, 0, t.storage.size, target.pointer.size, i);
    }
  }

  /** A type of the table is importable: its record has its shape, and what it makes nullable is a reference, or a
      value other than `null` with storage that stays within the limit once it is tagged. */
  predicate Importable(defs: seq<SemanticType>, types: seq<TypeLayout>, t: nat)
    requires t < |defs| == |types|
  {
    Formed(defs, t) && (defs[t].NullableType? ==> Tags(defs, types, defs[t].element.value))
  }

  predicate Tags(defs: seq<SemanticType>, types: seq<TypeLayout>, e: nat)
    requires e < |defs| == |types|
  {
    var storage := types[e].storage;
    defs[e].ReferenceType?
    || (!defs[e].NullType? && 0 < storage.size && storage.size + storage.alignment <= MAX_STRUCT_SIZE)
  }

  /** A tagged value is within a limit exactly when the value and one alignment before it are. */
  lemma TaggedSize(size: nat, alignment: nat, limit: nat)
    requires size > 0 && PowerOfTwo(alignment) && PowerOfTwo(limit)
    ensures AlignDown(alignment + size + (alignment - 1), alignment) <= limit <==> size + alignment <= limit
  {
    var padded := AlignDown(alignment + size + (alignment - 1), alignment);
    AlignDownIsClose(alignment + size + (alignment - 1), alignment);
    AlignDownIsAligned(alignment + size + (alignment - 1), alignment);
    if size + alignment <= limit < padded {
      AlignedSelf(limit);
      AlignedWeaker(limit, alignment, limit);
      AlignedGap(limit, padded, alignment);
    }
  }

  /** The importer accepts an entry of the producer's table, its structs laid out, exactly when it is importable. */
  lemma AcceptedIsImportable(target: Target, defs: seq<SemanticType>, types: seq<TypeLayout>, t: nat)
    requires ValidTarget(target) && FlatNullables(defs) && Tabled(target, defs, types) && t < |defs|
    requires defs[t].StructType? ==> 0 < types[t].storage.size <= MAX_STRUCT_SIZE
    requires defs[t].StructType? ==> Aligned(types[t].storage.size, types[t].storage.alignment)
    ensures TypeAccepted(target, defs, types, t) <==> Importable(defs, types, t)
  {
    assert ValidType(target, types[t]);
    EntriesAgree(target, defs, types, t);
    ValidMapIsAccepted(target, types[t]);
    if defs[t].NullableType? && defs[t].element.Some? {
      NullableFits(target, defs, types, t, defs[t].element.value);
    }
  }

  lemma NullableFits(target: Target, defs: seq<SemanticType>, types: seq<TypeLayout>, t: nat, e: nat)
    requires Tabled(target, defs, types) && t < |defs| && e < |defs| && defs[t] == NullableType(Some(e))
    ensures Tags(defs, types, e) <==> Taggable(defs, types, defs[t]) && WithinLimits(types[t])
  {
    assert ValidType(target, types[e]) && types[t] == LoweredEntry(target, defs, defs[t], types);
    TaggedFits(target, types[e]);
  }

  lemma TaggedFits(target: Target, element: TypeLayout)
    requires ValidType(target, element)
    ensures element.storage.size > 0 && element.storage.size + element.storage.alignment <= MAX_STRUCT_SIZE
       <==> Wraps(element) && WithinLimits(NullableLayout(element).value)
  {
    if element.storage.size > 0 {
      LimitIsPower();
      TaggedSize(element.storage.size, element.storage.alignment, MAX_STRUCT_SIZE);
    }
  }

  function Doubled(k: nat): nat {
    if k == 0 then 1 else 2 * Doubled(k - 1)
  }

  lemma {:induction false} DoubledIsPower(k: nat)
    ensures PowerOfTwo(Doubled(k))
  {
    if k > 0 {
      DoubledIsPower(k - 1);
      assert Doubled(k) % 2 == 0 && Doubled(k) / 2 == Doubled(k - 1);
    }
  }

  lemma LimitIsPower()
    ensures PowerOfTwo(MAX_STRUCT_SIZE)
  {
    DoubledIsPower(20);
    DoubledFour(0);
    DoubledFour(4);
    DoubledFour(8);
    DoubledFour(12);
    DoubledFour(16);
  }

  lemma DoubledFour(k: nat)
    ensures Doubled(k + 4) == 16 * Doubled(k)
  {
    assert Doubled(k + 2) == 2 * Doubled(k + 1) == 4 * Doubled(k);
    assert Doubled(k + 4) == 2 * Doubled(k + 3) == 4 * Doubled(k + 2);
  }

  // ----- where producer and importer part -----

  /** A nullable over the type of `null` is a tagged value to the producer and a pointer to the importer. */
  lemma NullableNullDiffers(target: Target, types: seq<TypeLayout>)
    requires ValidTarget(target)
    requires var defs := [NullType, NullableType(Some(0))]; Tabled(target, defs, types)
    ensures var defs := [NullType, NullableType(Some(0))];
            && types[1].kind.AggregateKind? && ExpectedEntry(target, defs, types, 1) == Pointer(target)
            && !TypeAccepted(target, defs, types, 1)
  {
    var defs := [NullType, NullableType(Some(0))];
    assert types[0] == LoweredEntry(target, defs, defs[0], types) == Pointer(target);
    assert types[1] == LoweredEntry(target, defs, defs[1], types);
  }

  /** A nullable over a type without storage is an empty aggregate to the producer and invalid to the importer. */
  lemma NullableVoidDiffers(target: Target, types: seq<TypeLayout>)
    requires ValidTarget(target)
    requires var defs := [VoidType, NullableType(Some(0))]; Tabled(target, defs, types)
    ensures var defs := [VoidType, NullableType(Some(0))];
            && types[1] == UNPLACED && ExpectedEntry(target, defs, types, 1) == INVALID
            && !TypeAccepted(target, defs, types, 1)
  {
    var defs := [VoidType, NullableType(Some(0))];
    assert types[0] == LoweredEntry(target, defs, defs[0], types);
    assert types[1] == LoweredEntry(target, defs, defs[1], types);
  }

  /** A struct of 1 MiB is accepted and the nullable over it is not, although both agree on its layout. */
  lemma LargeNullableIsRefused(target: Target) returns (types: seq<TypeLayout>)
    requires ValidTarget(target)
    ensures var defs := [StructType(0), NullableType(Some(0))];
            && Tabled(target, defs, types) && types[0].storage == Storage(MAX_STRUCT_SIZE, 8)
            && types[1] == ExpectedEntry(target, defs, types, 1)
            && TypeAccepted(target, defs, types, 0) && !TypeAccepted(target, defs, types, 1)
  {
    var defs := [StructType(0), NullableType(Some(0))];
    var whole := TypeLayout(AggregateKind, 0, Storage(MAX_STRUCT_SIZE, 8), []);
    types := [whole, NullableLayout(whole).value];
    NullableIsValid(target, whole);
    AcceptedIsImportable(target, defs, types, 0);
    AcceptedIsImportable(target, defs, types, 1);
  }
}
