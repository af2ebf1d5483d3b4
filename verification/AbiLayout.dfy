/** The storage layout of one file: its fields placed in order after those of its base, and the map of the
    references they hold. The importer places the same fields by its own arithmetic. */
module AbiLayout {
  import opened Wrappers
  import opened Bits
  import opened Alignment

  datatype AbiKind = InvalidKind | VoidKind | IntegerKind | FloatKind | ReferenceKind | AggregateKind

  datatype Storage = Storage(size: nat, alignment: nat)

  datatype TypeLayout = TypeLayout(kind: AbiKind, bits: nat, storage: Storage, references: seq<nat>)

  datatype FieldLayout = FieldLayout(symbol: nat, typeId: nat, offset: nat)

  datatype ClassLayout = ClassLayout(headerSize: nat, size: nat, alignment: nat, fields: seq<FieldLayout>)

  datatype FileLayout = FileLayout(storage: ClassLayout, references: seq<nat>, depth: nat)

  datatype Target = Target(pointer: Storage, int64Alignment: nat, float64Alignment: nat, headerWords: nat)

  datatype FileKind = ClassFile | InterfaceFile | ErrorFile | StructFile | EnumFile

  datatype Field = Field(symbol: nat, typeId: nat, isStatic: bool)

  /** A file's declaration. */
  datatype File = File(kind: FileKind, base: Option<nat>, fields: seq<Field>, typeId: nat)

  const MAX_STRUCT_FIELDS: nat := 65536
  const MAX_STRUCT_DEPTH: nat := 128
  const MAX_STRUCT_SIZE: nat := 1048576
  const MAX_LAYOUT_REFERENCES: nat := 65536

  predicate ValidTarget(t: Target) {
    && t.pointer.size != 0 && t.pointer.size <= 0xffff_ffff / 8 && t.headerWords == 2
    && PowerOfTwo(t.pointer.alignment) && PowerOfTwo(t.int64Alignment) && PowerOfTwo(t.float64Alignment)
    && t.pointer.alignment <= MAXIMUM && t.int64Alignment <= MAXIMUM && t.float64Alignment <= MAXIMUM
    && Aligned(t.pointer.size, t.pointer.alignment)
  }

  // ----- what a layout has to satisfy -----

  /** The fields stand one after the other between two offsets, each on a multiple of its alignment. */
  predicate InOrder(types: seq<TypeLayout>, fields: seq<FieldLayout>, low: nat, high: nat)
    decreases |fields|
  {
    if fields == [] then low <= high
    else
      var last := fields[|fields| - 1];
      && last.typeId < |types| && PowerOfTwo(types[last.typeId].storage.alignment)
      && Aligned(last.offset, types[last.typeId].storage.alignment)
      && last.offset + types[last.typeId].storage.size <= high
      && InOrder(types, fields[..|fields| - 1], low, last.offset)
  }

  /** The references stand between two offsets, at least `width` apart and from the end. */
  predicate Spaced(references: seq<nat>, low: nat, high: nat, width: nat)
    decreases |references|
  {
    if references == [] then low <= high
    else
      var last := references[|references| - 1];
      last + width <= high && Spaced(references[..|references| - 1], low, last, width)
  }

  predicate AllAligned(references: seq<nat>, alignment: nat) {
    forall i :: 0 <= i < |references| ==> Aligned(references[i], alignment)
  }

  /** A reference map within the limit, on pointer boundaries of storage that is aligned for pointers. */
  predicate SoundMap(target: Target, references: seq<nat>, alignment: nat) {
    && |references| <= MAX_LAYOUT_REFERENCES && AllAligned(references, target.pointer.alignment)
    && (references != [] ==> target.pointer.alignment <= alignment)
  }

  /** The references that fields hold: those of each field's type, from where the field stands. */
  function Flatten(types: seq<TypeLayout>, fields: seq<FieldLayout>): seq<nat>
    decreases |fields|
  {
    if fields == [] then [] else Flatten(types, fields[..|fields| - 1]) + HeldBy(types, fields[|fields| - 1])
  }

  function HeldBy(types: seq<TypeLayout>, f: FieldLayout): seq<nat> {
    if f.typeId < |types| then Shifted(types[f.typeId].references, f.offset) else []
  }

  /** A flattened map misses no reference of any field and holds no other offset. */
  lemma {:induction false} FlattenIsComplete(types: seq<TypeLayout>, fields: seq<FieldLayout>, offset: nat)
    ensures offset in Flatten(types, fields) <==> exists f :: f in fields && Holds(types, f, offset)
    decreases |fields|
  {
    if fields != [] {
      var n := |fields| - 1;
      FlattenIsComplete(types, fields[..n], offset);
      HeldIsShifted(types, fields[n], offset);
      assert forall f :: f in fields <==> f in fields[..n] || f == fields[n];
    }
  }

  /** The field's type has a reference that stands at the offset once the field is placed. */
  predicate Holds(types: seq<TypeLayout>, f: FieldLayout, offset: nat) {
    f.typeId < |types| && offset >= f.offset && offset - f.offset in types[f.typeId].references
  }

  lemma HeldIsShifted(types: seq<TypeLayout>, f: FieldLayout, offset: nat)
    ensures offset in HeldBy(types, f) <==> Holds(types, f, offset)
  {
    if Holds(types, f, offset) {
      var references := types[f.typeId].references;
      var i :| 0 <= i < |references| && references[i] == offset - f.offset;
      assert HeldBy(types, f)[i] == offset;
    }
  }

  lemma FlattenNext(types: seq<TypeLayout>, fields: seq<FieldLayout>, f: FieldLayout)
    ensures Flatten(types, fields + [f]) == Flatten(types, fields) + HeldBy(types, f)
  {
    assert (fields + [f])[..|fields|] == fields;
  }

  /** Aligned, ordered and inside its file, and its map holds exactly the references of its fields. */
  predicate GoodLayout(target: Target, types: seq<TypeLayout>, l: FileLayout) {
    && l.storage.headerSize <= l.storage.size <= MAXIMUM
    && PowerOfTwo(l.storage.alignment) && l.storage.alignment <= MAXIMUM && Aligned(l.storage.size, l.storage.alignment)
    && InOrder(types, l.storage.fields, l.storage.headerSize, l.storage.size)
    && Spaced(l.references, l.storage.headerSize, l.storage.size, target.pointer.size)
    && SoundMap(target, l.references, l.storage.alignment) && l.references == Flatten(types, l.storage.fields)
  }

  /** A derived layout starts with its base's. */
  predicate Extends(derived: ClassLayout, base: ClassLayout) {
    && derived.headerSize == base.headerSize && derived.size >= base.size && derived.alignment >= base.alignment
    && |derived.fields| >= |base.fields| && derived.fields[..|base.fields|] == base.fields
  }

  /** Fields in order are aligned, in bounds and disjoint. */
  lemma {:induction false} FieldsAreDisjoint(types: seq<TypeLayout>, fields: seq<FieldLayout>, low: nat, high: nat,
                                             i: nat)
    requires InOrder(types, fields, low, high) && i < |fields|
    ensures fields[i].typeId < |types| && PowerOfTwo(types[fields[i].typeId].storage.alignment)
    ensures Aligned(fields[i].offset, types[fields[i].typeId].storage.alignment)
    ensures low <= fields[i].offset && fields[i].offset + types[fields[i].typeId].storage.size <= high
    ensures forall j :: i < j < |fields| ==> fields[i].offset + types[fields[i].typeId].storage.size <= fields[j].offset
    decreases |fields|
  {
    var n := |fields| - 1;
    var front := fields[..n];
    if i == n {
      InOrderBounds(types, front, low, fields[n].offset);
    } else {
      FieldsAreDisjoint(types, front, low, fields[n].offset, i);
      assert front[i] == fields[i] && forall j :: i < j < n ==> front[j] == fields[j];
    }
  }

  lemma {:induction false} InOrderBounds(types: seq<TypeLayout>, fields: seq<FieldLayout>, low: nat, high: nat)
    requires InOrder(types, fields, low, high)
    ensures low <= high
    decreases |fields|
  {
    if fields != [] {
      InOrderBounds(types, fields[..|fields| - 1], low, fields[|fields| - 1].offset);
    }
  }

  /** Spaced references strictly increase and lie in bounds. */
  lemma {:induction false} SpacedIncreases(references: seq<nat>, low: nat, high: nat, width: nat, i: nat)
    requires Spaced(references, low, high, width) && width > 0 && i < |references|
    ensures low <= references[i] && references[i] + width <= high
    ensures forall j :: i < j < |references| ==> references[i] < references[j]
    decreases |references|
  {
    var n := |references| - 1;
    var front := references[..n];
    if i == n {
      SpacedBounds(front, low, references[n], width);
    } else {
      SpacedIncreases(front, low, references[n], width, i);
      assert front[i] == references[i] && forall j :: i < j < n ==> front[j] == references[j];
    }
  }

  lemma {:induction false} SpacedBounds(references: seq<nat>, low: nat, high: nat, width: nat)
    requires Spaced(references, low, high, width)
    ensures low <= high
    decreases |references|
  {
    if references != [] {
      SpacedBounds(references[..|references| - 1], low, references[|references| - 1], width);
    }
  }

  lemma SpacedWiden(references: seq<nat>, low: nat, high: nat, higher: nat, width: nat)
    requires Spaced(references, low, high, width) && high <= higher
    ensures Spaced(references, low, higher, width)
  {
  }

  lemma InOrderWiden(types: seq<TypeLayout>, fields: seq<FieldLayout>, low: nat, high: nat, higher: nat)
    requires InOrder(types, fields, low, high) && high <= higher
    ensures InOrder(types, fields, low, higher)
  {
  }

  function Shifted(references: seq<nat>, shift: nat): (r: seq<nat>)
    ensures |r| == |references| && forall i :: 0 <= i < |r| ==> r[i] == shift + references[i]
  {
    seq(|references|, i requires 0 <= i < |references| => shift + references[i])
  }

  /** References of a value placed after others. */
  lemma {:induction false} SpacedAppend(before: seq<nat>, low: nat, middle: nat, references: seq<nat>, start: nat,
                                        size: nat, width: nat)
    requires Spaced(before, low, middle, width) && middle <= start && Spaced(references, 0, size, width)
    ensures Spaced(before + Shifted(references, start), low, start + size, width)
    decreases |references|
  {
    var all := before + Shifted(references, start);
    if references == [] {
      assert all == before;
      SpacedWiden(before, low, middle, start + size, width);
    } else {
      var n := |references| - 1;
      SpacedAppend(before, low, middle, references[..n], start, references[n], width);
      assert all[..|all| - 1] == before + Shifted(references[..n], start);
    }
  }

  // ----- the importer's placement -----

  /** What placing the fields of a file looks at: the layouts of the types, the file of the struct each type stores
      inline, and how deep the structs laid out so far nest. */
  datatype Context = Context(target: Target, types: seq<TypeLayout>, owners: seq<Option<nat>>, depths: map<nat, nat>,
                             aggregate: bool)

  predicate ValidContext(c: Context) {
    && ValidTarget(c.target) && |c.owners| == |c.types|
    && forall t :: 0 <= t < |c.types| ==> ValidType(c.target, c.types[t])
  }

  predicate ValidType(target: Target, t: TypeLayout) {
    && t.storage.size <= MAXIMUM && t.storage.alignment <= MAXIMUM && PowerOfTwo(t.storage.alignment)
    && Spaced(t.references, 0, t.storage.size, target.pointer.size)
    && SoundMap(target, t.references, t.storage.alignment)
    && (t.kind.InvalidKind? || t.kind.VoidKind? ==> t.storage.size == 0)
  }

  datatype Placed = Placed(fields: seq<FieldLayout>, offset: nat, alignment: nat, depth: nat)

  function HeaderSize(target: Target, aggregate: bool): nat {
    if aggregate then 0 else target.pointer.size * target.headerWords
  }

  /** An object starts with two pointers, one to its type and one to its allocation; a struct inside it with nothing. */
  lemma HeaderIsTwoPointers(target: Target)
    requires ValidTarget(target)
    ensures HeaderSize(target, false) == target.pointer.size + target.pointer.size && HeaderSize(target, true) == 0
  {
  }

  function NextDepth(c: Context, typeId: nat, depth: nat): nat
    requires typeId < |c.owners|
  {
    if c.aggregate && c.owners[typeId].Some? && c.owners[typeId].value in c.depths
    then Max(depth, c.depths[c.owners[typeId].value] + 1) else depth
  }

  /** One declaration after what was placed before it; a static one takes no room. */
  function PlaceNext(c: Context, d: Field, before: Placed): Option<Placed>
    requires |c.owners| == |c.types|
  {
    if d.isStatic then Some(before)
    else if d.typeId >= |c.types| then None
    else
      var storage := c.types[d.typeId].storage;
      if storage.size == 0 || !PowerOfTwo(storage.alignment) || before.offset > MAXIMUM - (storage.alignment - 1)
          then None
      else
        var start := AlignDown(before.offset + storage.alignment - 1, storage.alignment);
        if storage.size > MAXIMUM - start then None
        else Some(Placed(before.fields + [FieldLayout(d.symbol, d.typeId, start)], start + storage.size,
                         Max(before.alignment, storage.alignment), NextDepth(c, d.typeId, before.depth)))
  }

  function PlaceAll(c: Context, declarations: seq<Field>, before: Placed): Option<Placed>
    requires |c.owners| == |c.types|
  {
    if declarations == [] then Some(before)
    else
      var next := PlaceNext(c, declarations[0], before);
      if next.None? then None else PlaceAll(c, declarations[1..], next.value)
  }

  /** The depth of the struct that an instance field holds inline, if it holds one. */
  function InlineDepth(c: Context, d: Field): nat
    requires |c.owners| == |c.types|
  {
    if d.isStatic || d.typeId >= |c.owners| || c.owners[d.typeId].None? || c.owners[d.typeId].value !in c.depths then 0
    else c.depths[c.owners[d.typeId].value]
  }

  /** The depth is that of the nesting: above every inline struct's, and no more than that asks for. */
  lemma {:induction false} DepthIsNesting(c: Context, declarations: seq<Field>, before: Placed)
    requires |c.owners| == |c.types| && c.aggregate && before.depth > 0 && PlaceAll(c, declarations, before).Some?
    ensures var depth := PlaceAll(c, declarations, before).value.depth;
            && depth >= before.depth && (forall d :: d in declarations ==> InlineDepth(c, d) < depth)
            && (depth == before.depth || exists d :: d in declarations && depth == InlineDepth(c, d) + 1)
    decreases |declarations|
  {
    if declarations != [] {
      var first, rest, next := declarations[0], declarations[1..], PlaceNext(c, declarations[0], before).value;
      DepthIsNesting(c, rest, next);
      assert forall d :: d in declarations <==> d == first || d in rest;
      assert next.depth == before.depth || next.depth == InlineDepth(c, first) + 1;
      assert InlineDepth(c, first) < next.depth;
    }
  }

  /** What stands before the declared fields: the base's, the message of a root error class, or nothing. */
  function Start(c: Context, kind: FileKind, base: Option<ClassLayout>, message: nat, stringType: nat): Placed {
    var header := HeaderSize(c.target, c.aggregate);
    var alignment := if c.aggregate then 1 else c.target.pointer.alignment;
    var depth := if c.aggregate then 1 else 0;
    if base.Some? then Placed(base.value.fields, base.value.size, Max(alignment, base.value.alignment), depth)
    else if kind.ErrorFile? then Placed([FieldLayout(message, stringType, header)], header + c.target.pointer.size,
                                        alignment, depth)
    else Placed([], header, alignment, depth)
  }

  /** The padded layout. */
  function Pad(c: Context, placed: Placed): Option<ClassLayout> {
    var end := if c.aggregate then Max(placed.offset, 1) else placed.offset;
    if end > MAXIMUM - (placed.alignment - 1) then None
    else
      var size := AlignDown(end + Max(placed.alignment, 1) - 1, placed.alignment);
      if c.aggregate && (size > MAX_STRUCT_SIZE || placed.depth > MAX_STRUCT_DEPTH) then None
      else Some(ClassLayout(HeaderSize(c.target, c.aggregate), size, placed.alignment, placed.fields))
  }

  /** The importer's reconstruction of a file's storage. */
  function Reconstruct(c: Context, f: File, base: Option<ClassLayout>, message: nat,
                       stringType: nat): Option<ClassLayout>
    requires |c.owners| == |c.types|
  {
    var placed := PlaceAll(c, f.fields, Start(c, f.kind, base, message, stringType));
    if placed.None? then None else Pad(c, placed.value)
  }

  // ----- the producer -----

  datatype Lowered = Lowered(placed: Placed, references: seq<nat>)

  lemma MapGrows(target: Target, references: seq<nat>, alignment: nat, more: seq<nat>, larger: nat)
    requires SoundMap(target, references, alignment) && AllAligned(more, target.pointer.alignment)
    requires |references| + |more| <= MAX_LAYOUT_REFERENCES && alignment <= larger
    requires more != [] ==> target.pointer.alignment <= larger
    ensures SoundMap(target, references + more, larger)
  {
  }

  /** What has been placed so far is in order, and so are its references. */
  predicate Growing(c: Context, placed: Placed, references: seq<nat>) {
    GrowingFrom(c.target, c.types, HeaderSize(c.target, c.aggregate), placed, references)
  }

  predicate GrowingFrom(target: Target, types: seq<TypeLayout>, header: nat, placed: Placed, references: seq<nat>) {
    && placed.offset <= MAXIMUM && PowerOfTwo(placed.alignment) && placed.alignment <= MAXIMUM
    && InOrder(types, placed.fields, header, placed.offset)
    && Spaced(references, header, placed.offset, target.pointer.size)
    && SoundMap(target, references, placed.alignment) && references == Flatten(types, placed.fields)
  }

  /** Adds the references of a field, checking that each lies inside it and on a pointer boundary. */
  method AddReferences(target: Target, layout: TypeLayout, start: nat, references: seq<nat>)
    returns (r: Option<seq<nat>>)
    requires ValidTarget(target) && ValidType(target, layout) && start + layout.storage.size <= MAXIMUM
    ensures r == if AllAligned(Shifted(layout.references, start), target.pointer.alignment)
                 then Some(references + Shifted(layout.references, start)) else None
  {
    var all := references;
    for i := 0 to |layout.references|
      invariant all == references + Shifted(layout.references, start)[..i]
      invariant AllAligned(Shifted(layout.references, start)[..i], target.pointer.alignment)
    {
      var reference := layout.references[i];
      SpacedIncreases(layout.references, 0, layout.storage.size, target.pointer.size, i);
      assert Shifted(layout.references, start)[i] == start + reference;
      var shifted := CheckedAdd(start, reference);
      if shifted.None? || reference > layout.storage.size || target.pointer.size > layout.storage.size - reference
         || !Aligned(shifted.value, target.pointer.alignment) {
        return None;
      }
      all := all + [shifted.value];
    }
    assert Shifted(layout.references, start)[..|layout.references|] == Shifted(layout.references, start);
    r := Some(all);
  }

  /** What placing a field comes to: the importer's placement with the field's references added, as long as their
      number stays within the limit, they fall on pointer boundaries and structs do not nest too deep. */
  function NextLowered(c: Context, d: Field, before: Lowered): Option<Lowered>
    requires |c.owners| == |c.types|
  {
    var placed := PlaceNext(c, d, before.placed);
    if d.isStatic then Some(before)
    else if placed.None? then None
    else HoldPlaced(c, d, before.references, placed.value)
  }

  /** A placed field's references added to those before it, within the limits on references and nesting. */
  function HoldPlaced(c: Context, d: Field, references: seq<nat>, placed: Placed): Option<Lowered>
    requires |c.owners| == |c.types| && d.typeId < |c.types| && c.types[d.typeId].storage.size <= placed.offset
  {
    var layout := c.types[d.typeId];
    var moved := Shifted(layout.references, placed.offset - layout.storage.size);
    if |references| + |layout.references| > MAX_LAYOUT_REFERENCES || !AllAligned(moved, c.target.pointer.alignment)
        || (c.aggregate && c.owners[d.typeId].Some? && placed.depth > MAX_STRUCT_DEPTH) then None
    else Some(Lowered(placed, references + moved))
  }

  /** The declarations from number `i` on in turn, within the limit on the fields of a struct. */
  function LowerAll(c: Context, declarations: seq<Field>, i: nat, before: Lowered, count: nat): Option<Lowered>
    requires |c.owners| == |c.types| && i <= |declarations|
    decreases |declarations| - i
  {
    if i == |declarations| then Some(before)
    else
      var next, counted := NextLowered(c, declarations[i], before), Counted(declarations[i], count);
      if next.None? || (c.aggregate && counted > MAX_STRUCT_FIELDS) then None
      else LowerAll(c, declarations, i + 1, next.value, counted)
  }

  function Counted(d: Field, count: nat): nat {
    if d.isStatic then count else count + 1
  }

  /** One more field on the next multiple of its alignment. */
  lemma InOrderNext(types: seq<TypeLayout>, fields: seq<FieldLayout>, low: nat, end: nat, f: FieldLayout)
    requires InOrder(types, fields, low, end) && end <= f.offset && f.typeId < |types|
    requires PowerOfTwo(types[f.typeId].storage.alignment) && Aligned(f.offset, types[f.typeId].storage.alignment)
    ensures InOrder(types, fields + [f], low, f.offset + types[f.typeId].storage.size)
  {
    assert (fields + [f])[..|fields|] == fields;
    InOrderWiden(types, fields, low, end, f.offset);
  }

  /** Where a field is placed. */
  lemma PlacedAfter(c: Context, d: Field, before: Placed)
    requires |c.owners| == |c.types| && !d.isStatic && PlaceNext(c, d, before).Some?
    ensures var after, storage := PlaceNext(c, d, before).value, c.types[d.typeId].storage;
            var start := after.offset - storage.size;
            && before.offset <= start && Aligned(start, storage.alignment) && PowerOfTwo(storage.alignment)
            && after.fields == before.fields + [FieldLayout(d.symbol, d.typeId, start)]
            && after.alignment == Max(before.alignment, storage.alignment) && after.offset <= MAXIMUM
  {
    AlignUpIsClose(before.offset, c.types[d.typeId].storage.alignment);
  }

  /** One more field and its references. */
  lemma FieldGrows(target: Target, types: seq<TypeLayout>, header: nat, before: Placed, references: seq<nat>,
                   f: FieldLayout, after: Placed)
    requires GrowingFrom(target, types, header, before, references) && f.typeId < |types|
    requires ValidType(target, types[f.typeId])
    requires before.offset <= f.offset && Aligned(f.offset, types[f.typeId].storage.alignment)
    requires after.fields == before.fields + [f] && after.offset == f.offset + types[f.typeId].storage.size <= MAXIMUM
    requires after.alignment == Max(before.alignment, types[f.typeId].storage.alignment)
    requires AllAligned(HeldBy(types, f), target.pointer.alignment)
    requires |references| + |HeldBy(types, f)| <= MAX_LAYOUT_REFERENCES
    ensures GrowingFrom(target, types, header, after, references + HeldBy(types, f))
  {
    InOrderNext(types, before.fields, header, before.offset, f);
    HeldIsSpaced(target, types, header, before.offset, references, f);
    HeldIsSound(target, types, before.alignment, references, f, after.alignment);
    FlattenNext(types, before.fields, f);
  }

  lemma HeldIsSpaced(target: Target, types: seq<TypeLayout>, header: nat, low: nat, references: seq<nat>,
                     f: FieldLayout)
    requires Spaced(references, header, low, target.pointer.size) && low <= f.offset
    requires f.typeId < |types| && ValidType(target, types[f.typeId])
    ensures Spaced(references + HeldBy(types, f), header, f.offset + types[f.typeId].storage.size, target.pointer.size)
  {
    var layout := types[f.typeId];
    SpacedAppend(references, header, low, layout.references, f.offset, layout.storage.size, target.pointer.size);
  }

  lemma HeldIsSound(target: Target, types: seq<TypeLayout>, alignment: nat, references: seq<nat>, f: FieldLayout,
                    larger: nat)
    requires SoundMap(target, references, alignment) && f.typeId < |types| && ValidType(target, types[f.typeId])
    requires larger == Max(alignment, types[f.typeId].storage.alignment)
    requires AllAligned(HeldBy(types, f), target.pointer.alignment)
    requires |references| + |HeldBy(types, f)| <= MAX_LAYOUT_REFERENCES
    ensures SoundMap(target, references + HeldBy(types, f), larger)
  {
    MapGrows(target, references, alignment, HeldBy(types, f), larger);
  }

  lemma GrowOne(c: Context, d: Field, before: Placed, references: seq<nat>, after: Placed, start: nat)
    requires ValidContext(c) && Growing(c, before, references) && !d.isStatic && d.typeId < |c.types|
    requires PlaceNext(c, d, before) == Some(after) && after.offset == start + c.types[d.typeId].storage.size
    requires AllAligned(Shifted(c.types[d.typeId].references, start), c.target.pointer.alignment)
    requires |references| + |c.types[d.typeId].references| <= MAX_LAYOUT_REFERENCES
    ensures Growing(c, after, references + Shifted(c.types[d.typeId].references, start))
  {
    PlacedAfter(c, d, before);
    var f := FieldLayout(d.symbol, d.typeId, start);
    assert HeldBy(c.types, f) == Shifted(c.types[d.typeId].references, start);
    FieldGrows(c.target, c.types, HeaderSize(c.target, c.aggregate), before, references, f, after);
  }

  /** Checked arithmetic that succeeds places the field as the importer does. */
  lemma CheckedPlacement(c: Context, d: Field, before: Placed)
    requires ValidContext(c) && before.offset <= MAXIMUM && !d.isStatic && d.typeId < |c.types|
    ensures PlaceNext(c, d, before) == PlaceChecked(c, d, before)
  {
    assert ValidType(c.target, c.types[d.typeId]);
  }

  /** The same placement with every step checked. */
  function PlaceChecked(c: Context, d: Field, before: Placed): Option<Placed>
    requires |c.owners| == |c.types| && d.typeId < |c.types|
  {
    var storage := c.types[d.typeId].storage;
    var aligned := CheckedAlign(before.offset, storage.alignment);
    if storage.size == 0 || aligned.None? then None
    else
      var end := CheckedAdd(aligned.value, storage.size);
      if end.None? then None
      else Some(Placed(before.fields + [FieldLayout(d.symbol, d.typeId, aligned.value)], end.value,
                       Max(before.alignment, storage.alignment), NextDepth(c, d.typeId, before.depth)))
  }

  /** Finds the place of one field with checked arithmetic. */
  method FindPlace(c: Context, d: Field, before: Placed) returns (r: Option<Placed>)
    requires ValidContext(c) && before.offset <= MAXIMUM && !d.isStatic && d.typeId < |c.types|
    ensures r == PlaceNext(c, d, before)
    ensures r.Some? ==> c.types[d.typeId].storage.size <= r.value.offset <= MAXIMUM
    ensures r.Some? ==> r.value.depth == NextDepth(c, d.typeId, before.depth)
  {
    var layout := c.types[d.typeId];
    assert ValidType(c.target, layout);
    CheckedPlacement(c, d, before);
    if layout.kind.InvalidKind? || layout.kind.VoidKind? || layout.storage.size == 0
        || !PowerOfTwo(layout.storage.alignment) {
      return None;
    }
    var aligned := CheckedAlign(before.offset, layout.storage.alignment);
    if aligned.None? { return None; }
    var end := CheckedAdd(aligned.value, layout.storage.size);
    if end.None? { return None; }
    r := Some(Placed(before.fields + [FieldLayout(d.symbol, d.typeId, aligned.value)], end.value,
                     Max(before.alignment, layout.storage.alignment), NextDepth(c, d.typeId, before.depth)));
  }

  /** Places one field and adds its references. */
  method LowerField(c: Context, d: Field, before: Placed, references: seq<nat>) returns (r: Option<Lowered>)
    requires ValidContext(c) && Growing(c, before, references)
    ensures r == NextLowered(c, d, Lowered(before, references))
    ensures r.Some? ==>
              PlaceNext(c, d, before) == Some(r.value.placed)
              && Growing(c, r.value.placed, r.value.references)
    ensures r.Some? && c.aggregate && before.depth <= MAX_STRUCT_DEPTH ==> r.value.placed.depth <= MAX_STRUCT_DEPTH
  {
    if d.isStatic { return Some(Lowered(before, references)); }
    if d.typeId >= |c.types| { return None; }
    var place := FindPlace(c, d, before);
    if place.None? { return None; }
    r := HoldField(c, d, references, place.value);
    if r.Some? {
      HoldGrows(c, d, before, references, place.value);
      HoldIsShallow(c, d, before, references, place.value);
    }
  }

  /** Adds the references of a placed field. */
  method HoldField(c: Context, d: Field, references: seq<nat>, placed: Placed) returns (r: Option<Lowered>)
    requires ValidContext(c) && |references| <= MAX_LAYOUT_REFERENCES && !d.isStatic && d.typeId < |c.types|
    requires c.types[d.typeId].storage.size <= placed.offset <= MAXIMUM
    ensures r == HoldPlaced(c, d, references, placed)
  {
    var layout := c.types[d.typeId];
    assert ValidType(c.target, layout);
    if |layout.references| > MAX_LAYOUT_REFERENCES - |references| { return None; }
    var all := AddReferences(c.target, layout, placed.offset - layout.storage.size, references);
    if all.None? { return None; }
    if c.aggregate && c.owners[d.typeId].Some? && placed.depth > MAX_STRUCT_DEPTH { return None; }
    r := Some(Lowered(placed, all.value));
  }

  lemma HoldGrows(c: Context, d: Field, before: Placed, references: seq<nat>, placed: Placed)
    requires ValidContext(c) && Growing(c, before, references) && !d.isStatic && d.typeId < |c.types|
    requires PlaceNext(c, d, before) == Some(placed) && c.types[d.typeId].storage.size <= placed.offset <= MAXIMUM
    requires HoldPlaced(c, d, references, placed).Some?
    ensures Growing(c, placed, HoldPlaced(c, d, references, placed).value.references)
  {
    GrowOne(c, d, before, references, placed, placed.offset - c.types[d.typeId].storage.size);
  }

  lemma HoldIsShallow(c: Context, d: Field, before: Placed, references: seq<nat>, placed: Placed)
    requires |c.owners| == |c.types| && d.typeId < |c.types| && c.types[d.typeId].storage.size <= placed.offset
    requires placed.depth == NextDepth(c, d.typeId, before.depth) && HoldPlaced(c, d, references, placed).Some?
    ensures c.aggregate && before.depth <= MAX_STRUCT_DEPTH ==> placed.depth <= MAX_STRUCT_DEPTH
  {
  }

  lemma HeaderIsAligned(c: Context)
    requires ValidTarget(c.target)
    ensures Aligned(HeaderSize(c.target, c.aggregate), c.target.pointer.alignment)
    ensures HeaderSize(c.target, c.aggregate) + c.target.pointer.size <= MAXIMUM
  {
    if c.aggregate {
      AlignedZero(c.target.pointer.alignment);
    } else {
      AlignedSum(c.target.pointer.size, c.target.pointer.size, c.target.pointer.alignment);
    }
  }

  lemma PointerAlignmentFits(target: Target)
    requires ValidTarget(target)
    ensures target.pointer.alignment <= target.pointer.size
  {
    AlignedZero(target.pointer.alignment);
    AlignedGap(0, target.pointer.size, target.pointer.alignment);
  }

  predicate ValidBase(c: Context, base: Option<FileLayout>) {
    base.Some? ==>
      && !c.aggregate && GoodLayout(c.target, c.types, base.value)
      && base.value.storage.headerSize == HeaderSize(c.target, false)
  }

  function BaseStorage(base: Option<FileLayout>): Option<ClassLayout> {
    if base.Some? then Some(base.value.storage) else None
  }

  /** The string type as lowered. */
  predicate IsString(c: Context, stringType: nat) {
    stringType < |c.types| && c.types[stringType].storage == c.target.pointer && c.types[stringType].references == [0]
  }

  /** The start with the references it holds: the base's, or the message. */
  function StartLowered(c: Context, kind: FileKind, base: Option<FileLayout>, message: nat, stringType: nat): Lowered {
    Lowered(Start(c, kind, BaseStorage(base), message, stringType),
            if base.Some? then base.value.references else if kind.ErrorFile? then [HeaderSize(c.target, c.aggregate)]
              else [])
  }

  /** The base's storage, the message of a root error class, or an empty start; checked, but never out of range. */
  method LowerStart(c: Context, f: File, base: Option<FileLayout>, message: nat, stringType: nat)
    returns (r: Option<Lowered>)
    requires ValidContext(c) && ValidBase(c, base) && IsString(c, stringType) && (f.kind.ErrorFile? ==> !c.aggregate)
    ensures r == Some(StartLowered(c, f.kind, base, message, stringType)) && Underway(c, r.value)
  {
    var header := HeaderSize(c.target, c.aggregate);
    var alignment := if c.aggregate then 1 else c.target.pointer.alignment;
    var depth := if c.aggregate then 1 else 0;
    HeaderIsAligned(c);
    if base.Some? {
      var storage := base.value.storage;
      return Some(Lowered(Placed(storage.fields, storage.size, Max(alignment, storage.alignment), depth),
                          base.value.references));
    }
    if !f.kind.ErrorFile? {
      return Some(Lowered(Placed([], header, alignment, depth), []));
    }
    var storage := c.types[stringType].storage;
    PointerAlignmentFits(c.target);
    CheckedAlignIsClose(header, storage.alignment);
    var aligned := CheckedAlign(header, storage.alignment);
    if aligned.None? { return None; }
    var end := CheckedAdd(aligned.value, storage.size);
    if end.None? { return None; }
    NearestIsLeast(header, aligned.value, header, storage.alignment);
    var fields := [FieldLayout(message, stringType, aligned.value)];
    assert fields[..0] == [] && [aligned.value][..0] == [];
    assert Flatten(c.types, fields) == [] + HeldBy(c.types, fields[0]);
    r := Some(Lowered(Placed(fields, end.value, Max(alignment, storage.alignment), depth), [aligned.value]));
  }

  lemma {:induction false} PlaceAllKeeps(c: Context, declarations: seq<Field>, before: Placed)
    requires |c.owners| == |c.types| && PlaceAll(c, declarations, before).Some?
    ensures var after := PlaceAll(c, declarations, before).value;
            && |before.fields| <= |after.fields| && after.fields[..|before.fields|] == before.fields
            && before.alignment <= after.alignment && before.offset <= after.offset
  {
    if declarations != [] {
      var next := PlaceNext(c, declarations[0], before).value;
      PlaceNextKeeps(c, declarations[0], before);
      PlaceAllKeeps(c, declarations[1..], next);
      var after := PlaceAll(c, declarations, before).value;
      assert after.fields[..|before.fields|] == after.fields[..|next.fields|][..|before.fields|];
    }
  }

  lemma PlaceNextKeeps(c: Context, d: Field, before: Placed)
    requires |c.owners| == |c.types| && PlaceNext(c, d, before).Some?
    ensures var after := PlaceNext(c, d, before).value;
            && |before.fields| <= |after.fields| && after.fields[..|before.fields|] == before.fields
            && before.alignment <= after.alignment && before.offset <= after.offset
  {
    if !d.isStatic {
      var storage := c.types[d.typeId].storage;
      AlignDownIsClose(before.offset + storage.alignment - 1, storage.alignment);
    }
  }

  lemma {:induction false} LowerAllPlaces(c: Context, declarations: seq<Field>, i: nat, before: Lowered, count: nat)
    requires |c.owners| == |c.types| && i <= |declarations| && LowerAll(c, declarations, i, before, count).Some?
    ensures PlaceAll(c, declarations[i..], before.placed)
         == Some(LowerAll(c, declarations, i, before, count).value.placed)
    decreases |declarations| - i
  {
    if i < |declarations| {
      assert declarations[i..][1..] == declarations[i + 1..];
      LowerAllPlaces(c, declarations, i + 1, NextLowered(c, declarations[i], before).value,
                     Counted(declarations[i], count));
    }
  }

  /** What the loop over the fields keeps. */
  predicate Underway(c: Context, state: Lowered) {
    Growing(c, state.placed, state.references) && (c.aggregate ==> state.placed.depth <= MAX_STRUCT_DEPTH)
  }

  /** Places every declared field in turn. */
  method LowerFields(c: Context, declarations: seq<Field>, start: Lowered) returns (r: Option<Lowered>)
    requires ValidContext(c) && Underway(c, start)
    ensures r == LowerAll(c, declarations, 0, start, 0)
    ensures r.Some? ==> Underway(c, r.value)
  {
    var state, count: nat := start, 0;
    for i := 0 to |declarations|
      invariant Underway(c, state)
      invariant LowerAll(c, declarations, i, state, count) == LowerAll(c, declarations, 0, start, 0)
    {
      count := Counted(declarations[i], count);
      if c.aggregate && count > MAX_STRUCT_FIELDS { return None; }
      var next := LowerField(c, declarations[i], state.placed, state.references);
      if next.None? { return None; }
      state := next.value;
    }
    r := Some(state);
  }

  const ENUM_LAYOUT: FileLayout := FileLayout(ClassLayout(0, 0, 1, []), [], 0)

  /** The layout of a file, if its fields can be placed and the padded result is within the limits. */
  function LayoutOf(c: Context, f: File, base: Option<FileLayout>, message: nat, stringType: nat): Option<FileLayout>
    requires |c.owners| == |c.types|
  {
    if f.kind.EnumFile? then Some(ENUM_LAYOUT)
    else
      var lowered := LowerAll(c, f.fields, 0, StartLowered(c, f.kind, base, message, stringType), 0);
      if lowered.None? then None else PadLowered(c, lowered.value)
  }

  function PadLowered(c: Context, lowered: Lowered): Option<FileLayout> {
    var storage := Pad(c, lowered.placed);
    if storage.None? then None else Some(FileLayout(storage.value, lowered.references, lowered.placed.depth))
  }

  /** Lays a file out. What it succeeds with is a good layout that starts with its base's, and is the one the
      importer reconstructs. */
  method LowerFileLayout(c: Context, f: File, base: Option<FileLayout>, message: nat, stringType: nat)
    returns (r: Option<FileLayout>)
    requires ValidContext(c) && ValidBase(c, base) && IsString(c, stringType)
    requires c.aggregate == f.kind.StructFile? && (base.Some? <==> f.base.Some?)
    ensures r == LayoutOf(c, f, base, message, stringType)
    ensures r.Some? && c.aggregate ==> 0 < r.value.storage.size <= MAX_STRUCT_SIZE
    ensures r.Some? && !f.kind.EnumFile? ==> GoodLayout(c.target, c.types, r.value)
    ensures r.Some? && !f.kind.EnumFile? ==>
              Reconstruct(c, f, BaseStorage(base), message, stringType) == Some(r.value.storage)
    ensures r.Some? && !f.kind.EnumFile? && base.Some? ==> Extends(r.value.storage, base.value.storage)
  {
    if f.kind.EnumFile? { return Some(ENUM_LAYOUT); }
    var start := LowerStart(c, f, base, message, stringType);
    if start.None? { return None; }
    var lowered := LowerFields(c, f.fields, start.value);
    if lowered.None? { return None; }
    LowerAllPlaces(c, f.fields, 0, start.value, 0);
    assert f.fields[0..] == f.fields;
    PlaceAllKeeps(c, f.fields, start.value.placed);
    r := PadLayout(c, lowered.value);
  }

  /** The size with the tail padding, within the limit on structs. */
  method PaddedSize(c: Context, placed: Placed) returns (r: Option<nat>)
    requires placed.offset <= MAXIMUM && 0 < placed.alignment <= MAXIMUM && PowerOfTwo(placed.alignment)
    requires c.aggregate ==> placed.depth <= MAX_STRUCT_DEPTH
    ensures r == if Pad(c, placed).None? then None else Some(Pad(c, placed).value.size)
    ensures r.Some? ==> placed.offset <= r.value <= MAXIMUM && Aligned(r.value, placed.alignment)
    ensures r.Some? && c.aggregate ==> 0 < r.value <= MAX_STRUCT_SIZE
  {
    var end := if c.aggregate then Max(placed.offset, 1) else placed.offset;
    CheckedAlignIsClose(end, placed.alignment);
    var size := CheckedAlign(end, placed.alignment);
    if size.None? { return None; }
    if c.aggregate && size.value > MAX_STRUCT_SIZE { return None; }
    r := size;
  }

  /** The layout with its tail padding. */
  method PadLayout(c: Context, lowered: Lowered) returns (r: Option<FileLayout>)
    requires Underway(c, lowered)
    ensures r == PadLowered(c, lowered)
    ensures r.Some? ==> GoodLayout(c.target, c.types, r.value) && lowered.placed.offset <= r.value.storage.size
    ensures r.Some? && c.aggregate ==> 0 < r.value.storage.size <= MAX_STRUCT_SIZE
  {
    var placed := lowered.placed;
    var size := PaddedSize(c, placed);
    if size.None? { return None; }
    Padded(c, placed, lowered.references, size.value);
    r := Some(FileLayout(ClassLayout(HeaderSize(c.target, c.aggregate), size.value, placed.alignment, placed.fields),
                         lowered.references, placed.depth));
  }

  lemma Padded(c: Context, placed: Placed, references: seq<nat>, size: nat)
    requires Growing(c, placed, references) && placed.offset <= size
    ensures InOrder(c.types, placed.fields, HeaderSize(c.target, c.aggregate), size)
    ensures Spaced(references, HeaderSize(c.target, c.aggregate), size, c.target.pointer.size)
    ensures HeaderSize(c.target, c.aggregate) <= size
  {
    var header := HeaderSize(c.target, c.aggregate);
    InOrderWiden(c.types, placed.fields, header, placed.offset, size);
    SpacedWiden(references, header, placed.offset, size, c.target.pointer.size);
    InOrderBounds(c.types, placed.fields, header, size);
  }
}
