/** The verifier's checks of class layouts and reference maps, each proved to accept exactly what it should, and
    the importer's comparison of a stored layout with its own reconstruction. */
module AbiVerifier {
  import opened Wrappers
  import opened Bits
  import opened Alignment
  import opened AbiLayout

  predicate SoundLayout(types: seq<TypeLayout>, l: ClassLayout) {
    && PowerOfTwo(l.alignment) && l.headerSize <= l.size && Aligned(l.size, l.alignment)
    && InOrder(types, l.fields, l.headerSize, l.size)
  }

  /** Where the field before `i` ends. */
  function EndBefore(types: seq<TypeLayout>, l: ClassLayout, i: nat): nat
    requires i <= |l.fields| && (i > 0 ==> l.fields[i - 1].typeId < |types|)
  {
    if i == 0 then l.headerSize else l.fields[i - 1].offset + types[l.fields[i - 1].typeId].storage.size
  }

  predicate FieldFits(types: seq<TypeLayout>, l: ClassLayout, previousEnd: nat, f: FieldLayout) {
    && f.typeId < |types| && PowerOfTwo(types[f.typeId].storage.alignment)
    && !(f.offset < previousEnd || !Aligned(f.offset, types[f.typeId].storage.alignment) || f.offset > l.size
         || types[f.typeId].storage.size > l.size - f.offset)
  }

  /** A sound layout passes the check of each field. */
  lemma SoundFits(types: seq<TypeLayout>, l: ClassLayout, i: nat)
    requires SoundLayout(types, l) && i < |l.fields|
    ensures i > 0 ==> l.fields[i - 1].typeId < |types|
    ensures FieldFits(types, l, EndBefore(types, l, i), l.fields[i])
  {
    FieldsAreDisjoint(types, l.fields, l.headerSize, l.size, i);
    if i > 0 {
      FieldsAreDisjoint(types, l.fields, l.headerSize, l.size, i - 1);
    }
  }

  lemma InOrderSnoc(types: seq<TypeLayout>, l: ClassLayout, i: nat, previousEnd: nat)
    requires i < |l.fields| && InOrder(types, l.fields[..i], l.headerSize, previousEnd)
    requires FieldFits(types, l, previousEnd, l.fields[i])
    ensures InOrder(types, l.fields[..i + 1], l.headerSize, EndBefore(types, l, i + 1))
  {
    assert l.fields[..i + 1][..i] == l.fields[..i];
    InOrderWiden(types, l.fields[..i], l.headerSize, previousEnd, l.fields[i].offset);
  }

  /** Checks a class layout field by field; a field that does not fit does not move the end. */
  method VerifyClassLayout(types: seq<TypeLayout>, l: ClassLayout) returns (valid: bool)
    ensures valid <==> SoundLayout(types, l)
  {
    if !PowerOfTwo(l.alignment) { return false; }
    valid := l.headerSize <= l.size && Aligned(l.size, l.alignment);
    var previousEnd := l.headerSize;
    for i := 0 to |l.fields|
      invariant !valid ==> !SoundLayout(types, l)
      invariant valid ==>
                (i > 0 ==> l.fields[i - 1].typeId < |types|)
                && previousEnd == EndBefore(types, l, i) <= l.size
      invariant valid ==>
                l.headerSize <= l.size && Aligned(l.size, l.alignment)
                && InOrder(types, l.fields[..i], l.headerSize, previousEnd)
    {
      var f := l.fields[i];
      if SoundLayout(types, l) {
        SoundFits(types, l, i);
      }
      if f.typeId >= |types| || !PowerOfTwo(types[f.typeId].storage.alignment) {
        valid := false;
      } else if f.offset < previousEnd || !Aligned(f.offset, types[f.typeId].storage.alignment) || f.offset > l.size
                || types[f.typeId].storage.size > l.size - f.offset {
        valid := false;
      } else {
        if valid {
          InOrderSnoc(types, l, i, previousEnd);
        }
        previousEnd := f.offset + types[f.typeId].storage.size;
      }
    }
    if valid {
      assert l.fields[..|l.fields|] == l.fields;
      InOrderWiden(types, l.fields, l.headerSize, previousEnd, l.size);
    }
  }

  /** Increasing, in bounds and on pointer boundaries. */
  predicate SoundReferences(target: Target, l: ClassLayout, references: seq<nat>) {
    && (forall i :: 0 <= i < |references| ==>
          l.headerSize <= references[i] && references[i] + target.pointer.size <= l.size
              && Aligned(references[i], target.pointer.alignment))
    && (forall i, j :: 0 <= i < j < |references| ==> references[i] < references[j])
  }

  /** The verifier's loop over the reference map of a descriptor. */
  method VerifyReferences(target: Target, l: ClassLayout, references: seq<nat>) returns (valid: bool)
    ensures valid <==> SoundReferences(target, l, references)
  {
    var previous, hasPrevious := 0, false;
    for i := 0 to |references|
      invariant hasPrevious == (i > 0) && (i > 0 ==> previous == references[i - 1])
      invariant SoundReferences(target, l, references[..i])
    {
      var offset := references[i];
      if offset < l.headerSize || offset > l.size || target.pointer.size > l.size - offset
         || !Aligned(offset, target.pointer.alignment) || (hasPrevious && offset <= previous) {
        return false;
      }
      assert references[..i + 1] == references[..i] + [offset];
      assert i > 0 ==> references[..i][i - 1] == previous;
      previous, hasPrevious := offset, true;
    }
    assert references[..|references|] == references;
    valid := true;
  }

  // ----- the importer's reference map -----

  /** A map that stays within limit and layout. */
  predicate MapFits(l: ClassLayout, references: seq<nat>) {
    |references| <= MAX_LAYOUT_REFERENCES && forall i :: 0 <= i < |references| ==> references[i] <= l.size
  }

  /** Adds what one field holds, slot by slot. */
  method FlattenField(types: seq<TypeLayout>, l: ClassLayout, f: FieldLayout, before: seq<nat>)
    returns (r: Option<seq<nat>>)
    requires MapFits(l, before)
    ensures r == if MapFits(l, before + HeldBy(types, f)) then Some(before + HeldBy(types, f)) else None
  {
    var held := if f.typeId < |types| then types[f.typeId].references else [];
    var all := before;
    for i := 0 to |held|
      invariant all == before + HeldBy(types, f)[..i] && MapFits(l, all)
    {
      if |all| == MAX_LAYOUT_REFERENCES { return None; }
      if held[i] > l.size || f.offset > l.size - held[i] {
        assert (before + HeldBy(types, f))[|before| + i] == f.offset + held[i] > l.size;
        return None;
      }
      all := all + [f.offset + held[i]];
    }
    assert HeldBy(types, f)[..|held|] == HeldBy(types, f);
    r := Some(all);
  }

  /** What flattening adds later was in no earlier part. */
  lemma {:induction false} FlattenPrefix(types: seq<TypeLayout>, fields: seq<FieldLayout>, i: nat)
    requires i <= |fields|
    ensures |Flatten(types, fields[..i])| <= |Flatten(types, fields)|
    ensures Flatten(types, fields)[..|Flatten(types, fields[..i])|] == Flatten(types, fields[..i])
    decreases |fields|
  {
    if i < |fields| {
      var n := |fields| - 1;
      FlattenPrefix(types, fields[..n], i);
      assert fields[..n][..i] == fields[..i];
    } else {
      assert fields[..i] == fields;
    }
  }

  lemma PrefixFits(types: seq<TypeLayout>, l: ClassLayout, i: nat)
    requires i <= |l.fields| && MapFits(l, Flatten(types, l.fields))
    ensures MapFits(l, Flatten(types, l.fields[..i]))
  {
    FlattenPrefix(types, l.fields, i);
    var part, all := Flatten(types, l.fields[..i]), Flatten(types, l.fields);
    forall k | 0 <= k < |part| ensures part[k] <= l.size {
      assert part[k] == all[..|part|][k] == all[k];
    }
  }

  /** The importer's flattening of a stored layout. */
  method FlattenFields(types: seq<TypeLayout>, l: ClassLayout) returns (r: Option<seq<nat>>)
    ensures r == if MapFits(l, Flatten(types, l.fields)) then Some(Flatten(types, l.fields)) else None
  {
    var all := [];
    for i := 0 to |l.fields|
      invariant all == Flatten(types, l.fields[..i]) && MapFits(l, all)
    {
      assert l.fields[..i + 1] == l.fields[..i] + [l.fields[i]];
      FlattenNext(types, l.fields[..i], l.fields[i]);
      var next := FlattenField(types, l, l.fields[i], all);
      if next.None? {
        if MapFits(l, Flatten(types, l.fields)) {
          PrefixFits(types, l, i + 1);
        }
        return None;
      }
      all := next.value;
    }
    assert l.fields[..|l.fields|] == l.fields;
    r := Some(all);
  }

  /** The importer accepts exactly the map that the fields flatten to. */
  predicate MapAccepted(types: seq<TypeLayout>, l: ClassLayout, references: seq<nat>) {
    references == Flatten(types, l.fields) && MapFits(l, references)
  }

  method VerifyMap(types: seq<TypeLayout>, l: ClassLayout, references: seq<nat>) returns (ok: bool)
    ensures ok <==> MapAccepted(types, l, references)
  {
    var expected := FlattenFields(types, l);
    ok := expected == Some(references);
  }

  /** Every good layout passes all three. */
  lemma GoodIsSound(target: Target, types: seq<TypeLayout>, l: FileLayout)
    requires ValidTarget(target) && GoodLayout(target, types, l)
    ensures SoundLayout(types, l.storage) && SoundReferences(target, l.storage, l.references)
    ensures MapAccepted(types, l.storage, l.references)
  {
    forall i | 0 <= i < |l.references|
      ensures l.storage.headerSize <= l.references[i] && l.references[i] + target.pointer.size <= l.storage.size
      ensures forall j :: i < j < |l.references| ==> l.references[i] < l.references[j]
    {
      SpacedIncreases(l.references, l.storage.headerSize, l.storage.size, target.pointer.size, i);
    }
  }

  /** The importer's reconstruction as it runs, and its comparison with the stored layout. */
  method VerifyReconstruction(c: Context, f: File, base: Option<ClassLayout>, message: nat, stringType: nat,
                              stored: ClassLayout)
      returns (matches: bool)
    requires |c.owners| == |c.types|
    ensures matches <==> Reconstruct(c, f, base, message, stringType) == Some(stored)
  {
    var placed := Start(c, f.kind, base, message, stringType);
    ghost var start := placed;
    for i := 0 to |f.fields|
      invariant PlaceAll(c, f.fields[i..], placed) == PlaceAll(c, f.fields, start)
    {
      assert f.fields[i..][1..] == f.fields[i + 1..];
      var d := f.fields[i];
      if d.isStatic { continue; }
      if d.typeId >= |c.types| { return false; }
      var storage := c.types[d.typeId].storage;
      if storage.size == 0 || !PowerOfTwo(storage.alignment) || placed.offset > MAXIMUM - (storage.alignment - 1) {
        return false;
      }
      var offset := AlignDown(placed.offset + storage.alignment - 1, storage.alignment);
      if storage.size > MAXIMUM - offset { return false; }
      placed := Placed(placed.fields + [FieldLayout(d.symbol, d.typeId, offset)], offset + storage.size,
                       Max(placed.alignment, storage.alignment), NextDepth(c, d.typeId, placed.depth));
    }
    var layout := Pad(c, placed);
    matches := layout == Some(stored);
  }

  /** A heap box for a value: its payload, and the references of the value moved with it. */
  datatype ValueBox = ValueBox(payload: nat, size: nat, alignment: nat, references: seq<nat>)

  /** The payload is past the header, aligned and inside the box, and the reference map is that of the value. */
  predicate SoundBox(target: Target, value: TypeLayout, box: ValueBox) {
    var header := target.pointer.size * target.headerWords;
    && box.payload >= header && box.payload <= box.size && value.storage.size <= box.size - box.payload
    && Aligned(box.payload, value.storage.alignment) && box.references == Shifted(value.references, box.payload)
  }

  /** Neither the payload nor the padded box leaves 64 bits. */
  predicate BoxFits(target: Target, value: TypeLayout) {
    var payload := CheckedAlign(HeaderSize(target, false), value.storage.alignment);
    && payload.Some? && payload.value + value.storage.size <= MAXIMUM
    && CheckedAlign(payload.value + value.storage.size, Max(target.pointer.alignment, value.storage.alignment)).Some?
  }

  /** The box of a value, with every addition checked; a box that is made is sound, holds its references in order
      behind its header, and has a size that is a multiple of its alignment. */
  method LowerValueBox(target: Target, value: TypeLayout) returns (r: Option<ValueBox>)
    requires ValidTarget(target) && ValidType(target, value)
    ensures r.Some? <==> value.storage.size > 0 && BoxFits(target, value)
    ensures r.Some? ==> SoundBox(target, value, r.value) && Aligned(r.value.size, r.value.alignment)
    ensures r.Some? ==> Spaced(r.value.references, HeaderSize(target, false), r.value.size, target.pointer.size)
  {
    var header := target.pointer.size * target.headerWords;
    var payload := CheckedAlign(header, value.storage.alignment);
    if payload.None? { return None; }
    var end := CheckedAdd(payload.value, value.storage.size);
    if end.None? { return None; }
    var alignment := Max(target.pointer.alignment, value.storage.alignment);
    var size := CheckedAlign(end.value, alignment);
    if size.None? || value.storage.size == 0 { return None; }
    CheckedAlignIsClose(header, value.storage.alignment);
    CheckedAlignIsClose(end.value, alignment);
    var references := [];
    for i := 0 to |value.references|
      invariant references == Shifted(value.references, payload.value)[..i]
    {
      SpacedIncreases(value.references, 0, value.storage.size, target.pointer.size, i);
      var shifted := CheckedAdd(payload.value, value.references[i]);
      if shifted.None? { return None; }
      references := references + [shifted.value];
    }
    assert Shifted(value.references, payload.value)[..|value.references|] == Shifted(value.references, payload.value);
    BoxedReferences(value.references, header, payload.value, value.storage.size, size.value, target.pointer.size);
    r := Some(ValueBox(payload.value, size.value, alignment, references));
  }

  lemma BoxedReferences(references: seq<nat>, header: nat, payload: nat, size: nat, boxSize: nat, width: nat)
    requires Spaced(references, 0, size, width) && header <= payload && payload + size <= boxSize
    ensures Spaced(Shifted(references, payload), header, boxSize, width)
  {
    assert Spaced([], header, header, width);
    SpacedAppend([], header, header, references, payload, size, width);
    assert [] + Shifted(references, payload) == Shifted(references, payload);
    SpacedWiden(Shifted(references, payload), header, payload + size, boxSize, width);
  }
}
