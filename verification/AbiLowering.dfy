/** Lowering a whole module: types, then files in an order that puts bases and inline structs first. Success means
    good layouts everywhere, each of them the one the importer reconstructs and the verifier accepts. */
module AbiLowering {
  import opened Wrappers
  import opened Bits
  import opened Alignment
  import opened AbiLayout
  import opened AbiTypes
  import opened AbiVerifier
  import opened Topological

  const MAX_MAP_ENTRIES: nat := 1048576

  /** The semantic model: types by number, files by number, the string type and the message field of error classes. */
  datatype Model = Model(types: seq<SemanticType>, files: seq<File>, stringType: nat, message: nat)

  /** The file of the struct that a value of the type holds inline. */
  function OwnerOf(types: seq<SemanticType>, t: nat): Option<nat> {
    if t >= |types| then None
    else
      match types[t]
      case StructType(file) => Some(file)
      case NullableType(element) =>
        if element.Some? && element.value < |types| && types[element.value].StructType?
            then Some(types[element.value].file) else None
      case _ => None
  }

  function Owners(m: Model): (r: seq<Option<nat>>)
    ensures |r| == |m.types| && forall t :: 0 <= t < |r| ==> r[t] == OwnerOf(m.types, t)
  {
    seq(|m.types|, t requires 0 <= t < |m.types| => OwnerOf(m.types, t))
  }

  /** What semantic analysis guarantees: only classes and errors have bases, which are such themselves, a struct type
      and its file name each other, and nullables do not nest. */
  predicate WellFormed(m: Model) {
    && FlatNullables(m.types) && m.stringType < |m.types| && m.types[m.stringType].ReferenceType?
    && (forall f :: 0 <= f < |m.files| ==> WellFormedFile(m, f))
    && (forall t :: 0 <= t < |m.types| && m.types[t].StructType? && m.types[t].file < |m.files| ==>
          m.files[m.types[t].file].kind.StructFile? && m.files[m.types[t].file].typeId == t)
  }

  predicate WellFormedFile(m: Model, f: nat)
    requires f < |m.files|
  {
    var file := m.files[f];
    && (file.base.Some? ==>
          IsManaged(file.kind)
          && (file.base.value < |m.files| ==> IsManaged(m.files[file.base.value].kind)))
    && (file.kind.StructFile? ==> file.typeId < |m.types| && m.types[file.typeId] == StructType(f))
  }

  predicate IsManaged(kind: FileKind) {
    kind.ClassFile? || kind.ErrorFile?
  }

  // ----- dependencies -----

  function AddOnce(list: seq<nat>, x: nat): (r: seq<nat>)
    ensures forall y :: y in r <==> y in list || y == x
  {
    if x in list then list else list + [x]
  }

  /** The base and the inline structs of a file, each once. */
  function NeedsOf(m: Model, fields: seq<Field>, base: Option<nat>): (r: seq<nat>)
    ensures forall y :: y in r <==>
              base == Some(y) || exists d :: d in fields && !d.isStatic && OwnerOf(m.types, d.typeId) == Some(y)
  {
    if fields == [] then (if base.Some? then [base.value] else [])
    else
      var n := |fields| - 1;
      var front := NeedsOf(m, fields[..n], base);
      assert fields == fields[..n] + [fields[n]];
      if fields[n].isStatic || OwnerOf(m.types, fields[n].typeId).None? then front
      else AddOnce(front, OwnerOf(m.types, fields[n].typeId).value)
  }

  function Needs(m: Model): (r: map<nat, seq<nat>>)
    ensures forall f: nat :: f in r <==> f < |m.files|
  {
    map f: nat | f < |m.files| :: NeedsOf(m, m.files[f].fields, m.files[f].base)
  }

  // ----- one more file -----

  /** The type's layout no longer changes: it holds no struct, or one whose file has been laid out. */
  predicate Settled(m: Model, done: set<nat>, t: nat) {
    OwnerOf(m.types, t).Some? ==> OwnerOf(m.types, t).value in done
  }

  function Depths(layouts: map<nat, FileLayout>): map<nat, nat> {
    map f | f in layouts :: layouts[f].depth
  }

  function ContextFor(m: Model, target: Target, types: seq<TypeLayout>, layouts: map<nat, FileLayout>,
                      kind: FileKind): Context {
    Context(target, types, Owners(m), Depths(layouts), kind.StructFile?)
  }

  function BaseOf(f: File, layouts: map<nat, FileLayout>): Option<FileLayout> {
    if f.base.Some? && f.base.value in layouts then Some(layouts[f.base.value]) else None
  }

  /** The type's values are what the file lays out: its size, its alignment and every reference. */
  predicate StoredAs(t: TypeLayout, l: FileLayout) {
    && t.kind.AggregateKind? && t.bits == 0 && t.storage.size == l.storage.size
    && t.storage.alignment == l.storage.alignment && t.references == l.references
  }

  function StructLayout(l: FileLayout): TypeLayout {
    TypeLayout(AggregateKind, 0, Storage(l.storage.size, l.storage.alignment), l.references)
  }

  /** A layout of a file against the given tables: good, reconstructed by the importer, with its base's storage
      first. */
  predicate GoodFile(m: Model, target: Target, types: seq<TypeLayout>, layouts: map<nat, FileLayout>, file: File,
                     l: FileLayout)
    requires |types| == |m.types|
  {
    if file.kind.EnumFile? then l == ENUM_LAYOUT
    else
      && GoodLayout(target, types, l) && l.storage.headerSize == HeaderSize(target, file.kind.StructFile?)
      && (file.base.Some? ==> file.base.value in layouts && Extends(l.storage, layouts[file.base.value].storage))
      && Reconstruct(ContextFor(m, target, types, layouts, file.kind), file, BaseStorage(BaseOf(file, layouts)),
                     m.message, m.stringType)
         == Some(l.storage)
  }

  /** Everything the layout depends on is settled. */
  predicate SettledFile(m: Model, done: set<nat>, file: File, l: FileLayout) {
    && (forall d :: d in file.fields && !d.isStatic ==> Settled(m, done, d.typeId))
    && (forall x :: x in l.storage.fields ==> Settled(m, done, x.typeId))
    && (file.base.Some? ==> file.base.value in done)
  }

  /** Struct types have the layouts of their files. */
  predicate TypesFollow(m: Model, types: seq<TypeLayout>, layouts: map<nat, FileLayout>)
    requires |types| == |m.types|
  {
    forall f :: f in layouts && f < |m.files| && m.files[f].kind.StructFile? ==>
      && m.files[f].typeId < |types| && StoredAs(types[m.files[f].typeId], layouts[f])
      && 0 < layouts[f].storage.size <= MAX_STRUCT_SIZE
  }

  /** Between two files of the traversal. */
  predicate LoweredTo(m: Model, target: Target, types: seq<TypeLayout>, layouts: map<nat, FileLayout>) {
    && Tabled(target, m.types, types) && TypesFollow(m, types, layouts)
    && forall f {:trigger Finished(m, target, types, layouts, f)} :: f in layouts ==>
        Finished(m, target, types, layouts, f)
  }

  /** The file is laid out well, and its layout no longer changes. */
  predicate Finished(m: Model, target: Target, types: seq<TypeLayout>, layouts: map<nat, FileLayout>, f: nat)
    requires |types| == |m.types| && f in layouts
  {
    && f < |m.files| && SettledFile(m, layouts.Keys, m.files[f], layouts[f])
    && GoodFile(m, target, types, layouts, m.files[f], layouts[f])
  }

  // ----- what later files leave alone -----

  /** The tables differ only in types that are not settled. */
  predicate Agrees(m: Model, types: seq<TypeLayout>, types': seq<TypeLayout>, done: set<nat>) {
    |types| == |types'| && forall t :: 0 <= t < |types| && Settled(m, done, t) ==> types[t] == types'[t]
  }

  lemma {:induction false} FlattenStable(types: seq<TypeLayout>, types': seq<TypeLayout>, fields: seq<FieldLayout>)
    requires |types| == |types'|
    requires forall x :: x in fields && x.typeId < |types| ==> types[x.typeId] == types'[x.typeId]
    ensures Flatten(types, fields) == Flatten(types', fields)
    decreases |fields|
  {
    if fields != [] {
      var n := |fields| - 1;
      assert fields[n] in fields;
      FlattenStable(types, types', fields[..n]);
    }
  }

  lemma {:induction false} InOrderStable(types: seq<TypeLayout>, types': seq<TypeLayout>, fields: seq<FieldLayout>,
                                         low: nat, high: nat)
    requires |types| == |types'|
    requires forall x :: x in fields && x.typeId < |types| ==> types[x.typeId] == types'[x.typeId]
    requires InOrder(types, fields, low, high)
    ensures InOrder(types', fields, low, high)
    decreases |fields|
  {
    if fields != [] {
      var n := |fields| - 1;
      assert fields[n] in fields;
      InOrderStable(types, types', fields[..n], low, fields[n].offset);
    }
  }

  /** The contexts show the declaration the same. */
  ghost predicate SameFor(c: Context, c': Context, d: Field)
    requires |c.owners| == |c.types| && |c'.owners| == |c'.types|
  {
    && c.target == c'.target && c.aggregate == c'.aggregate && |c.types| == |c'.types|
    && (!d.isStatic && d.typeId < |c.types| ==>
          && c.types[d.typeId] == c'.types[d.typeId]
          && forall depth: nat :: NextDepth(c, d.typeId, depth) == NextDepth(c', d.typeId, depth))
  }

  lemma {:induction false} PlaceAllStable(c: Context, c': Context, declarations: seq<Field>, before: Placed)
    requires |c.owners| == |c.types| && |c'.owners| == |c'.types|
    requires forall d :: d in declarations ==> SameFor(c, c', d)
    ensures PlaceAll(c, declarations, before) == PlaceAll(c', declarations, before)
    decreases |declarations|
  {
    if declarations != [] {
      assert SameFor(c, c', declarations[0]);
      assert PlaceNext(c, declarations[0], before) == PlaceNext(c', declarations[0], before);
      if PlaceNext(c, declarations[0], before).Some? {
        PlaceAllStable(c, c', declarations[1..], PlaceNext(c, declarations[0], before).value);
      }
    }
  }

  /** A file already laid out stays good when another is laid out. */
  lemma GoodFileStable(m: Model, target: Target, types: seq<TypeLayout>, types': seq<TypeLayout>,
                       layouts: map<nat, FileLayout>,
                       k: nat, added: FileLayout, file: File, l: FileLayout)
    requires |types| == |types'| == |m.types| && k !in layouts && Agrees(m, types, types', layouts.Keys)
    requires SettledFile(m, layouts.Keys, file, l) && GoodFile(m, target, types, layouts, file, l)
    ensures GoodFile(m, target, types', layouts[k := added], file, l)
  {
    if !file.kind.EnumFile? {
      GoodLayoutStable(target, types, types', l);
      var layouts' := layouts[k := added];
      var c, c' := ContextFor(m, target, types, layouts, file.kind), ContextFor(m, target, types', layouts', file.kind);
      forall d | d in file.fields ensures SameFor(c, c', d) {
        ContextsShowSame(m, target, types, types', layouts, k, added, file.kind, d);
      }
      ReconstructStable(c, c', file, BaseStorage(BaseOf(file, layouts)), m.message, m.stringType);
    }
  }

  lemma GoodLayoutStable(target: Target, types: seq<TypeLayout>, types': seq<TypeLayout>, l: FileLayout)
    requires GoodLayout(target, types, l)
    requires |types| == |types'|
    requires forall x :: x in l.storage.fields && x.typeId < |types| ==> types[x.typeId] == types'[x.typeId]
    ensures GoodLayout(target, types', l)
  {
    InOrderStable(types, types', l.storage.fields, l.storage.headerSize, l.storage.size);
    FlattenStable(types, types', l.storage.fields);
  }

  lemma ReconstructStable(c: Context, c': Context, file: File, base: Option<ClassLayout>, message: nat, stringType: nat)
    requires |c.owners| == |c.types| && |c'.owners| == |c'.types| && c.target == c'.target
    requires c.aggregate == c'.aggregate
    requires forall d :: d in file.fields ==> SameFor(c, c', d)
    ensures Reconstruct(c, file, base, message, stringType) == Reconstruct(c', file, base, message, stringType)
  {
    PlaceAllStable(c, c', file.fields, Start(c, file.kind, base, message, stringType));
  }

  lemma ContextsShowSame(m: Model, target: Target, types: seq<TypeLayout>, types': seq<TypeLayout>,
                         layouts: map<nat, FileLayout>,
                         k: nat, added: FileLayout, kind: FileKind, d: Field)
    requires |types| == |types'| == |m.types| && k !in layouts && Agrees(m, types, types', layouts.Keys)
    requires !d.isStatic ==> Settled(m, layouts.Keys, d.typeId)
    ensures SameFor(ContextFor(m, target, types, layouts, kind),
                    ContextFor(m, target, types', layouts[k := added], kind), d)
  {
  }

  /** Every placed field was there before or is a declared one. */
  lemma {:induction false} PlacedAreDeclared(m: Model, c: Context, done: set<nat>, declarations: seq<Field>,
                                             before: Placed)
    requires |c.owners| == |c.types| && PlaceAll(c, declarations, before).Some?
    requires forall d :: d in declarations && !d.isStatic ==> Settled(m, done, d.typeId)
    requires forall x :: x in before.fields ==> Settled(m, done, x.typeId)
    ensures forall x :: x in PlaceAll(c, declarations, before).value.fields ==> Settled(m, done, x.typeId)
    decreases |declarations|
  {
    if declarations != [] {
      assert declarations[0] in declarations;
      var next := PlaceNext(c, declarations[0], before).value;
      assert forall x :: x in next.fields ==> Settled(m, done, x.typeId);
      PlacedAreDeclared(m, c, done, declarations[1..], next);
    }
  }

  /** Once a file's needs are laid out, its own layout is settled. */
  lemma NewFileIsSettled(m: Model, target: Target, types: seq<TypeLayout>, layouts: map<nat, FileLayout>, f: nat,
                         l: FileLayout)
    requires WellFormed(m) && LoweredTo(m, target, types, layouts) && f < |m.files|
    requires forall y :: y in NeedsOf(m, m.files[f].fields, m.files[f].base) ==> y in layouts
    requires GoodFile(m, target, types, layouts, m.files[f], l)
    ensures SettledFile(m, layouts.Keys, m.files[f], l)
  {
    var file := m.files[f];
    var needs := NeedsOf(m, file.fields, file.base);
    forall d | d in file.fields && !d.isStatic ensures Settled(m, layouts.Keys, d.typeId) {
      if OwnerOf(m.types, d.typeId).Some? {
        assert OwnerOf(m.types, d.typeId).value in needs;
      }
    }
    if !file.kind.EnumFile? {
      var c := ContextFor(m, target, types, layouts, file.kind);
      var start := Start(c, file.kind, BaseStorage(BaseOf(file, layouts)), m.message, m.stringType);
      forall x | x in start.fields ensures Settled(m, layouts.Keys, x.typeId) {
        if file.base.Some? {
          assert Finished(m, target, types, layouts, file.base.value);
        }
      }
      PlacedAreDeclared(m, c, layouts.Keys, file.fields, start);
    }
  }

  // ----- lowering -----

  /** The first `n` entries before any file is laid out. */
  function InitialTypes(m: Model, target: Target, n: nat): (types: seq<TypeLayout>)
    requires n <= |m.types|
    ensures |types| == n
  {
    if n == 0 then []
    else
      var before := InitialTypes(m, target, n - 1);
      before + [LoweredEntry(target, m.types, m.types[n - 1], before)]
  }

  /** Later entries do not change what an earlier one looks at. */
  lemma EntryStays(target: Target, defs: seq<SemanticType>, t: nat, types: seq<TypeLayout>, more: seq<TypeLayout>)
    requires FlatNullables(defs) && t < |defs| && t <= |types|
    ensures LoweredEntry(target, defs, defs[t], types) == LoweredEntry(target, defs, defs[t], types + more)
  {
  }

  lemma {:induction false} InitialEntries(m: Model, target: Target, n: nat, t: nat)
    requires WellFormed(m) && t < n <= |m.types|
    ensures InitialTypes(m, target, n)[t] == LoweredEntry(target, m.types, m.types[t], InitialTypes(m, target, n))
  {
    var front := InitialTypes(m, target, n - 1);
    var last := LoweredEntry(target, m.types, m.types[n - 1], front);
    EntryStays(target, m.types, t, front, [last]);
    if t < n - 1 {
      InitialEntries(m, target, n - 1, t);
    }
  }

  method LowerTypes(m: Model, target: Target) returns (types: seq<TypeLayout>)
    requires ValidTarget(target) && WellFormed(m)
    ensures types == InitialTypes(m, target, |m.types|) && Tabled(target, m.types, types)
  {
    types := [];
    for t := 0 to |m.types|
      invariant types == InitialTypes(m, target, t) && forall i :: 0 <= i < t ==> ValidType(target, types[i])
    {
      var layout := LowerType(target, m.types, m.types[t], types);
      types := types + [layout];
    }
    forall t | 0 <= t < |types| ensures types[t] == LoweredEntry(target, m.types, m.types[t], types) {
      InitialEntries(m, target, |m.types|, t);
    }
  }

  lemma StructIsValid(target: Target, types: seq<TypeLayout>, l: FileLayout)
    requires GoodLayout(target, types, l) && l.storage.headerSize == 0
    ensures ValidType(target, StructLayout(l))
  {
  }

  /** A struct within the size limit can be made nullable. */
  lemma NullableStructFits(target: Target, types: seq<TypeLayout>, l: FileLayout)
    requires GoodLayout(target, types, l) && 0 < l.storage.size <= MAX_STRUCT_SIZE
    ensures NullableLayout(StructLayout(l)).Some?
  {
    AlignedZero(l.storage.alignment);
    AlignedGap(0, l.storage.size, l.storage.alignment);
  }

  /** The table with a struct's layout as its type's, and the nullable types over it following. */
  function SetStruct(defs: seq<SemanticType>, types: seq<TypeLayout>, t: nat, layout: TypeLayout): (r: seq<TypeLayout>)
    requires |defs| == |types|
    ensures |r| == |types| && forall i :: 0 <= i < |r| ==> r[i] == StructEntry(defs, types, t, layout, i)
  {
    seq(|types|, i requires 0 <= i < |types| => StructEntry(defs, types, t, layout, i))
  }

  function StructEntry(defs: seq<SemanticType>, types: seq<TypeLayout>, t: nat, layout: TypeLayout, i: nat): TypeLayout
    requires i < |defs| == |types|
  {
    if i == t then layout
    else if defs[i] == NullableType(Some(t)) && NullableLayout(layout).Some? then NullableLayout(layout).value
    else types[i]
  }

  /** Records a struct's layout. */
  method SetStructType(m: Model, target: Target, types: seq<TypeLayout>, t: nat, layout: TypeLayout)
    returns (r: Option<seq<TypeLayout>>)
    requires ValidTarget(target) && ValidType(target, layout) && t < |types| == |m.types| && m.types[t].StructType?
    ensures r.None? <==>
              NullableLayout(layout).None? && exists i :: 0 <= i < |types| && m.types[i] == NullableType(Some(t))
    ensures r.Some? ==> r.value == SetStruct(m.types, types, t, layout)
  {
    var next := types[t := layout];
    for i := 0 to |types|
      invariant |next| == |types| && next[t] == layout
      invariant forall k :: 0 <= k < i ==> next[k] == StructEntry(m.types, types, t, layout, k)
      invariant forall k :: i <= k < |types| && k != t ==> next[k] == types[k]
      invariant NullableLayout(layout).None? ==> forall k :: 0 <= k < i ==> m.types[k] != NullableType(Some(t))
    {
      if m.types[i] == NullableType(Some(t)) {
        var nullable := LowerNullable(target, next[t]);
        if nullable.None? { return None; }
        next := next[i := nullable.value];
      }
    }
    r := Some(next);
  }

  /** Recording a struct leaves settled types alone and keeps the table. */
  lemma StructIsRecorded(m: Model, target: Target, types: seq<TypeLayout>, layouts: map<nat, FileLayout>, f: nat,
                         l: FileLayout)
    requires ValidTarget(target) && WellFormed(m) && Tabled(target, m.types, types) && TypesFollow(m, types, layouts)
    requires f < |m.files| && f !in layouts && m.files[f].kind.StructFile? && WellFormedFile(m, f)
    requires ValidType(target, StructLayout(l)) && NullableLayout(StructLayout(l)).Some?
    requires 0 < l.storage.size <= MAX_STRUCT_SIZE
    ensures var types' := SetStruct(m.types, types, m.files[f].typeId, StructLayout(l));
            Agrees(m, types, types', layouts.Keys) && Tabled(target, m.types, types')
                && TypesFollow(m, types', layouts[f := l])
  {
    var t := m.files[f].typeId;
    var types' := SetStruct(m.types, types, t, StructLayout(l));
    assert OwnerOf(m.types, t) == Some(f);
    forall i | 0 <= i < |types|
      ensures ValidType(target, types'[i])
      ensures if m.types[i].StructType? then types'[i].kind.AggregateKind? && types'[i].bits == 0
              else types'[i] == LoweredEntry(target, m.types, m.types[i], types')
    {
      EntryFollows(m, target, types, f, l, i);
    }
    forall g | g in layouts && g < |m.files| && m.files[g].kind.StructFile?
      ensures types'[m.files[g].typeId] == StructLayout(layouts[g])
    {
      assert WellFormedFile(m, g);
    }
  }

  /** Each entry still is what it should be once a struct is recorded. */
  lemma EntryFollows(m: Model, target: Target, types: seq<TypeLayout>, f: nat, l: FileLayout, i: nat)
    requires ValidTarget(target) && WellFormed(m) && Tabled(target, m.types, types) && i < |types|
    requires f < |m.files| && m.files[f].kind.StructFile? && WellFormedFile(m, f)
    requires ValidType(target, StructLayout(l)) && NullableLayout(StructLayout(l)).Some?
    ensures var types' := SetStruct(m.types, types, m.files[f].typeId, StructLayout(l));
            && ValidType(target, types'[i])
            && if m.types[i].StructType? then types'[i].kind.AggregateKind? && types'[i].bits == 0
               else types'[i] == LoweredEntry(target, m.types, m.types[i], types')
  {
    assert ValidType(target, types[i]);
    NullableIsValid(target, StructLayout(l));
    if m.types[i].NullableType? && m.types[i].element.Some? {
      var e := m.types[i].element.value;
      assert e < i && !m.types[e].NullableType?;
    }
  }

  /** A file that is not a struct changes no type. */
  lemma PlainIsRecorded(m: Model, types: seq<TypeLayout>, layouts: map<nat, FileLayout>, f: nat, l: FileLayout)
    requires |types| == |m.types| && TypesFollow(m, types, layouts)
    requires f < |m.files| && !m.files[f].kind.StructFile?
    ensures TypesFollow(m, types, layouts[f := l])
  {
  }

  /** The tables with one more file. */
  lemma OneMoreFile(m: Model, target: Target, types: seq<TypeLayout>, types': seq<TypeLayout>,
                    layouts: map<nat, FileLayout>, f: nat, l: FileLayout)
    requires WellFormed(m) && LoweredTo(m, target, types, layouts) && f < |m.files| && f !in layouts
    requires Tabled(target, m.types, types') && TypesFollow(m, types', layouts[f := l])
    requires Agrees(m, types, types', layouts.Keys)
    requires SettledFile(m, layouts.Keys, m.files[f], l) && GoodFile(m, target, types, layouts, m.files[f], l)
    ensures LoweredTo(m, target, types', layouts[f := l])
  {
    var layouts' := layouts[f := l];
    forall g | g in layouts' ensures Finished(m, target, types', layouts', g) {
      assert g != f ==> Finished(m, target, types, layouts, g);
      SettledStays(m, layouts.Keys, layouts'.Keys, m.files[g], layouts'[g]);
      GoodFileStable(m, target, types, types', layouts, f, l, m.files[g], layouts'[g]);
    }
  }

  lemma SettledStays(m: Model, done: set<nat>, done': set<nat>, file: File, l: FileLayout)
    requires SettledFile(m, done, file, l) && done <= done'
    ensures SettledFile(m, done', file, l)
  {
  }

  /** The base is laid out and fit to be extended. */
  lemma BaseIsValid(m: Model, target: Target, types: seq<TypeLayout>, layouts: map<nat, FileLayout>, f: nat)
    requires ValidTarget(target) && WellFormed(m) && LoweredTo(m, target, types, layouts) && f < |m.files|
    requires m.files[f].base.Some? ==> m.files[f].base.value in layouts
    ensures var c := ContextFor(m, target, types, layouts, m.files[f].kind);
            ValidContext(c) && ValidBase(c, BaseOf(m.files[f], layouts))
  {
    var file := m.files[f];
    assert WellFormedFile(m, f);
    if file.base.Some? {
      var b := file.base.value;
      assert Finished(m, target, types, layouts, b);
    }
  }

  /** How far lowering has come, with the entries of all reference maps counted. */
  datatype Progress = Progress(types: seq<TypeLayout>, layouts: map<nat, FileLayout>, entries: nat)

  datatype Along = Reached(state: Progress) | Stopped(failure: Failure)

  function NewLayout(m: Model, target: Target, s: Progress, f: nat): Option<FileLayout>
    requires f < |m.files| && |s.types| == |m.types|
  {
    LayoutOf(ContextFor(m, target, s.types, s.layouts, m.files[f].kind), m.files[f], BaseOf(m.files[f], s.layouts),
             m.message, m.stringType)
  }

  /** One more file: it may not fit, or its map may pass the limit on all maps. */
  function Advance(m: Model, target: Target, s: Progress, f: nat): (r: Along)
    requires f < |m.files| && |s.types| == |m.types|
    ensures r.Reached? ==> |r.state.types| == |m.types|
  {
    var layout := NewLayout(m, target, s, f);
    if layout.None? then Stopped(LayoutFailure)
    else if |layout.value.references| > MAX_MAP_ENTRIES - s.entries then Stopped(MapLimit)
    else Reached(Progress(NewTypes(m, s.types, f, layout.value), s.layouts[f := layout.value],
                          s.entries + |layout.value.references|))
  }

  function NewTypes(m: Model, types: seq<TypeLayout>, f: nat, l: FileLayout): (r: seq<TypeLayout>)
    requires f < |m.files| && |types| == |m.types|
    ensures |r| == |types|
  {
    if m.files[f].kind.StructFile? then SetStruct(m.types, types, m.files[f].typeId, StructLayout(l)) else types
  }

  /** Where the first `i` files of an order lead. */
  function LowerAlong(m: Model, target: Target, order: seq<nat>, i: nat): (r: Along)
    requires i <= |order| && forall k :: 0 <= k < |order| ==> order[k] < |m.files|
    ensures r.Reached? ==> |r.state.types| == |m.types|
  {
    if i == 0 then Reached(Progress(InitialTypes(m, target, |m.types|), map[], 0))
    else
      match LowerAlong(m, target, order, i - 1)
      case Stopped(failure) => Stopped(failure)
      case Reached(s) => Advance(m, target, s, order[i - 1])
  }

  /** Lays out one file whose needs are laid out. */
  method LowerOne(m: Model, target: Target, s: Progress, f: nat) returns (r: Along)
    requires ValidTarget(target) && WellFormed(m) && LoweredTo(m, target, s.types, s.layouts) && f < |m.files|
    requires f !in s.layouts
    requires forall y :: y in NeedsOf(m, m.files[f].fields, m.files[f].base) ==> y in s.layouts
    ensures r == Advance(m, target, s, f)
    ensures r.Reached? ==>
              LoweredTo(m, target, r.state.types, r.state.layouts)
              && r.state.layouts.Keys == s.layouts.Keys + {f}
  {
    var file := m.files[f];
    assert WellFormedFile(m, f);
    BaseIsValid(m, target, s.types, s.layouts, f);
    var c := ContextFor(m, target, s.types, s.layouts, file.kind);
    StringIsPointer(m, target, s.types);
    var layout := LowerFileLayout(c, file, BaseOf(file, s.layouts), m.message, m.stringType);
    if layout.None? { return Stopped(LayoutFailure); }
    var l := layout.value;
    if |l.references| > MAX_MAP_ENTRIES - s.entries { return Stopped(MapLimit); }
    HeaderOfLayout(c, file, BaseOf(file, s.layouts), m.message, m.stringType);
    var types := RecordFile(m, target, s.types, s.layouts, f, l);
    r := Reached(Progress(types, s.layouts[f := l], s.entries + |l.references|));
  }

  /** Records a good layout: in the type table when it is a struct's. */
  method RecordFile(m: Model, target: Target, types: seq<TypeLayout>, ghost layouts: map<nat, FileLayout>, f: nat,
                    l: FileLayout)
    returns (types': seq<TypeLayout>)
    requires ValidTarget(target) && WellFormed(m) && LoweredTo(m, target, types, layouts) && f < |m.files|
    requires f !in layouts
    requires forall y :: y in NeedsOf(m, m.files[f].fields, m.files[f].base) ==> y in layouts
    requires GoodFile(m, target, types, layouts, m.files[f], l)
    requires m.files[f].kind.StructFile? ==> 0 < l.storage.size <= MAX_STRUCT_SIZE
    ensures types' == NewTypes(m, types, f, l)
    ensures LoweredTo(m, target, types', layouts[f := l])
  {
    var file := m.files[f];
    assert WellFormedFile(m, f);
    types' := types;
    if file.kind.StructFile? {
      StructIsValid(target, types, l);
      NullableStructFits(target, types, l);
      var recorded := SetStructType(m, target, types, file.typeId, StructLayout(l));
      types' := recorded.value;
      StructIsRecorded(m, target, types, layouts, f, l);
    } else {
      PlainIsRecorded(m, types, layouts, f, l);
    }
    NewFileIsSettled(m, target, types, layouts, f, l);
    OneMoreFile(m, target, types, types', layouts, f, l);
  }

  lemma StringIsPointer(m: Model, target: Target, types: seq<TypeLayout>)
    requires WellFormed(m) && Tabled(target, m.types, types)
    ensures types[m.stringType] == Pointer(target)
  {
  }

  lemma HeaderOfLayout(c: Context, f: File, base: Option<FileLayout>, message: nat, stringType: nat)
    requires |c.owners| == |c.types|
    ensures Reconstruct(c, f, BaseStorage(base), message, stringType).Some? ==>
              Reconstruct(c, f, BaseStorage(base), message, stringType).value.headerSize
                  == HeaderSize(c.target, c.aggregate)
  {
  }

  datatype Abi = Abi(types: seq<TypeLayout>, layouts: map<nat, FileLayout>)

  datatype Failure = InvalidTarget | MissingDeclaration | LayoutFailure | MapLimit | DependencyCycle

  datatype Lowering = Success(abi: Abi) | Failed(failure: Failure)

  /** What a traversal released: files after their needs, and no file left all of whose needs are released. */
  ghost predicate Released(needs: map<nat, seq<nat>>, order: seq<nat>) {
    && Ordered(needs, order) && Stuck(needs, needs.Keys - Elements(order))
    && (|order| == |needs.Keys| <==> !Cyclic(needs))
  }

  /** What lowering ends with where an order leads, when all files or only some were released. */
  function Conclude(along: Along, complete: bool): Lowering {
    match along
    case Stopped(failure) => Failed(failure)
    case Reached(s) => if complete then Success(Abi(s.types, s.layouts)) else Failed(DependencyCycle)
  }

  /** Lowers a module in the order of its traversal. Success means complete and good tables. Each failure has its
      condition: a cycle is reported exactly when there is one and nothing released misfits or passes the map limit. */
  method LowerToAbi(m: Model, target: Target) returns (r: Lowering, ghost order: seq<nat>)
    requires WellFormed(m)
    ensures r == Failed(InvalidTarget) <==> !ValidTarget(target)
    ensures r == Failed(MissingDeclaration) <==> ValidTarget(target) && !Closed(Needs(m).Keys, Needs(m))
    ensures forall k :: 0 <= k < |order| ==> order[k] < |m.files|
    ensures ValidTarget(target) && Closed(Needs(m).Keys, Needs(m)) ==>
              Released(Needs(m), order) && r == Conclude(LowerAlong(m, target, order, |order|), !Cyclic(Needs(m)))
    ensures r == Failed(DependencyCycle) <==>
              && ValidTarget(target) && Closed(Needs(m).Keys, Needs(m))
              && Cyclic(Needs(m)) && LowerAlong(m, target, order, |order|).Reached?
    ensures r.Failed? && r.failure in {LayoutFailure, MapLimit} ==>
              exists k :: 0 <= k < |order| && StopsAt(m, target, order, k, r.failure)
    ensures r.Success? ==> LoweredTo(m, target, r.abi.types, r.abi.layouts) && r.abi.layouts.Keys == Needs(m).Keys
  {
    order := [];
    if !ValidTarget(target) { return Failed(InvalidTarget), []; }
    var needs := Needs(m);
    var declared := NeedsDeclared(|m.files|, needs);
    if !declared { return Failed(MissingDeclaration), []; }
    var released := Release(|m.files|, needs);
    order := released;
    OrderIsDeclared(m, released);
    var types := LowerTypes(m, target);
    var along := LowerFiles(m, target, types, needs, released);
    FailuresAlong(m, target, released, |released|);
    r := Conclude(along, |released| == |m.files|);
  }

  /** The files in an order that puts needs first, as many as can be. */
  method Release(files: nat, needs: map<nat, seq<nat>>) returns (order: seq<nat>)
    requires (forall f: nat :: f in needs <==> f < files) && Closed(needs.Keys, needs)
    ensures Released(needs, order) && (|order| == files <==> !Cyclic(needs))
    ensures !Cyclic(needs) ==> Elements(order) == needs.Keys
  {
    var nodes := FileNumbers(files);
    NumbersAreNodes(files, nodes, needs);
    order := Sort(nodes, needs);
    DistinctCount(nodes);
  }

  lemma OrderIsDeclared(m: Model, order: seq<nat>)
    requires Ordered(Needs(m), order)
    ensures forall k :: 0 <= k < |order| ==> order[k] < |m.files|
  {
  }

  /** Lowering along an order stops only at a file that does not fit or at the limit on all maps. */
  lemma {:induction false} FailuresAlong(m: Model, target: Target, order: seq<nat>, i: nat)
    requires i <= |order| && forall k :: 0 <= k < |order| ==> order[k] < |m.files|
    ensures var along := LowerAlong(m, target, order, i);
            along.Stopped? ==>
              && along.failure in {LayoutFailure, MapLimit}
              && exists k :: 0 <= k < i && StopsAt(m, target, order, k, along.failure)
  {
    if i > 0 {
      FailuresAlong(m, target, order, i - 1);
      var before := LowerAlong(m, target, order, i - 1);
      if before.Reached? && LowerAlong(m, target, order, i).Stopped? {
        assert StopsAt(m, target, order, i - 1, LowerAlong(m, target, order, i).failure);
      }
    }
  }

  /** The files before number `k` of the order are laid out, and this one is where it stops: it does not fit, or with
      its map the limit is passed. */
  predicate StopsAt(m: Model, target: Target, order: seq<nat>, k: nat, failure: Failure)
    requires k < |order| && forall j :: 0 <= j < |order| ==> order[j] < |m.files|
  {
    var along := LowerAlong(m, target, order, k);
    along.Reached?
    && (var layout := NewLayout(m, target, along.state, order[k]);
        if layout.None? then failure == LayoutFailure
        else failure == MapLimit && along.state.entries + |layout.value.references| > MAX_MAP_ENTRIES)
  }

  /** The files of a module, by number. */
  function FileNumbers(n: nat): (r: seq<nat>)
    ensures |r| == n && forall i :: 0 <= i < n ==> r[i] == i
    ensures Distinct(r)
  {
    seq(n, i requires 0 <= i < n => i)
  }

  lemma NumbersAreNodes(n: nat, nodes: seq<nat>, needs: map<nat, seq<nat>>)
    requires |nodes| == n && (forall i :: 0 <= i < n ==> nodes[i] == i) && forall f: nat :: f in needs <==> f < n
    ensures Elements(nodes) == needs.Keys
  {
    forall f | f in needs ensures f in nodes {
      assert nodes[f] == f;
    }
  }

  /** Whether every need is a file of the module. */
  method NeedsDeclared(files: nat, needs: map<nat, seq<nat>>) returns (ok: bool)
    requires forall f: nat :: f in needs <==> f < files
    ensures ok <==> Closed(needs.Keys, needs)
  {
    for f := 0 to files
      invariant forall x, y :: x in needs && x < f && y in needs[x] ==> y in needs
    {
      for i := 0 to |needs[f]|
        invariant forall k :: 0 <= k < i ==> needs[f][k] in needs
      {
        if needs[f][i] >= files {
          assert needs[f][i] in needs[f];
          return false;
        }
      }
    }
    ok := true;
  }

  lemma NothingIsLowered(m: Model, target: Target, types: seq<TypeLayout>)
    requires Tabled(target, m.types, types)
    ensures LoweredTo(m, target, types, map[])
  {
  }

  /** Lays out the files in order. */
  method LowerFiles(m: Model, target: Target, initial: seq<TypeLayout>, needs: map<nat, seq<nat>>, order: seq<nat>)
    returns (r: Along)
    requires ValidTarget(target) && WellFormed(m) && needs == Needs(m) && Ordered(needs, order)
    requires initial == InitialTypes(m, target, |m.types|) && Tabled(target, m.types, initial)
    requires forall k :: 0 <= k < |order| ==> order[k] < |m.files|
    ensures r == LowerAlong(m, target, order, |order|)
    ensures r.Reached? ==>
              LoweredTo(m, target, r.state.types, r.state.layouts)
              && r.state.layouts.Keys == Elements(order)
  {
    var s := Progress(initial, map[], 0);
    NothingIsLowered(m, target, initial);
    for i := 0 to |order|
      invariant LoweredUpTo(m, target, order, i, s)
    {
      var next := LowerNext(m, target, needs, order, i, s);
      if next.Stopped? {
        StoppedStays(m, target, order, i + 1, |order|);
        return next;
      }
      s := next.state;
    }
    assert order[..|order|] == order;
    r := Reached(s);
  }

  /** The first `i` files of the order are laid out. */
  ghost predicate LoweredUpTo(m: Model, target: Target, order: seq<nat>, i: nat, s: Progress)
    requires i <= |order| && forall k :: 0 <= k < |order| ==> order[k] < |m.files|
  {
    && LowerAlong(m, target, order, i) == Reached(s)
    && LoweredTo(m, target, s.types, s.layouts) && s.layouts.Keys == Elements(order[..i])
  }

  /** Lays out file number `i` of the order. */
  method LowerNext(m: Model, target: Target, ghost needs: map<nat, seq<nat>>, order: seq<nat>, i: nat, s: Progress)
    returns (r: Along)
    requires ValidTarget(target) && WellFormed(m) && needs == Needs(m) && Ordered(needs, order) && i < |order|
    requires forall k :: 0 <= k < |order| ==> order[k] < |m.files|
    requires LoweredUpTo(m, target, order, i, s)
    ensures r == LowerAlong(m, target, order, i + 1)
    ensures r.Reached? ==> LoweredUpTo(m, target, order, i + 1, r.state)
  {
    NeedsLookup(m, needs, order, i);
    r := LowerOne(m, target, s, order[i]);
  }

  lemma {:induction false} StoppedStays(m: Model, target: Target, order: seq<nat>, i: nat, j: nat)
    requires i <= j <= |order| && forall k :: 0 <= k < |order| ==> order[k] < |m.files|
    requires LowerAlong(m, target, order, i).Stopped?
    ensures LowerAlong(m, target, order, j) == LowerAlong(m, target, order, i)
    decreases j
  {
    if i < j {
      StoppedStays(m, target, order, i, j - 1);
    }
  }

  lemma NeedsLookup(m: Model, needs: map<nat, seq<nat>>, order: seq<nat>, i: nat)
    requires needs == Needs(m) && Ordered(needs, order) && i < |order|
    ensures var f := order[i];
            && f < |m.files| && f !in Elements(order[..i])
            && (forall y :: y in NeedsOf(m, m.files[f].fields, m.files[f].base) ==> y in Elements(order[..i]))
            && Elements(order[..i + 1]) == Elements(order[..i]) + {f}
  {
    assert order[i] in needs;
  }

  // ----- the checks of the result -----

  /** What the verifier and the importer demand of a lowered file: sound storage that starts with its base's and is
      reconstructed from the types, and the map that its fields flatten to. */
  predicate FileAccepted(m: Model, target: Target, abi: Abi, f: nat)
    requires |abi.types| == |m.types| && f in abi.layouts && f < |m.files|
  {
    var file, l := m.files[f], abi.layouts[f];
    file.kind.EnumFile?
    || (&& SoundLayout(abi.types, l.storage) && SoundReferences(target, l.storage, l.references)
        && (file.base.Some? ==>
              file.base.value in abi.layouts
              && Extends(l.storage, abi.layouts[file.base.value].storage))
        && Reconstruct(ContextFor(m, target, abi.types, abi.layouts, file.kind), file,
                       BaseStorage(BaseOf(file, abi.layouts)), m.message, m.stringType)
           == Some(l.storage)
        && MapAccepted(abi.types, l.storage, l.references)
        && (file.kind.StructFile? ==> file.typeId < |abi.types| && StoredAs(abi.types[file.typeId], l)))
  }

  /** Runs the checks on one file. */
  method CheckFile(m: Model, target: Target, abi: Abi, f: nat) returns (ok: bool)
    requires |abi.types| == |m.types| && f in abi.layouts && f < |m.files|
    ensures ok <==> FileAccepted(m, target, abi, f)
  {
    var file, l := m.files[f], abi.layouts[f];
    if file.kind.EnumFile? { return true; }
    var sound := VerifyClassLayout(abi.types, l.storage);
    var referenced := VerifyReferences(target, l.storage, l.references);
    var extended := file.base.Some? ==>
        file.base.value in abi.layouts && Extends(l.storage, abi.layouts[file.base.value].storage);
    var matched := VerifyReconstruction(ContextFor(m, target, abi.types, abi.layouts, file.kind), file,
                                        BaseStorage(BaseOf(file, abi.layouts)),
                                        m.message, m.stringType, l.storage);
    var mapped := VerifyMap(abi.types, l.storage, l.references);
    var recorded := file.kind.StructFile? ==> file.typeId < |abi.types| && StoredAs(abi.types[file.typeId], l);
    ok := sound && referenced && extended && matched && mapped && recorded;
  }

  lemma GoodIsAccepted(m: Model, target: Target, abi: Abi, f: nat)
    requires ValidTarget(target) && LoweredTo(m, target, abi.types, abi.layouts) && f in abi.layouts
    ensures f < |m.files| && |abi.types| == |m.types| && FileAccepted(m, target, abi, f)
  {
    assert Finished(m, target, abi.types, abi.layouts, f);
    if !m.files[f].kind.EnumFile? {
      GoodIsSound(target, abi.types, abi.layouts[f]);
    }
  }

  /** Every type of a struct file that is laid out has storage within the limits. */
  lemma StructsHaveStorage(m: Model, target: Target, abi: Abi, t: nat)
    requires WellFormed(m) && LoweredTo(m, target, abi.types, abi.layouts) && t < |m.types| && m.types[t].StructType?
    requires m.types[t].file in abi.layouts
    ensures 0 < abi.types[t].storage.size <= MAX_STRUCT_SIZE
    ensures Aligned(abi.types[t].storage.size, abi.types[t].storage.alignment)
  {
    var f := m.types[t].file;
    assert Finished(m, target, abi.types, abi.layouts, f);
  }

  lemma AllAreAccepted(m: Model, target: Target, abi: Abi)
    requires ValidTarget(target) && LoweredTo(m, target, abi.types, abi.layouts)
    ensures |abi.types| == |m.types|
    ensures forall f :: f in abi.layouts ==> f < |m.files| && FileAccepted(m, target, abi, f)
  {
    forall f | f in abi.layouts ensures f < |m.files| && FileAccepted(m, target, abi, f) {
      GoodIsAccepted(m, target, abi, f);
    }
  }

  lemma AllAreImportable(m: Model, target: Target, abi: Abi)
    requires ValidTarget(target) && WellFormed(m) && LoweredTo(m, target, abi.types, abi.layouts)
    requires forall t :: 0 <= t < |m.types| && m.types[t].StructType? ==> m.types[t].file in abi.layouts
    ensures forall t :: 0 <= t < |m.types| ==>
              (TypeAccepted(target, m.types, abi.types, t) <==> Importable(m.types, abi.types, t))
  {
    forall t | 0 <= t < |m.types|
      ensures TypeAccepted(target, m.types, abi.types, t) <==> Importable(m.types, abi.types, t)
    {
      if m.types[t].StructType? {
        StructsHaveStorage(m, target, abi, t);
      }
      AcceptedIsImportable(target, m.types, abi.types, t);
    }
  }

  /** The check of every file and of every type. Lowering that succeeds passes all of the first, and of the second
      exactly those of importable types. */
  method LowerAndCheck(m: Model, target: Target) returns (r: Lowering, files: set<nat>, types: set<nat>)
    requires WellFormed(m) && forall t :: 0 <= t < |m.types| && m.types[t].StructType? ==> m.types[t].file < |m.files|
    ensures r.Success? ==> LoweredTo(m, target, r.abi.types, r.abi.layouts) && r.abi.layouts.Keys == Needs(m).Keys
    ensures r.Success? ==> forall f: nat :: f in files <==> f < |m.files|
    ensures r.Success? ==> forall f :: f in files ==>
              f in r.abi.layouts && f < |m.files| && FileAccepted(m, target, r.abi, f)
    ensures r.Success? ==> forall t: nat :: t in types <==>
              t < |m.types| && TypeAccepted(target, m.types, r.abi.types, t)
    ensures r.Success? ==> forall t: nat :: t in types <==> t < |m.types| && Importable(m.types, r.abi.types, t)
  {
    ghost var order;
    r, order := LowerToAbi(m, target);
    files, types := {}, {};
    if r.Success? {
      AllAreAccepted(m, target, r.abi);
      AllAreImportable(m, target, r.abi);
      files := CheckFiles(m, target, r.abi);
      types := CheckTypes(target, m.types, r.abi.types);
    }
  }

  method CheckFiles(m: Model, target: Target, abi: Abi) returns (accepted: set<nat>)
    requires |abi.types| == |m.types| && forall f: nat :: f in abi.layouts <==> f < |m.files|
    ensures forall f: nat :: f in accepted <==> f < |m.files| && FileAccepted(m, target, abi, f)
  {
    accepted := {};
    for f := 0 to |m.files|
      invariant forall k: nat :: k in accepted <==> k < f && FileAccepted(m, target, abi, k)
    {
      var ok := CheckFile(m, target, abi, f);
      if ok {
        accepted := accepted + {f};
      }
    }
  }

  method CheckTypes(target: Target, defs: seq<SemanticType>, types: seq<TypeLayout>) returns (accepted: set<nat>)
    requires ValidTarget(target) && |types| == |defs| && forall t :: 0 <= t < |types| ==> ValidType(target, types[t])
    ensures forall t: nat :: t in accepted <==> t < |defs| && TypeAccepted(target, defs, types, t)
  {
    accepted := {};
    for t := 0 to |defs|
      invariant forall k: nat :: k in accepted <==> k < t && TypeAccepted(target, defs, types, k)
    {
      var ok := VerifyType(target, defs, types, t);
      if ok && WithinLimits(types[t]) {
        accepted := accepted + {t};
      }
    }
  }
}
