/** A package artifact file: records encoded as canonical metadata, the native payload, and the checks around them.
    What the records are, how they are encoded and decoded and what is demanded of them is left open. */
module PackageFile {
  import opened Wrappers
  import opened Sha256
  import opened Json
  import opened Artifact

  datatype Package<R> = Package(record: R, payload: Bytes)

  /** The check of a package, the encoding of its records, none where a constant cannot be encoded, and the decoder.
      Encoded maps are ordered, as Cloth's compiler builds them. */
  datatype Codec<!R> = Codec(verify: Package<R> -> bool, encode: R -> Option<Json>, decode: Json -> Option<R>)

  ghost predicate EncodesOrdered<R(!new)>(codec: Codec<R>) {
    forall r :: codec.encode(r).Some? ==> Ordered(codec.encode(r).value)
  }

  function Encoded<R>(codec: Codec<R>, a: Package<R>): Contents
    requires codec.encode(a.record).Some?
  {
    Contents(codec.encode(a.record).value, a.payload)
  }

  /** The package passes its check and can be encoded within the limits, all strings in UTF-8. */
  predicate Storable<R>(codec: Codec<R>, a: Package<R>) {
    codec.verify(a) && codec.encode(a.record).Some? && Writable(Encoded(codec, a))
  }

  /** The file is what the package is written to. */
  ghost predicate Packs<R>(codec: Codec<R>, hash: Hash, file: Bytes, a: Package<R>) {
    Storable(codec, a) && var c := Encoded(codec, a); Holds(hash, file, Print(c.metadata), c.payload)
  }

  /** The decoder gives the records back, and the text is not nested too deep to be parsed. */
  predicate Decodable<R(==)>(codec: Codec<R>, a: Package<R>) {
    var e := codec.encode(a.record);
    e.Some? && Nesting(e.value) <= MAXIMUM_NESTING && codec.decode(e.value) == Some(a.record)
  }

  method WritePackage<R(!new)>(fs: Functions, ghost hash: Hash, codec: Codec<R>, a: Package<R>)
    returns (r: Result<Bytes>)
    requires Digests(fs, hash) && EncodesOrdered(codec)
    ensures r.Ok? <==> Storable(codec, a)
    ensures r.Ok? ==> Packs(codec, hash, r.value, a)
  {
    if !codec.verify(a) { return Err(InvalidModel); }
    var metadata := codec.encode(a.record);
    if metadata.None? { return Err(InvalidModel); }
    r := WriteArtifact(fs, hash, Contents(metadata.value, a.payload));
  }

  /** Reads the package that a file was written from, for one that decodes and is compatible, and refuses all other
      files. The decoder may be any function: what it makes of the metadata is checked and encoded again. */
  method ReadPackage<R(==, !new)>(fs: Functions, ghost hash: Hash, codec: Codec<R>, compatible: R -> bool, file: Bytes)
    returns (r: Result<Package<R>>)
    requires Digests(fs, hash) && EncodesOrdered(codec)
    ensures r.Ok? ==> Packs(codec, hash, file, r.value) && Decodable(codec, r.value) && compatible(r.value.record)
    ensures r.Err? ==> forall a :: Packs(codec, hash, file, a) && Decodable(codec, a) ==> !compatible(a.record)
  {
    var sections := ReadEnvelope(fs, hash, file);
    if sections.Err? { return Err(sections.issue); }
    r := ReadRecords(codec, compatible, sections.value);
    if r.Ok? {
      EncodedAgain(codec, compatible, hash, file, sections.value, r.value);
    } else {
      forall a | Packs(codec, hash, file, a) && Decodable(codec, a) ensures !compatible(a.record) {
        PackedSections(codec, compatible, hash, file, sections.value, a);
      }
    }
  }

  /** The package that the sections of a file make, if they pass all checks. */
  predicate Makes<R(==)>(codec: Codec<R>, compatible: R -> bool, s: Sections, a: Package<R>) {
    && Parse(s.metadata).Some? && codec.decode(Parse(s.metadata).value) == Some(a.record) && a.payload == s.payload
    && codec.verify(a) && compatible(a.record)
    && codec.encode(a.record).Some? && Print(codec.encode(a.record).value) == s.metadata
  }

  method ReadRecords<R(==, !new)>(codec: Codec<R>, compatible: R -> bool, s: Sections) returns (r: Result<Package<R>>)
    requires EncodesOrdered(codec)
    ensures r.Ok? ==> Makes(codec, compatible, s, r.value)
    ensures r.Err? ==> forall a :: !Makes(codec, compatible, s, a)
  {
    var metadata := ReadText(s.metadata);
    if metadata.None? { return Err(MalformedMetadata); }
    var record := codec.decode(metadata.value);
    if record.None? { return Err(MalformedMetadata); }
    var a := Package(record.value, s.payload);
    if !codec.verify(a) { return Err(InvalidModel); }
    var canonical := codec.encode(record.value);
    if canonical.None? { return Err(NoncanonicalMetadata); }
    var printed := WriteValue(canonical.value, []);
    assert [] + Print(canonical.value) == Print(canonical.value);
    if printed != s.metadata { return Err(NoncanonicalMetadata); }
    if !compatible(record.value) { return Err(Incompatible); }
    r := Ok(a);
  }

  /** Records whose encoding prints to the text they were decoded from come back from that encoding. */
  lemma EncodedAgain<R(!new)>(codec: Codec<R>, compatible: R -> bool, hash: Hash, file: Bytes, s: Sections,
                              a: Package<R>)
    requires EncodesOrdered(codec) && Holds(hash, file, s.metadata, s.payload) && Makes(codec, compatible, s, a)
    ensures Packs(codec, hash, file, a) && Decodable(codec, a)
  {
    SameText(s.metadata, codec.encode(a.record).value);
  }

  /** What prints to a text that can be parsed is what it parses to. */
  lemma SameText(text: Bytes, v: Json)
    requires Parse(text).Some? && Ordered(v) && Print(v) == text
    ensures v == Parse(text).value && Canonical(v) && Nesting(v) <= MAXIMUM_NESTING
  {
    var parsed := Parse(text).value;
    ParseInvertsPrint(text, parsed);
    CanonicalIsOrdered(parsed);
    PrintIsUtf8(parsed);
    PrintIsUtf8(v);
    PrintIsInjective(parsed, v);
  }

  /** A file that a package was written to holds sections that make it. */
  lemma PackedSections<R(!new)>(codec: Codec<R>, compatible: R -> bool, hash: Hash, file: Bytes, s: Sections,
                                a: Package<R>)
    requires Holds(hash, file, s.metadata, s.payload) && Packs(codec, hash, file, a) && Decodable(codec, a)
    ensures Makes(codec, compatible, s, a) <==> compatible(a.record)
  {
    var encoded := codec.encode(a.record).value;
    HeldOnce(hash, file, s.metadata, s.payload, Print(encoded), a.payload);
    ParseInvertsPrint(s.metadata, encoded);
  }

  /** A file is written from one package that decodes. */
  lemma PackedOnce<R(!new)>(codec: Codec<R>, hash: Hash, file: Bytes, a: Package<R>, b: Package<R>)
    requires Packs(codec, hash, file, a) && Decodable(codec, a) && Packs(codec, hash, file, b) && Decodable(codec, b)
    ensures a == b
  {
    var x, y := codec.encode(a.record).value, codec.encode(b.record).value;
    HeldOnce(hash, file, Print(x), a.payload, Print(y), b.payload);
    PrintIsInjective(x, y);
  }

  /** Writing a package and reading the file back, with SHA-256 as the standard defines it. The package returns exactly
      when it can be stored, its records decode and they are compatible. */
  method SavePackage<R(==, !new)>(codec: Codec<R>, compatible: R -> bool, a: Package<R>)
    returns (file: Result<Bytes>, r: Result<Package<R>>)
    requires EncodesOrdered(codec)
    ensures file.Ok? <==> Storable(codec, a)
    ensures r == Ok(a) <==> Storable(codec, a) && Decodable(codec, a) && compatible(a.record)
    ensures file.Ok? && r.Ok? ==> Packs(codec, HashOf(STANDARD), file.value, r.value)
  {
    ghost var hash := HashOf(STANDARD);
    HashDigests(STANDARD);
    file := WritePackage(STANDARD, hash, codec, a);
    if file.Err? { return file, Err(file.issue); }
    r := ReadPackage(STANDARD, hash, codec, compatible, file.value);
    if r.Ok? && Decodable(codec, a) {
      PackedOnce(codec, hash, file.value, a, r.value);
    }
  }

  /** Reading a file and writing its package again: whatever the decoder does, a file that is read is written again
      byte for byte. */
  method LoadPackage<R(==, !new)>(codec: Codec<R>, compatible: R -> bool, file: Bytes)
    returns (a: Result<Package<R>>, r: Result<Bytes>)
    requires EncodesOrdered(codec)
    ensures a.Ok? <==>
              exists b :: Packs(codec, HashOf(STANDARD), file, b) && Decodable(codec, b) && compatible(b.record)
    ensures a.Ok? ==> r == Ok(file)
  {
    ghost var hash := HashOf(STANDARD);
    HashDigests(STANDARD);
    a := ReadPackage(STANDARD, hash, codec, compatible, file);
    if a.Err? { return a, Err(a.issue); }
    r := WritePackage(STANDARD, hash, codec, a.value);
  }
}
