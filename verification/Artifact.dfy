/** The artifact file: a 64-byte header holding a digest of the file, the metadata and the native payload.
    Reading accepts exactly the files that writing makes. */
module Artifact {
  import opened Wrappers
  import opened Bits
  import opened Sha256
  import opened Json
  import Utf8

  const MAGIC: Bytes := [0x43, 0x4c, 0x54, 0x48, 0x50, 0x4b, 0x47, 0x00]
  const FORMAT_VERSION: nat := 8
  const HEADER_SIZE: nat := 64
  const DIGEST_OFFSET: nat := 32
  const DIGEST_SIZE: nat := 32
  const MAXIMUM_METADATA: nat := 0x400_0000
  const MAXIMUM_PAYLOAD: nat := 0x4000_0000

  lemma MagicSpells()
    ensures MAGIC == Ascii("CLTHPKG") + [0]
  {
  }

  // ----- little-endian numbers -----

  function LowFirst(value: nat, n: nat): (r: Bytes)
    ensures |r| == n
    decreases value, n
  {
    if n == 0 then [] else [value % 256] + LowFirst(value / 256, n - 1)
  }

  function FromLow(bytes: Bytes): nat {
    if bytes == [] then 0 else bytes[0] + 256 * FromLow(bytes[1..])
  }

  lemma {:induction false} ReadWritten(value: nat, n: nat)
    requires value < Power256(n)
    ensures FromLow(LowFirst(value, n)) == value
    decreases n
  {
    if n > 0 {
      DivideDown(value, Power256(n - 1));
      ReadWritten(value / 256, n - 1);
      assert LowFirst(value, n)[1..] == LowFirst(value / 256, n - 1);
    }
  }

  lemma DivideDown(value: nat, power: nat)
    requires value < 256 * power
    ensures value / 256 < power
  {
  }

  lemma {:induction false} WrittenRead(bytes: Bytes)
    ensures LowFirst(FromLow(bytes), |bytes|) == bytes
  {
    if bytes != [] {
      WrittenRead(bytes[1..]);
      SplitLow(bytes[0], FromLow(bytes[1..]));
    }
  }

  lemma SplitLow(low: Byte, high: nat)
    ensures (low + 256 * high) % 256 == low && (low + 256 * high) / 256 == high
  {
  }

  lemma {:induction false} FromLowSnoc(bytes: Bytes, b: Byte)
    ensures FromLow(bytes + [b]) == FromLow(bytes) + b * Power256(|bytes|)
  {
    if bytes == [] {
      assert [] + [b] == [b];
    } else {
      assert (bytes + [b])[1..] == bytes[1..] + [b];
      FromLowSnoc(bytes[1..], b);
      Scaled(b, Power256(|bytes| - 1));
    }
  }

  lemma Scaled(b: nat, power: nat)
    ensures 256 * (b * power) == b * (256 * power)
  {
  }

  method ReadLittle(bytes: Bytes, offset: nat, n: nat) returns (value: nat)
    requires offset + n <= |bytes|
    ensures value == FromLow(bytes[offset..offset + n])
  {
    value := 0;
    var unit: nat := 1;
    for i := 0 to n
      invariant value == FromLow(bytes[offset..offset + i]) && unit == Power256(i)
    {
      FromLowSnoc(bytes[offset..offset + i], bytes[offset + i]);
      assert bytes[offset..offset + i] + [bytes[offset + i]] == bytes[offset..offset + i + 1];
      value := value + bytes[offset + i] * unit;
      unit := 256 * unit;
    }
  }

  lemma {:induction false} LowFirstByte(value: nat, n: nat, i: nat)
    requires i < n
    ensures LowFirst(value, n)[i] == ByteOf(value, i)
    decreases n
  {
    if i > 0 { LowFirstByte(value / 256, n - 1, i - 1); }
  }

  /** The bytes of a number, low first, from `offset` on. */
  method WriteLittle(bytes: array<Byte>, offset: nat, value: nat, n: nat)
    requires offset + n <= bytes.Length
    modifies bytes
    ensures bytes[..offset + n] == old(bytes[..offset]) + LowFirst(value, n)
    ensures bytes[offset + n..] == old(bytes[offset + n..])
  {
    ghost var all := LowFirst(value, n);
    for i := 0 to n
      invariant bytes[..offset + i] == old(bytes[..offset]) + all[..i]
      invariant bytes[offset + i..] == old(bytes[offset + i..])
    {
      LowFirstByte(value, n, i);
      bytes[offset + i] := ByteOf(value, i);
    }
    assert all[..n] == all;
  }

  /** Copies bytes into place. */
  method Place(bytes: array<Byte>, offset: nat, data: Bytes)
    requires offset + |data| <= bytes.Length
    modifies bytes
    ensures bytes[..offset + |data|] == old(bytes[..offset]) + data
    ensures bytes[offset + |data|..] == old(bytes[offset + |data|..])
  {
    for i := 0 to |data|
      invariant bytes[..offset + i] == old(bytes[..offset]) + data[..i]
      invariant bytes[offset + i..] == old(bytes[offset + i..])
    {
      bytes[offset + i] := data[i];
    }
    assert data[..|data|] == data;
  }

  // ----- the file -----

  /** The part of the header before the digest. */
  function Header(metadata: nat, payload: nat): (r: Bytes)
    ensures |r| == DIGEST_OFFSET
  {
    MAGIC + LowFirst(FORMAT_VERSION, 4) + LowFirst(0, 4) + LowFirst(metadata, 8) + LowFirst(payload, 8)
  }

  function Assemble(header: Bytes, digest: Bytes, metadata: Bytes, payload: Bytes): Bytes {
    header + digest + metadata + payload
  }

  type DigestBytes = d: Bytes | |d| == DIGEST_SIZE witness seq(DIGEST_SIZE, _ => 0)

  /** What the file format needs of its hash: any function to 32 bytes. */
  type Hash = Bytes -> DigestBytes

  /** A file with zeros for its digest. */
  function Zeroed(file: Bytes): Bytes
    requires |file| >= HEADER_SIZE
  {
    file[..DIGEST_OFFSET] + Zeros(DIGEST_SIZE) + file[HEADER_SIZE..]
  }

  /** The hash that the digest of files is, with the given word functions. */
  function HashOf(fs: Functions): Hash {
    (message: Bytes) => Digest(Compression(fs), message)
  }

  ghost predicate Digests(fs: Functions, hash: Hash) {
    forall message {:trigger Digest(Compression(fs), message)} :: hash(message) == Digest(Compression(fs), message)
  }

  lemma HashDigests(fs: Functions)
    ensures Digests(fs, HashOf(fs))
  {
  }

  /** The digest in three updates: the bytes before the field, zeros, the bytes after it. Together they are the
      digest of the file with its field zeroed. */
  method DigestFile(fs: Functions, ghost hash: Hash, file: Bytes) returns (digest: DigestBytes)
    requires |file| >= HEADER_SIZE && Digests(fs, hash)
    ensures digest == hash(Zeroed(file))
  {
    var hasher := new Hasher(fs);
    hasher.Update(file[..DIGEST_OFFSET]);
    assert [] + file[..DIGEST_OFFSET] == file[..DIGEST_OFFSET];
    hasher.Update(Zeros(DIGEST_SIZE));
    if |file| > HEADER_SIZE {
      hasher.Update(file[HEADER_SIZE..]);
    } else {
      assert hasher.message + file[HEADER_SIZE..] == hasher.message;
    }
    assert hasher.message == Zeroed(file);
    digest := hasher.Finish();
    assert digest == Digest(Compression(fs), Zeroed(file));
  }

  /** The file stores the hash of itself with zeros in the place of the hash. */
  function Envelope(hash: Hash, metadata: Bytes, payload: Bytes): Bytes {
    var header := Header(|metadata|, |payload|);
    Assemble(header, hash(Assemble(header, Zeros(DIGEST_SIZE), metadata, payload)), metadata, payload)
  }

  datatype Issue =
    | MalformedEnvelope
    | Incompatible
    | LimitExceeded
    | IntegrityMismatch
    | MalformedMetadata
    | NoncanonicalMetadata
    | InvalidModel

  datatype Result<+T> = Ok(value: T) | Err(issue: Issue)

  datatype Sections = Sections(metadata: Bytes, payload: Bytes)

  method WriteEnvelope(fs: Functions, ghost hash: Hash, metadata: Bytes, payload: Bytes) returns (file: Bytes)
    requires Digests(fs, hash) && |metadata| <= MAXIMUM_METADATA && |payload| <= MAXIMUM_PAYLOAD
    ensures file == Envelope(hash, metadata, payload)
  {
    var bytes := new Byte[HEADER_SIZE + |metadata| + |payload|](_ => 0);
    FillEnvelope(bytes, metadata, payload);
    ghost var header, before := Header(|metadata|, |payload|), bytes[..];
    AssembledParts(before, header, Zeros(DIGEST_SIZE), metadata, payload);
    var digest := DigestFile(fs, hash, bytes[..]);
    DigestedParts(before, header, Zeros(DIGEST_SIZE), metadata, payload);
    Place(bytes, DIGEST_OFFSET, digest);
    file := bytes[..];
    Sealed(before, file, header, Zeros(DIGEST_SIZE), digest, metadata, payload);
  }

  /** Everything but the digest. */
  method FillEnvelope(bytes: array<Byte>, metadata: Bytes, payload: Bytes)
    requires bytes.Length == HEADER_SIZE + |metadata| + |payload| && forall k :: 0 <= k < bytes.Length ==> bytes[k] == 0
    modifies bytes
    ensures bytes[..] == Assemble(Header(|metadata|, |payload|), Zeros(DIGEST_SIZE), metadata, payload)
  {
    assert bytes[DIGEST_OFFSET..][..DIGEST_SIZE] == Zeros(DIGEST_SIZE);
    WriteHeader(bytes, |metadata|, |payload|);
    assert bytes[..HEADER_SIZE] == bytes[..DIGEST_OFFSET] + bytes[DIGEST_OFFSET..][..DIGEST_SIZE];
    Place(bytes, HEADER_SIZE, metadata);
    Place(bytes, HEADER_SIZE + |metadata|, payload);
    assert bytes[..] == bytes[..HEADER_SIZE + |metadata| + |payload|];
  }

  method WriteHeader(bytes: array<Byte>, metadata: nat, payload: nat)
    requires bytes.Length >= HEADER_SIZE
    modifies bytes
    ensures bytes[..DIGEST_OFFSET] == Header(metadata, payload)
    ensures bytes[DIGEST_OFFSET..] == old(bytes[DIGEST_OFFSET..])
  {
    ghost var rest := bytes[DIGEST_OFFSET..];
    Place(bytes, 0, MAGIC);
    assert bytes[..0] + MAGIC == MAGIC;
    assert bytes[8..][24..] == rest;
    WriteLittle(bytes, 8, FORMAT_VERSION, 4);
    assert bytes[12..][20..] == rest;
    WriteLittle(bytes, 12, 0, 4);
    assert bytes[16..][16..] == rest;
    WriteLittle(bytes, 16, metadata, 8);
    assert bytes[24..][8..] == rest;
    WriteLittle(bytes, 24, payload, 8);
  }

  lemma DigestedParts(file: Bytes, header: Bytes, digest: Bytes, metadata: Bytes, payload: Bytes)
    requires |header| == DIGEST_OFFSET && |digest| == DIGEST_SIZE
    requires |file| == HEADER_SIZE + |metadata| + |payload|
    requires file[..DIGEST_OFFSET] == header && file[HEADER_SIZE..] == metadata + payload
    ensures file[..DIGEST_OFFSET] + digest + file[HEADER_SIZE..] == Assemble(header, digest, metadata, payload)
  {
  }

  lemma Sealed(before: Bytes, after: Bytes, header: Bytes, zeros: Bytes, digest: Bytes, metadata: Bytes, payload: Bytes)
    requires |header| == DIGEST_OFFSET && |digest| == |zeros| == DIGEST_SIZE
    requires before == Assemble(header, zeros, metadata, payload) && |after| == |before|
    requires after[..HEADER_SIZE] == header + digest && after[HEADER_SIZE..] == before[HEADER_SIZE..]
    ensures after == Assemble(header, digest, metadata, payload)
  {
    assert after == after[..HEADER_SIZE] + after[HEADER_SIZE..];
    assert before[HEADER_SIZE..] == metadata + payload;
  }

  lemma AssembledParts(file: Bytes, header: Bytes, digest: Bytes, metadata: Bytes, payload: Bytes)
    requires |header| == DIGEST_OFFSET && |digest| == DIGEST_SIZE
    requires file == Assemble(header, digest, metadata, payload)
    ensures |file| == HEADER_SIZE + |metadata| + |payload|
    ensures file[..DIGEST_OFFSET] == header && file[DIGEST_OFFSET..HEADER_SIZE] == digest
    ensures file[HEADER_SIZE..] == metadata + payload
    ensures file[HEADER_SIZE..HEADER_SIZE + |metadata|] == metadata && file[HEADER_SIZE + |metadata|..] == payload
  {
  }

  /** The file holds these sections. */
  ghost predicate Holds(hash: Hash, file: Bytes, metadata: Bytes, payload: Bytes) {
    |metadata| <= MAXIMUM_METADATA && |payload| <= MAXIMUM_PAYLOAD && file == Envelope(hash, metadata, payload)
  }

  /** The numbers that reading finds in a header. */
  ghost predicate HeaderReads(header: Bytes, metadata: nat, payload: nat)
    requires |header| == DIGEST_OFFSET
  {
    && header[..8] == MAGIC && FromLow(header[8..12]) == FORMAT_VERSION && FromLow(header[12..16]) == 0
    && FromLow(header[16..24]) == metadata && FromLow(header[24..32]) == payload
  }

  lemma Powers()
    ensures FORMAT_VERSION < Power256(4) && MAXIMUM_METADATA < Power256(8) && MAXIMUM_PAYLOAD < Power256(8)
  {
    assert Power256(4) == 0x1_0000_0000;
    assert Power256(8) == 0x1_0000_0000 * Power256(4);
  }

  /** A header says its sizes. */
  lemma HeaderIsRead(metadata: nat, payload: nat)
    requires metadata <= MAXIMUM_METADATA && payload <= MAXIMUM_PAYLOAD
    ensures HeaderReads(Header(metadata, payload), metadata, payload)
  {
    Powers();
    HeaderSlices(Header(metadata, payload), MAGIC, LowFirst(FORMAT_VERSION, 4), LowFirst(0, 4), LowFirst(metadata, 8),
                 LowFirst(payload, 8));
    ReadWritten(FORMAT_VERSION, 4);
    ReadWritten(0, 4);
    ReadWritten(metadata, 8);
    ReadWritten(payload, 8);
  }

  /** Only one header says them. */
  lemma HeaderIsOnly(header: Bytes, metadata: nat, payload: nat)
    requires |header| == DIGEST_OFFSET && HeaderReads(header, metadata, payload)
    ensures header == Header(metadata, payload)
  {
    WrittenRead(header[8..12]);
    WrittenRead(header[12..16]);
    WrittenRead(header[16..24]);
    WrittenRead(header[24..32]);
    HeaderJoins(header);
  }

  lemma HeaderJoins(header: Bytes)
    requires |header| == DIGEST_OFFSET
    ensures header == header[..8] + header[8..12] + header[12..16] + header[16..24] + header[24..32]
  {
  }

  lemma HeaderSlices(header: Bytes, a: Bytes, b: Bytes, c: Bytes, d: Bytes, e: Bytes)
    requires |a| == |d| == |e| == 8 && |b| == |c| == 4 && header == a + b + c + d + e
    ensures header[..8] == a && header[8..12] == b && header[12..16] == c && header[16..24] == d && header[24..32] == e
  {
  }

  datatype Sizes = Sizes(metadata: nat, payload: nat)

  predicate WithinLimits(sizes: Sizes) {
    sizes.metadata <= MAXIMUM_METADATA && sizes.payload <= MAXIMUM_PAYLOAD
  }

  /** Finds the sizes a header says, or that it says none within the limits. */
  method ReadHeader(header: Bytes) returns (r: Result<Sizes>)
    requires |header| == DIGEST_OFFSET
    ensures r.Ok? ==> WithinLimits(r.value) && header == Header(r.value.metadata, r.value.payload)
    ensures r.Err? ==> forall sizes :: WithinLimits(sizes) ==> header != Header(sizes.metadata, sizes.payload)
  {
    forall sizes | WithinLimits(sizes) && header == Header(sizes.metadata, sizes.payload)
      ensures HeaderReads(header, sizes.metadata, sizes.payload)
    {
      HeaderIsRead(sizes.metadata, sizes.payload);
    }
    if header[..8] != MAGIC { return Err(MalformedEnvelope); }
    var version := ReadLittle(header, 8, 4);
    if version != FORMAT_VERSION { return Err(Incompatible); }
    var flags := ReadLittle(header, 12, 4);
    if flags != 0 { return Err(MalformedEnvelope); }
    var metadata := ReadLittle(header, 16, 8);
    var payload := ReadLittle(header, 24, 8);
    if metadata > MAXIMUM_METADATA || payload > MAXIMUM_PAYLOAD { return Err(LimitExceeded); }
    HeaderIsOnly(header, metadata, payload);
    r := Ok(Sizes(metadata, payload));
  }

  lemma HeaderIsInjective(a: Sizes, b: Sizes)
    requires WithinLimits(a) && WithinLimits(b) && Header(a.metadata, a.payload) == Header(b.metadata, b.payload)
    ensures a == b
  {
    HeaderIsRead(a.metadata, a.payload);
    HeaderIsRead(b.metadata, b.payload);
  }

  /** The digest field is the digest of the file with zeros in its place. */
  ghost predicate Intact(hash: Hash, file: Bytes)
    requires |file| >= HEADER_SIZE
  {
    file[DIGEST_OFFSET..HEADER_SIZE] == hash(Zeroed(file))
  }

  /** What reading looks at in a file that holds sections. */
  lemma HeldParts(hash: Hash, file: Bytes, metadata: Bytes, payload: Bytes)
    requires Holds(hash, file, metadata, payload)
    ensures |file| == HEADER_SIZE + |metadata| + |payload| && file[..DIGEST_OFFSET] == Header(|metadata|, |payload|)
    ensures file[HEADER_SIZE..HEADER_SIZE + |metadata|] == metadata && file[HEADER_SIZE + |metadata|..] == payload
    ensures Intact(hash, file)
  {
    var header := Header(|metadata|, |payload|);
    AssembledParts(file, header, hash(Assemble(header, Zeros(DIGEST_SIZE), metadata, payload)), metadata, payload);
    DigestedParts(file, header, Zeros(DIGEST_SIZE), metadata, payload);
  }

  /** And a file in which it finds them holds them. */
  lemma FoundParts(hash: Hash, file: Bytes, metadata: Bytes, payload: Bytes)
    requires |file| == HEADER_SIZE + |metadata| + |payload|
    requires WithinLimits(Sizes(|metadata|, |payload|))
    requires file[..DIGEST_OFFSET] == Header(|metadata|, |payload|) && file[HEADER_SIZE..] == metadata + payload
    requires Intact(hash, file)
    ensures Holds(hash, file, metadata, payload)
  {
    var header := file[..DIGEST_OFFSET];
    DigestedParts(file, header, Zeros(DIGEST_SIZE), metadata, payload);
    Rejoined(file, header, file[DIGEST_OFFSET..HEADER_SIZE], metadata, payload);
  }

  lemma Rejoined(file: Bytes, header: Bytes, digest: Bytes, metadata: Bytes, payload: Bytes)
    requires |file| == HEADER_SIZE + |metadata| + |payload|
    requires file[..DIGEST_OFFSET] == header && file[DIGEST_OFFSET..HEADER_SIZE] == digest
    requires file[HEADER_SIZE..] == metadata + payload
    ensures file == Assemble(header, digest, metadata, payload)
  {
    assert file == file[..DIGEST_OFFSET] + file[DIGEST_OFFSET..HEADER_SIZE] + file[HEADER_SIZE..];
  }

  lemma NoHeader(hash: Hash, file: Bytes)
    requires |file| < HEADER_SIZE
          || forall sizes :: WithinLimits(sizes) ==> file[..DIGEST_OFFSET] != Header(sizes.metadata, sizes.payload)
    ensures forall metadata, payload :: !Holds(hash, file, metadata, payload)
  {
    forall metadata, payload ensures !Holds(hash, file, metadata, payload) {
      if Holds(hash, file, metadata, payload) {
        HeldParts(hash, file, metadata, payload);
        assert WithinLimits(Sizes(|metadata|, |payload|));
      }
    }
  }

  lemma NoSections(hash: Hash, file: Bytes, sizes: Sizes)
    requires |file| >= HEADER_SIZE && WithinLimits(sizes)
    requires file[..DIGEST_OFFSET] == Header(sizes.metadata, sizes.payload)
    requires |file| != HEADER_SIZE + sizes.metadata + sizes.payload || !Intact(hash, file)
    ensures forall metadata, payload :: !Holds(hash, file, metadata, payload)
  {
    forall metadata, payload ensures !Holds(hash, file, metadata, payload) {
      if Holds(hash, file, metadata, payload) {
        HeldParts(hash, file, metadata, payload);
        HeaderIsInjective(Sizes(|metadata|, |payload|), sizes);
      }
    }
  }

  /** Compares the size and the digest of a file with what its header says. */
  method CheckBody(fs: Functions, ghost hash: Hash, file: Bytes, sizes: Sizes) returns (issue: Option<Issue>)
    requires Digests(fs, hash) && |file| >= HEADER_SIZE && WithinLimits(sizes)
    ensures issue.None? <==> |file| == HEADER_SIZE + sizes.metadata + sizes.payload && Intact(hash, file)
  {
    if HEADER_SIZE + sizes.metadata + sizes.payload != |file| { return Some(MalformedEnvelope); }
    var digest := DigestFile(fs, hash, file);
    issue := if digest != file[DIGEST_OFFSET..HEADER_SIZE] then Some(IntegrityMismatch) else None;
  }

  /** Reading finds the sections a file holds, or says that it holds none. */
  method ReadEnvelope(fs: Functions, ghost hash: Hash, file: Bytes) returns (r: Result<Sections>)
    requires Digests(fs, hash)
    ensures r.Ok? ==> Holds(hash, file, r.value.metadata, r.value.payload)
    ensures r.Err? ==> forall metadata, payload :: !Holds(hash, file, metadata, payload)
  {
    if |file| < HEADER_SIZE {
      NoHeader(hash, file);
      return Err(MalformedEnvelope);
    }
    var header := ReadHeader(file[..DIGEST_OFFSET]);
    if header.Err? {
      NoHeader(hash, file);
      return Err(header.issue);
    }
    var issue := CheckBody(fs, hash, file, header.value);
    if issue.Some? {
      NoSections(hash, file, header.value);
      return Err(issue.value);
    }
    var split := HEADER_SIZE + header.value.metadata;
    r := Ok(Sections(file[HEADER_SIZE..split], file[split..]));
    SplitSections(hash, file, split);
  }

  lemma SplitSections(hash: Hash, file: Bytes, split: nat)
    requires HEADER_SIZE <= split <= |file| && WithinLimits(Sizes(split - HEADER_SIZE, |file| - split))
    requires file[..DIGEST_OFFSET] == Header(split - HEADER_SIZE, |file| - split) && Intact(hash, file)
    ensures Holds(hash, file, file[HEADER_SIZE..split], file[split..])
  {
    assert file[HEADER_SIZE..] == file[HEADER_SIZE..split] + file[split..];
    FoundParts(hash, file, file[HEADER_SIZE..split], file[split..]);
  }

  datatype Contents = Contents(metadata: Json, payload: Bytes)

  /** The file is what these contents are written to. */
  ghost predicate Stores(hash: Hash, file: Bytes, c: Contents) {
    Canonical(c.metadata) && Nesting(c.metadata) <= MAXIMUM_NESTING && Holds(hash, file, Print(c.metadata), c.payload)
  }

  /** Writes contents whose maps are ordered. They are refused exactly for their size or for a string that is not
      UTF-8. */
  method WriteArtifact(fs: Functions, ghost hash: Hash, c: Contents) returns (r: Result<Bytes>)
    requires Digests(fs, hash) && Ordered(c.metadata)
    ensures r.Ok? <==> Writable(c)
    ensures r.Ok? ==> Holds(hash, r.value, Print(c.metadata), c.payload)
    ensures r.Ok? && Nesting(c.metadata) <= MAXIMUM_NESTING ==> Stores(hash, r.value, c)
  {
    if |c.payload| > MAXIMUM_PAYLOAD { return Err(LimitExceeded); }
    var metadata := WriteValue(c.metadata, []);
    assert [] + Print(c.metadata) == Print(c.metadata);
    PrintIsUtf8(c.metadata);
    if !Utf8.Valid(metadata) { return Err(InvalidModel); }
    if |metadata| > MAXIMUM_METADATA { return Err(LimitExceeded); }
    var file := WriteEnvelope(fs, hash, metadata, c.payload);
    r := Ok(file);
  }

  /** Reads the contents of a file that stores some, and refuses every other file. */
  method ReadArtifact(fs: Functions, ghost hash: Hash, file: Bytes) returns (r: Result<Contents>)
    requires Digests(fs, hash)
    ensures r.Ok? ==> Stores(hash, file, r.value)
    ensures r.Err? ==> forall c :: !Stores(hash, file, c)
  {
    var sections := ReadEnvelope(fs, hash, file);
    if sections.Err? { return Err(sections.issue); }
    var metadata := ReadText(sections.value.metadata);
    if metadata.None? {
      forall c ensures !Stores(hash, file, c) {
        if Stores(hash, file, c) {
          HeldOnce(hash, file, sections.value.metadata, sections.value.payload, Print(c.metadata), c.payload);
          ParseInvertsPrint(sections.value.metadata, c.metadata);
        }
      }
      return Err(MalformedMetadata);
    }
    r := Ok(Contents(metadata.value, sections.value.payload));
  }

  lemma HeldOnce(hash: Hash, file: Bytes, m: Bytes, p: Bytes, n: Bytes, q: Bytes)
    requires Holds(hash, file, m, p) && Holds(hash, file, n, q)
    ensures m == n && p == q
  {
    HeldParts(hash, file, m, p);
    HeldParts(hash, file, n, q);
    HeaderIsInjective(Sizes(|m|, |p|), Sizes(|n|, |q|));
  }

  /** A file stores what was written to it or, where that nests too deep to be read, nothing. */
  lemma StoredOnce(hash: Hash, file: Bytes, c: Contents, d: Contents)
    requires Canonical(c.metadata) && Holds(hash, file, Print(c.metadata), c.payload) && Stores(hash, file, d)
    ensures c == d
  {
    HeldOnce(hash, file, Print(c.metadata), c.payload, Print(d.metadata), d.payload);
    PrintIsInjective(c.metadata, d.metadata);
  }

  /** Contents that can be written: strings in UTF-8 and both parts within their limits. */
  predicate Writable(c: Contents) {
    Canonical(c.metadata) && |Print(c.metadata)| <= MAXIMUM_METADATA && |c.payload| <= MAXIMUM_PAYLOAD
  }

  /** Writing ordered contents and reading the file back, with the digests computed as they are. All that was written
      comes back, unless it nests deeper than the reader goes. */
  method WriteThenRead(fs: Functions, c: Contents) returns (file: Result<Bytes>, r: Result<Contents>)
    requires Ordered(c.metadata)
    ensures file.Ok? <==> Writable(c)
    ensures r.Ok? <==> Writable(c) && Nesting(c.metadata) <= MAXIMUM_NESTING
    ensures r.Ok? ==> Stores(HashOf(fs), file.value, c) && r == Ok(c)
  {
    ghost var hash := HashOf(fs);
    HashDigests(fs);
    file := WriteArtifact(fs, hash, c);
    if file.Err? { return file, Err(file.issue); }
    r := ReadArtifact(fs, hash, file.value);
    if r.Ok? {
      StoredOnce(hash, file.value, c, r.value);
    }
  }

  /** Reading a file and writing its contents again. */
  method ReadThenWrite(fs: Functions, file: Bytes) returns (contents: Result<Contents>, r: Result<Bytes>)
    ensures contents.Ok? <==> exists c :: Stores(HashOf(fs), file, c)
    ensures contents.Ok? ==> Stores(HashOf(fs), file, contents.value) && r == Ok(file)
  {
    ghost var hash := HashOf(fs);
    HashDigests(fs);
    contents := ReadArtifact(fs, hash, file);
    if contents.Err? { return contents, Err(contents.issue); }
    CanonicalIsOrdered(contents.value.metadata);
    r := WriteArtifact(fs, hash, contents.value);
  }

  /** The files as they are, with the word functions of the standard. */
  method SaveAndLoad(c: Contents) returns (file: Result<Bytes>, r: Result<Contents>)
    requires Ordered(c.metadata)
    ensures file.Ok? <==> Writable(c)
    ensures r.Ok? <==> Writable(c) && Nesting(c.metadata) <= MAXIMUM_NESTING
    ensures r.Ok? ==> Stores(HashOf(STANDARD), file.value, c) && r == Ok(c)
  {
    file, r := WriteThenRead(STANDARD, c);
  }

  method LoadAndSave(file: Bytes) returns (contents: Result<Contents>, r: Result<Bytes>)
    ensures contents.Ok? <==> exists c :: Stores(HashOf(STANDARD), file, c)
    ensures contents.Ok? ==> Stores(HashOf(STANDARD), file, contents.value) && r == Ok(file)
  {
    contents, r := ReadThenWrite(STANDARD, file);
  }
}
