/** SHA-256 of FIPS 180-4 on whole messages, and the incremental hasher proved to compute it however the
    message is cut into updates. Words are natural numbers below 2^32. */
module Sha256 {
  import opened Wrappers
  import opened Bits

  const WORD32: nat := 0x1_0000_0000
  const BLOCK: nat := 64

  // ----- the standard (sections 4.1.2, 5.1.1 and 6.2.2) -----

  /** One of eight numbers that stand in a row. */
  function Row(k: nat, a: nat, b: nat, c: nat, d: nat, e: nat, f: nat, g: nat, h: nat): nat {
    if k == 0 then a else if k == 1 then b else if k == 2 then c else if k == 3 then d
    else if k == 4 then e else if k == 5 then f else if k == 6 then g else h
  }

  /** The round constants (section 4.2.2), row by row. */
  function Constant(t: nat): nat {
    if t < 8 then Row(t, 0x428a_2f98, 0x7137_4491, 0xb5c0_fbcf, 0xe9b5_dba5, 0x3956_c25b,
                      0x59f1_11f1, 0x923f_82a4, 0xab1c_5ed5)
    else if t < 16 then Row(t - 8, 0xd807_aa98, 0x1283_5b01, 0x2431_85be, 0x550c_7dc3, 0x72be_5d74,
                            0x80de_b1fe, 0x9bdc_06a7, 0xc19b_f174)
    else if t < 24 then Row(t - 16, 0xe49b_69c1, 0xefbe_4786, 0x0fc1_9dc6, 0x240c_a1cc,
                            0x2de9_2c6f, 0x4a74_84aa, 0x5cb0_a9dc, 0x76f9_88da)
    else if t < 32 then Row(t - 24, 0x983e_5152, 0xa831_c66d, 0xb003_27c8, 0xbf59_7fc7,
                            0xc6e0_0bf3, 0xd5a7_9147, 0x06ca_6351, 0x1429_2967)
    else if t < 40 then Row(t - 32, 0x27b7_0a85, 0x2e1b_2138, 0x4d2c_6dfc, 0x5338_0d13,
                            0x650a_7354, 0x766a_0abb, 0x81c2_c92e, 0x9272_2c85)
    else if t < 48 then Row(t - 40, 0xa2bf_e8a1, 0xa81a_664b, 0xc24b_8b70, 0xc76c_51a3,
                            0xd192_e819, 0xd699_0624, 0xf40e_3585, 0x106a_a070)
    else if t < 56 then Row(t - 48, 0x19a4_c116, 0x1e37_6c08, 0x2748_774c, 0x34b0_bcb5,
                            0x391c_0cb3, 0x4ed8_aa4a, 0x5b9c_ca4f, 0x682e_6ff3)
    else if t < 64 then Row(t - 56, 0x748f_82ee, 0x78a5_636f, 0x84c8_7814, 0x8cc7_0208,
                            0x90be_fffa, 0xa450_6ceb, 0xbef9_a3f7, 0xc671_78f2)
    else 0
  }

  /** The word functions of the algorithm. What follows holds whatever they are; the standard's are below. */
  datatype Functions = Functions(
    ch: (nat, nat, nat) -> nat,
    maj: (nat, nat, nat) -> nat,
    bigSigma0: nat -> nat,
    bigSigma1: nat -> nat,
    smallSigma0: nat -> nat,
    smallSigma1: nat -> nat,
    constant: nat -> nat)

  function Rotr(a: nat, n: nat): nat
    decreases n
  {
    if n == 0 then a else Rotr(a / 2 + a % 2 * 0x8000_0000, n - 1)
  }

  function Xor3(a: nat, b: nat, c: nat): nat {
    Xor(Xor(a, b), c)
  }

  function Not(a: nat): nat {
    if a < WORD32 then WORD32 - 1 - a else 0
  }

  function Ch(x: nat, y: nat, z: nat): nat { Xor(And(x, y), And(Not(x), z)) }
  function Maj(x: nat, y: nat, z: nat): nat { Xor3(And(x, y), And(x, z), And(y, z)) }
  function BigSigma0(x: nat): nat { Xor3(Rotr(x, 2), Rotr(x, 13), Rotr(x, 22)) }
  function BigSigma1(x: nat): nat { Xor3(Rotr(x, 6), Rotr(x, 11), Rotr(x, 25)) }
  function SmallSigma0(x: nat): nat { Xor3(Rotr(x, 7), Rotr(x, 18), Shr(x, 3)) }
  function SmallSigma1(x: nat): nat { Xor3(Rotr(x, 17), Rotr(x, 19), Shr(x, 10)) }

  const STANDARD: Functions := Functions(Ch, Maj, BigSigma0, BigSigma1, SmallSigma0, SmallSigma1, Constant)

  /** The remainder of a sum modulo 2^32. */
  function Mod32(x: nat): nat {
    x % WORD32
  }

  /** The number that bytes spell, most significant first. */
  function BigEndian(bytes: seq<Byte>): nat {
    if bytes == [] then 0 else 256 * BigEndian(bytes[..|bytes| - 1]) + bytes[|bytes| - 1]
  }

  /** The message schedule. */
  function Schedule(fs: Functions, block: seq<Byte>, t: nat): nat
    requires |block| == BLOCK && t < 64
  {
    if t < 16 then BigEndian(block[4 * t..4 * t + 4])
    else Mod32(fs.smallSigma1(Schedule(fs, block, t - 2)) + Schedule(fs, block, t - 7)
               + fs.smallSigma0(Schedule(fs, block, t - 15)) + Schedule(fs, block, t - 16))
  }

  datatype State = State(a: nat, b: nat, c: nat, d: nat, e: nat, f: nat, g: nat, h: nat)

  function Round(fs: Functions, s: State, k: nat, w: nat): State {
    var t1 := Mod32(s.h + fs.bigSigma1(s.e) + fs.ch(s.e, s.f, s.g) + k + w);
    var t2 := Mod32(fs.bigSigma0(s.a) + fs.maj(s.a, s.b, s.c));
    State(Mod32(t1 + t2), s.a, s.b, s.c, Mod32(s.d + t1), s.e, s.f, s.g)
  }

  function Rounds(fs: Functions, s: State, block: seq<Byte>, t: nat): State
    requires |block| == BLOCK && t <= |block|
  {
    if t == 0 then s else Round(fs, Rounds(fs, s, block, t - 1), fs.constant(t - 1), Schedule(fs, block, t - 1))
  }

  function AddState(s: State, r: State): State {
    State(Mod32(s.a + r.a), Mod32(s.b + r.b), Mod32(s.c + r.c), Mod32(s.d + r.d),
          Mod32(s.e + r.e), Mod32(s.f + r.f), Mod32(s.g + r.g), Mod32(s.h + r.h))
  }

  function CompressWith(fs: Functions, s: State, block: seq<Byte>): State
    requires |block| == BLOCK
  {
    AddState(s, Rounds(fs, s, block, |block|))
  }

  /** What updating and padding need of compression: any function of a state and a block. */
  type Compressor = (State, seq<Byte>) -> State

  /** Compression with given word functions; `Compression(STANDARD)` is that of SHA-256. */
  function Compression(fs: Functions): Compressor {
    (s, block) => if |block| == BLOCK then CompressWith(fs, s, block) else s
  }

  const INITIAL: State :=
    State(0x6a09_e667, 0xbb67_ae85, 0x3c6e_f372, 0xa54f_f53a, 0x510e_527f, 0x9b05_688c, 0x1f83_d9ab, 0x5be0_cd19)

  /** A whole number of blocks. */
  predicate Whole(n: nat) {
    n == 0 || (n >= BLOCK && Whole(n - BLOCK))
  }

  lemma {:induction false} WholeAdds(a: nat, b: nat)
    requires Whole(a) && Whole(b)
    ensures Whole(a + b)
  {
    if a > 0 { WholeAdds(a - BLOCK, b); }
  }

  lemma {:induction false} WholeIsMultiple(n: nat)
    ensures Whole(n) <==> n % BLOCK == 0
  {
    if n >= BLOCK { WholeIsMultiple(n - BLOCK); }
  }

  /** Compression over consecutive whole blocks. */
  function Absorb(f: Compressor, s: State, data: seq<Byte>): State
    requires Whole(|data|)
    decreases |data|
  {
    if data == [] then s else Absorb(f, f(s, data[..BLOCK]), data[BLOCK..])
  }

  function Zeros(n: nat): (z: seq<Byte>)
    ensures |z| == n
  {
    seq(n, _ => 0)
  }

  /** The low `n` bytes of a number, most significant first. */
  function HighFirst(value: nat, n: nat): (r: seq<Byte>)
    ensures |r| == n
  {
    if n == 0 then [] else HighFirst(value / 256, n - 1) + [value % 256]
  }

  /** The number of zero bytes between the marker and the length: the least that completes a block. */
  function Gap(length: nat): nat {
    if length < 56 then 55 - length else if length < 120 then 119 - length else Gap(length - BLOCK)
  }

  lemma {:induction false} PadLength(length: nat)
    ensures Gap(length) < BLOCK && Whole(length + 1 + Gap(length) + 8)
  {
    if length >= 120 {
      PadLength(length - BLOCK);
    } else if length >= 56 {
      assert Whole(64) && length + 1 + Gap(length) + 8 == 128;
    }
  }

  function Pad(message: seq<Byte>): (r: seq<Byte>)
    ensures Whole(|r|)
  {
    PadLength(|message|);
    PadWith(message, Gap(|message|), LengthBytes(8 * |message|))
  }

  /** The 64-bit length that ends the last block. */
  function LengthBytes(bits: nat): (r: seq<Byte>)
    ensures |r| == 8
  {
    HighFirst(bits, BLOCK - 56)
  }

  function PadWith(message: seq<Byte>, gap: nat, length: seq<Byte>): (r: seq<Byte>)
    ensures |r| == |message| + 1 + gap + |length|
  {
    message + [0x80] + Zeros(gap) + length
  }

  /** The words one after the other, each most significant byte first. */
  function Written(words: seq<nat>): (r: seq<Byte>)
    ensures |r| == 4 * |words|
  {
    if words == [] then [] else Written(words[..|words| - 1]) + HighFirst(words[|words| - 1], 4)
  }

  function Output(s: State): (r: seq<Byte>)
    ensures |r| == 32
  {
    Written([s.a, s.b, s.c, s.d, s.e, s.f, s.g, s.h])
  }

  function Digest(f: Compressor, message: seq<Byte>): (r: seq<Byte>)
    ensures |r| == 32
  {
    Output(Absorb(f, INITIAL, Pad(message)))
  }

  /** Reading bytes and writing them gives them back: the first is the most significant. */
  lemma {:induction false} ReadIsWritten(bytes: seq<Byte>)
    ensures HighFirst(BigEndian(bytes), |bytes|) == bytes && BigEndian(bytes) < Power256(|bytes|)
  {
    if bytes != [] {
      var front, last := bytes[..|bytes| - 1], bytes[|bytes| - 1];
      ReadIsWritten(front);
      assert (256 * BigEndian(front) + last) / 256 == BigEndian(front) && (256 * BigEndian(front) + last) % 256 == last;
      assert bytes == front + [last];
    }
  }

  /** Four bytes shifted into their places. */
  lemma FourBytes(bytes: seq<Byte>)
    requires |bytes| == 4
    ensures BigEndian(bytes) == bytes[0] as nat * 0x100_0000 + bytes[1] as nat * 0x1_0000 + bytes[2] as nat * 0x100
         + bytes[3]
  {
    var three, two, one := bytes[..3], bytes[..2], bytes[..1];
    assert three[..2] == two && two[..1] == one && one[..0] == [];
    assert BigEndian(one) == bytes[0] && BigEndian(two) == 256 * BigEndian(one) + bytes[1];
    assert BigEndian(three) == 256 * BigEndian(two) + bytes[2];
  }

  /** A word shifted out byte by byte. */
  lemma FourShifts(word: nat)
    ensures HighFirst(word, 4) == [word / 0x100_0000 % 256, word / 0x1_0000 % 256, word / 0x100 % 256, word % 256]
  {
    var a, b, c := word / 256, word / 0x1_0000, word / 0x100_0000;
    assert a / 256 == b && b / 256 == c;
    assert HighFirst(c, 0) == [] && HighFirst(c, 1) == [c % 256];
    assert HighFirst(b, 2) == [c % 256, b % 256];
    assert HighFirst(a, 3) == [c % 256, b % 256, a % 256];
  }

  lemma {:induction false} AbsorbAppend(f: Compressor, s: State, a: seq<Byte>, b: seq<Byte>)
    requires Whole(|a|) && Whole(|b|)
    ensures Whole(|a + b|)
    ensures Absorb(f, s, a + b) == Absorb(f, Absorb(f, s, a), b)
    decreases |a|
  {
    WholeAdds(|a|, |b|);
    if a == [] {
      assert a + b == b;
    } else {
      assert (a + b)[..BLOCK] == a[..BLOCK] && (a + b)[BLOCK..] == a[BLOCK..] + b;
      AbsorbAppend(f, f(s, a[..BLOCK]), a[BLOCK..], b);
    }
  }

  lemma AbsorbBlock(f: Compressor, s: State, block: seq<Byte>)
    requires |block| == BLOCK
    ensures Absorb(f, s, block) == f(s, block)
  {
    assert block[..BLOCK] == block && block[BLOCK..] == [];
  }

  // ----- the compression as it is run -----

  /** Additions that wrap one by one give the remainder of the whole sum. */
  function Wrap(a: nat, b: nat): nat {
    Mod32(a + b)
  }

  lemma WrapTwice(a: nat, b: nat, c: nat)
    ensures Wrap(Wrap(a, b), c) == Mod32(a + b + c)
  {
  }

  lemma WrapSum4(a: nat, b: nat, c: nat, d: nat)
    ensures Wrap(Wrap(Wrap(a, b), c), d) == Mod32(a + b + c + d)
  {
    WrapTwice(a, b, c);
    WrapTwice(a + b, c, d);
  }

  lemma WrapSum5(a: nat, b: nat, c: nat, d: nat, e: nat)
    ensures Wrap(Wrap(Wrap(Wrap(a, b), c), d), e) == Mod32(a + b + c + d + e)
  {
    WrapSum4(a, b, c, d);
    WrapTwice(a + b + c, d, e);
  }

  /** The first `t` words are those of the schedule. */
  predicate Scheduled(fs: Functions, block: seq<Byte>, words: seq<nat>, t: nat)
    requires |block| == BLOCK
  {
    |words| == 64 && t <= 64 && forall k :: 0 <= k < t ==> words[k] == Schedule(fs, block, k)
  }

  method ExpandWords(fs: Functions, block: seq<Byte>) returns (words: array<nat>)
    requires |block| == BLOCK
    ensures fresh(words) && Scheduled(fs, block, words[..], 64)
  {
    words := new nat[64];
    for t := 0 to 16
      invariant Scheduled(fs, block, words[..], t)
    {
      FourBytes(block[4 * t..4 * t + 4]);
      words[t] := block[4 * t] as nat * 0x100_0000 + block[4 * t + 1] as nat * 0x1_0000
        + block[4 * t + 2] as nat * 0x100 + block[4 * t + 3];
    }
    for t := 16 to 64
      invariant Scheduled(fs, block, words[..], t)
    {
      ExtendIsSchedule(fs, block, words[..], t);
      words[t] := ExtendWord(fs, words[t - 16], words[t - 15], words[t - 7], words[t - 2]);
    }
  }

  function ExtendWord(fs: Functions, w16: nat, w15: nat, w7: nat, w2: nat): nat {
    Wrap(Wrap(Wrap(w16, fs.smallSigma0(w15)), w7), fs.smallSigma1(w2))
  }

  lemma ExtendIsSchedule(fs: Functions, block: seq<Byte>, words: seq<nat>, t: nat)
    requires |block| == BLOCK && 16 <= t < 64 && Scheduled(fs, block, words, t)
    ensures Scheduled(fs, block, words[t := ExtendWord(fs, words[t - 16], words[t - 15], words[t - 7], words[t - 2])],
                      t + 1)
  {
    WrapSum4(words[t - 16], fs.smallSigma0(words[t - 15]), words[t - 7], fs.smallSigma1(words[t - 2]));
  }

  method RunRounds(fs: Functions, s: State, words: array<nat>, block: seq<Byte>) returns (r: State)
    requires |block| == BLOCK && Scheduled(fs, block, words[..], 64)
    ensures r == Rounds(fs, s, block, |block|)
  {
    r := s;
    for t := 0 to 64
      invariant r == Rounds(fs, s, block, t)
    {
      r := RunRound(fs, r, fs.constant(t), words[t]);
    }
  }

  /** The eight working variables shifted down by one, with two of them renewed. */
  method RunRound(fs: Functions, s: State, k: nat, w: nat) returns (r: State)
    ensures r == Round(fs, s, k, w)
  {
    var a, b, c, d := s.a, s.b, s.c, s.d;
    var e, f, g, h := s.e, s.f, s.g, s.h;
    WrapSum5(h, fs.bigSigma1(e), fs.ch(e, f, g), k, w);
    var first := Wrap(Wrap(Wrap(Wrap(h, fs.bigSigma1(e)), fs.ch(e, f, g)), k), w);
    var second := Wrap(fs.bigSigma0(a), fs.maj(a, b, c));
    h := g;
    g := f;
    f := e;
    e := Wrap(d, first);
    d := c;
    c := b;
    b := a;
    a := Wrap(first, second);
    r := State(a, b, c, d, e, f, g, h);
  }

  method ProcessBlock(fs: Functions, s: State, block: seq<Byte>) returns (r: State)
    requires |block| == BLOCK
    ensures r == CompressWith(fs, s, block)
  {
    var words := ExpandWords(fs, block);
    var rounds := RunRounds(fs, s, words, block);
    SumsWrap(s, rounds);
    r := State(Wrap(s.a, rounds.a), Wrap(s.b, rounds.b), Wrap(s.c, rounds.c), Wrap(s.d, rounds.d),
               Wrap(s.e, rounds.e), Wrap(s.f, rounds.f), Wrap(s.g, rounds.g), Wrap(s.h, rounds.h));
  }

  lemma SumsWrap(s: State, r: State)
    ensures AddState(s, r) == State(Wrap(s.a, r.a), Wrap(s.b, r.b), Wrap(s.c, r.c), Wrap(s.d, r.d),
                                    Wrap(s.e, r.e), Wrap(s.f, r.f), Wrap(s.g, r.g), Wrap(s.h, r.h))
  {
  }

  // ----- the incremental hasher -----

  /** Running the block function with the given word functions is applying `compress`. */
  ghost predicate Runs(fs: Functions, compress: Compressor) {
    forall s: State, block: seq<Byte> {:trigger CompressWith(fs, s, block)} :: |block| == BLOCK ==>
        compress(s, block) == CompressWith(fs, s, block)
  }

  lemma CompressionRuns(fs: Functions)
    ensures Runs(fs, Compression(fs))
  {
  }

  class Hasher {
    const fs: Functions
    /** What a block does to the state. */
    ghost const compress: Compressor
    var state: State
    var pending: array<Byte>
    var pendingSize: nat
    var byteCount: nat
    var finished: bool
    /** Everything passed to `Update` before the first `Finish`. */
    ghost var message: seq<Byte>

    ghost predicate Valid()
      reads this, pending
    {
      && pending.Length == BLOCK && Runs(fs, compress)
      && (if finished then state == Absorb(compress, INITIAL, Pad(message))
          else Buffered(compress, state, pending[..], pendingSize, message) && byteCount == |message| % WORD64)
    }

    constructor (functions: Functions)
      ensures Valid() && fresh(pending) && compress == Compression(functions) && message == [] && !finished
    {
      CompressionRuns(functions);
      fs, compress := functions, Compression(functions);
      state := INITIAL;
      pending := new Byte[64](_ => 0);
      pendingSize, byteCount, finished, message := 0, 0, false, [];
    }

    /** One block into the state. */
    method Process(block: seq<Byte>)
      requires |block| == BLOCK && Runs(fs, compress)
      modifies this`state
      ensures state == compress(old(state), block)
    {
      state := ProcessBlock(fs, state, block);
    }

    /** Copies bytes into the buffer from `offset` on. */
    method CopyPending(offset: nat, data: seq<Byte>)
      requires offset + |data| <= pending.Length
      modifies pending
      ensures pending[..offset + |data|] == old(pending[..offset]) + data
    {
      for i := 0 to |data|
        invariant pending[..offset + i] == old(pending[..offset]) + data[..i]
      {
        pending[offset + i] := data[i];
      }
      assert data[..|data|] == data;
    }

    /** Completes a partial buffer, absorbs it when it is full, and returns what is left of the input. */
    method TopUp(bytes: seq<Byte>) returns (rest: seq<Byte>, ghost taken: seq<Byte>)
      requires pending.Length == BLOCK && 0 < pendingSize && Runs(fs, compress)
      requires Buffered(compress, state, pending[..], pendingSize, message)
      modifies this`state, this`pendingSize, pending
      ensures bytes == taken + rest
      ensures Buffered(compress, state, pending[..], pendingSize, message + taken)
      ensures rest != [] ==> pendingSize == 0
    {
      var count := if |bytes| < BLOCK - pendingSize then |bytes| else BLOCK - pendingSize;
      ghost var before, size := pending[..], pendingSize;
      CopyPending(pendingSize, bytes[..count]);
      taken, rest := bytes[..count], bytes[count..];
      pendingSize := pendingSize + count;
      TopUpKeeps(compress, state, before, size, message, taken, pending[..]);
      if pendingSize == BLOCK {
        assert pending[..] == pending[..pendingSize];
        Process(pending[..]);
        pendingSize := 0;
      }
    }

    /** Absorbs the whole blocks of the input straight from it. */
    method AbsorbBlocks(bytes: seq<Byte>, ghost before: seq<Byte>) returns (rest: seq<Byte>, ghost taken: seq<Byte>)
      requires Buffered(compress, state, pending[..], pendingSize, before) && (bytes != [] ==> pendingSize == 0)
      requires Runs(fs, compress)
      modifies this`state
      ensures bytes == taken + rest && |rest| < BLOCK
      ensures Buffered(compress, state, pending[..], pendingSize, before + taken)
    {
      rest, taken := bytes, [];
      ghost var message := before;
      while |rest| >= BLOCK
        invariant bytes == taken + rest && message == before + taken
        invariant Buffered(compress, state, pending[..], pendingSize, message)
      {
        var block := rest[..BLOCK];
        TakeBlock(block, message);
        assert rest == block + rest[BLOCK..];
        rest, taken, message := rest[BLOCK..], taken + block, message + block;
      }
    }

    /** Absorbs one block while the buffer is empty. */
    method TakeBlock(block: seq<Byte>, ghost message: seq<Byte>)
      requires Buffered(compress, state, pending[..], pendingSize, message) && pendingSize == 0 && |block| == BLOCK
      requires Runs(fs, compress)
      modifies this`state
      ensures Buffered(compress, state, pending[..], pendingSize, message + block)
    {
      BlockKeeps(compress, state, pending[..], message, block);
      Process(block);
    }

    /** Leaves the end of the input in the buffer. */
    method KeepTail(tail: seq<Byte>, ghost absorbed: seq<Byte>)
      requires pending.Length == BLOCK && |tail| < BLOCK && (tail != [] ==> pendingSize == 0)
      requires Buffered(compress, state, pending[..], pendingSize, absorbed)
      modifies this`pendingSize, pending
      ensures Buffered(compress, state, pending[..], pendingSize, absorbed + tail)
    {
      if tail != [] {
        ghost var buffer := pending[..];
        CopyPending(0, tail);
        TailKeeps(compress, state, buffer, absorbed, tail, pending[..]);
        pendingSize := |tail|;
      } else {
        assert absorbed + tail == absorbed;
      }
    }

    /** The input into the state and the buffer. */
    method Feed(bytes: seq<Byte>)
      requires pending.Length == BLOCK && Buffered(compress, state, pending[..], pendingSize, message)
      requires Runs(fs, compress)
      modifies this`state, this`pendingSize, pending
      ensures Buffered(compress, state, pending[..], pendingSize, message + bytes)
    {
      var rest := bytes;
      ghost var first, second := [], [];
      assert message + first == message;
      if pendingSize != 0 {
        rest, first := TopUp(rest);
      }
      var tail;
      tail, second := AbsorbBlocks(rest, message + first);
      KeepTail(tail, message + first + second);
      Regrouped(message, first, second, tail, rest, bytes);
    }

    method Update(bytes: seq<Byte>)
      requires Valid()
      modifies this, pending
      ensures Valid() && pending == old(pending) && finished == old(finished)
      ensures message == if finished then old(message) else old(message) + bytes
    {
      if finished || bytes == [] {
        assert message + [] == message;
        return;
      }
      CountWraps(|message|, |bytes|);
      byteCount := (byteCount + |bytes|) % WORD64;
      Feed(bytes);
      message := message + bytes;
    }

    /** Fills part of the buffer with zeros. */
    method ZeroPending(from: nat, to: nat)
      requires from <= to <= pending.Length
      modifies pending
      ensures pending[..to] == old(pending[..from]) + Zeros(to - from)
    {
      for i := from to to
        invariant pending[..i] == old(pending[..from]) + Zeros(i - from)
      {
        pending[i] := 0;
      }
    }

    /** Writes the bit count into the last eight bytes, most significant first. */
    method WriteLength(bits: nat)
      requires pending.Length == BLOCK
      modifies pending
      ensures pending[..] == old(pending[..56]) + LengthBytes(bits)
    {
      for i := 0 to 8
        invariant pending[..56 + i] == old(pending[..56]) + LengthBytes(bits)[..i]
      {
        HighFirstByte(bits, BLOCK - 56, i);
        pending[56 + i] := ByteOf(bits, 7 - i);
      }
      assert pending[..] == pending[..64] && LengthBytes(bits)[..8] == LengthBytes(bits);
    }

    /** Zeros up to the length, the length, and the last compression. */
    method CloseBlock(bits: nat)
      requires pending.Length == BLOCK && pendingSize <= 56 && Runs(fs, compress)
      modifies this`state, pending
      ensures state == compress(old(state), old(pending[..pendingSize]) + Zeros(56 - pendingSize) + LengthBytes(bits))
    {
      ZeroPending(pendingSize, 56);
      WriteLength(bits);
      Process(pending[..]);
    }

    /** A block of its own for the marker when the length no longer fits after it. */
    method FlushMarker()
      requires pending.Length == BLOCK && pendingSize <= BLOCK && Runs(fs, compress)
      modifies this`state, this`pendingSize, pending
      ensures pendingSize == 0
      ensures state == compress(old(state), old(pending[..pendingSize]) + Zeros(BLOCK - old(pendingSize)))
    {
      ZeroPending(pendingSize, BLOCK);
      assert pending[..] == pending[..BLOCK];
      Process(pending[..]);
      pendingSize := 0;
    }

    /** Marker, zeros and length. */
    method AppendPadding(bits: nat)
      requires pending.Length == BLOCK && pendingSize < BLOCK && Runs(fs, compress)
      modifies this`state, this`pendingSize, pending
      ensures state == Closing(compress, old(state), old(pending[..pendingSize]), LengthBytes(bits))
    {
      CopyPending(pendingSize, [0x80]);
      pendingSize := pendingSize + 1;
      if pendingSize > 56 {
        FlushMarker();
        assert pending[..0] + Zeros(56) == Zeros(56);
      }
      CloseBlock(bits);
    }

    /** The state once the message is padded. */
    method Complete()
      requires pending.Length == BLOCK && Buffered(compress, state, pending[..], pendingSize, message)
      requires Runs(fs, compress)
      requires byteCount == |message| % WORD64
      modifies this`state, this`pendingSize, pending
      ensures state == Absorb(compress, INITIAL, Pad(message))
    {
      BufferedCloses(compress, state, pending[..], pendingSize, message);
      assert pending[..pendingSize] == pending[..][..pendingSize];
      BitCountWraps(|message|);
      var bitCount := byteCount * 8 % WORD64;
      AppendPadding(bitCount);
    }

    method Finish() returns (digest: seq<Byte>)
      requires Valid()
      modifies this, pending
      ensures Valid() && finished && message == old(message) && pending == old(pending)
      ensures digest == Digest(compress, message)
    {
      if !finished {
        Complete();
        finished := true;
      }
      digest := WriteState(state);
    }
  }

  /** The words of the state one after the other, each shifted out from its highest byte. */
  method WriteState(s: State) returns (digest: seq<Byte>)
    ensures digest == Output(s)
  {
    var words := [s.a, s.b, s.c, s.d, s.e, s.f, s.g, s.h];
    digest := [];
    for i := 0 to 8
      invariant digest == Written(words[..i])
    {
      var word := words[i];
      FourShifts(word);
      assert words[..i + 1][..i] == words[..i];
      digest := digest + [word / 0x100_0000 % 256, word / 0x1_0000 % 256, word / 0x100 % 256, word % 256];
    }
    assert words[..8] == words;
  }

  function Joined(chunks: seq<seq<Byte>>): seq<Byte> {
    if chunks == [] then [] else Joined(chunks[..|chunks| - 1]) + chunks[|chunks| - 1]
  }

  method UpdateAll(hasher: Hasher, chunks: seq<seq<Byte>>)
    requires hasher.Valid() && !hasher.finished && hasher.message == []
    modifies hasher, hasher.pending
    ensures hasher.Valid() && !hasher.finished && hasher.pending == old(hasher.pending)
    ensures hasher.message == Joined(chunks)
  {
    for i := 0 to |chunks|
      invariant hasher.Valid() && !hasher.finished && hasher.pending == old(hasher.pending)
      invariant hasher.message == Joined(chunks[..i])
    {
      JoinedNext(chunks, i);
      hasher.Update(chunks[i]);
    }
    assert chunks[..|chunks|] == chunks;
  }

  lemma JoinedNext(chunks: seq<seq<Byte>>, i: nat)
    requires i < |chunks|
    ensures Joined(chunks[..i + 1]) == Joined(chunks[..i]) + chunks[i]
  {
    assert chunks[..i + 1][..i] == chunks[..i];
  }

  /** However a message is cut into updates, finishing once or twice gives the digest of the whole. */
  method HashChunks(fs: Functions, chunks: seq<seq<Byte>>) returns (digest: seq<Byte>, again: seq<Byte>)
    ensures digest == again == Digest(Compression(fs), Joined(chunks))
  {
    var hasher := new Hasher(fs);
    UpdateAll(hasher, chunks);
    digest := hasher.Finish();
    again := hasher.Finish();
  }

  /** SHA-256 itself: the standard's compression, over a message cut in any way. */
  method HashMessage(chunks: seq<seq<Byte>>) returns (digest: seq<Byte>)
    ensures digest == Digest(Compression(STANDARD), Joined(chunks))
  {
    var again;
    digest, again := HashChunks(STANDARD, chunks);
  }

  lemma Regrouped(m: seq<Byte>, a: seq<Byte>, b: seq<Byte>, c: seq<Byte>, rest: seq<Byte>, bytes: seq<Byte>)
    requires bytes == a + rest && rest == b + c
    ensures m + a + b + c == m + bytes
  {
  }

  lemma CountWraps(a: nat, b: nat)
    ensures (a % WORD64 + b) % WORD64 == (a + b) % WORD64
  {
  }

  /** The byte `k` places above the lowest. */
  function ByteOf(value: nat, k: nat): Byte {
    if k == 0 then value % 256 else ByteOf(value / 256, k - 1)
  }

  lemma {:induction false} HighFirstByte(value: nat, n: nat, i: nat)
    requires i < n
    ensures HighFirst(value, n)[i] == ByteOf(value, n - 1 - i)
  {
    if i < n - 1 { HighFirstByte(value / 256, n - 1, i); }
  }

  /** Once padded, a short tail ends in one block. */
  lemma PadOneBlock(done: seq<Byte>, tail: seq<Byte>, gap: nat, length: seq<Byte>)
    ensures PadWith(done + tail, gap, length) == done + (tail + [0x80] + Zeros(gap) + length)
  {
    OneBlockShape(done, tail, [0x80], Zeros(gap), length);
  }

  /** Once padded, a long tail ends in two. */
  lemma PadTwoBlocks(done: seq<Byte>, tail: seq<Byte>, a: nat, b: nat, length: seq<Byte>)
    ensures PadWith(done + tail, a + b, length) == done + ((tail + [0x80] + Zeros(a)) + (Zeros(b) + length))
  {
    assert Zeros(a) + Zeros(b) == Zeros(a + b);
    TwoBlockShape(done, tail, [0x80], Zeros(a), Zeros(b), length);
  }

  lemma AbsorbOne(f: Compressor, s: State, done: seq<Byte>, block: seq<Byte>)
    requires Whole(|done|) && |block| == BLOCK
    ensures Whole(|done + block|)
    ensures Absorb(f, s, done + block) == f(Absorb(f, s, done), block)
  {
    AbsorbAppend(f, s, done, block);
    AbsorbBlock(f, Absorb(f, s, done), block);
  }

  lemma OneBlockShape(done: seq<Byte>, tail: seq<Byte>, marker: seq<Byte>, zeros: seq<Byte>, length: seq<Byte>)
    ensures done + tail + marker + zeros + length == done + (tail + marker + zeros + length)
  {
  }

  lemma TwoBlockShape(done: seq<Byte>, tail: seq<Byte>, marker: seq<Byte>, a: seq<Byte>, b: seq<Byte>,
                      length: seq<Byte>)
    ensures done + tail + marker + (a + b) + length == done + ((tail + marker + a) + (b + length))
  {
  }

  lemma AbsorbTwo(f: Compressor, s: State, done: seq<Byte>, first: seq<Byte>, second: seq<Byte>)
    requires Whole(|done|) && |first| == |second| == BLOCK
    ensures Whole(|done + (first + second)|)
    ensures Absorb(f, s, done + (first + second)) == f(f(Absorb(f, s, done), first), second)
  {
    AbsorbAppend(f, s, done, first + second);
    var state := Absorb(f, s, done);
    AbsorbAppend(f, state, first, second);
    AbsorbBlock(f, state, first);
    AbsorbBlock(f, f(state, first), second);
  }

  /** The last compressions: one when the marker and the length fit after the tail, otherwise two. */
  function Closing(f: Compressor, s: State, tail: seq<Byte>, length: seq<Byte>): State
    requires |tail| < BLOCK
  {
    if |tail| < 56 then f(s, tail + [0x80] + Zeros(55 - |tail|) + length)
    else f(f(s, tail + [0x80] + Zeros(63 - |tail|)), Zeros(56) + length)
  }

  lemma ClosesInOne(f: Compressor, s: State, done: seq<Byte>, tail: seq<Byte>, gap: nat, length: seq<Byte>,
                    padded: seq<Byte>)
    requires Whole(|done|) && |tail| + 1 + gap == 56 && |length| == 8
    requires padded == PadWith(done + tail, gap, length)
    ensures Whole(|padded|) && Absorb(f, s, padded) == f(Absorb(f, s, done), tail + [0x80] + Zeros(gap) + length)
  {
    PadOneBlock(done, tail, gap, length);
    AbsorbOne(f, s, done, tail + [0x80] + Zeros(gap) + length);
  }

  lemma ClosesInTwo(f: Compressor, s: State, done: seq<Byte>, tail: seq<Byte>, gap: nat, length: seq<Byte>,
                    padded: seq<Byte>)
    requires Whole(|done|) && |tail| + 1 + gap == BLOCK && |length| == 8
    requires padded == PadWith(done + tail, gap + 56, length)
    ensures Whole(|padded|)
    ensures Absorb(f, s, padded) == f(f(Absorb(f, s, done), tail + [0x80] + Zeros(gap)), Zeros(56) + length)
  {
    PadTwoBlocks(done, tail, gap, 56, length);
    AbsorbTwo(f, s, done, tail + [0x80] + Zeros(gap), Zeros(56) + length);
  }

  /** Closing what is buffered is absorbing the padded message. */
  lemma ClosingPads(f: Compressor, s: State, done: seq<Byte>, tail: seq<Byte>)
    requires Whole(|done|) && |tail| < BLOCK
    ensures Absorb(f, s, Pad(done + tail)) == Closing(f, Absorb(f, s, done), tail, LengthBytes(8 * |done + tail|))
  {
    GapOf(|done|, |tail|);
    if |tail| < 56 {
      ClosesInOne(f, s, done, tail, 55 - |tail|, LengthBytes(8 * |done + tail|), Pad(done + tail));
    } else {
      ClosesInTwo(f, s, done, tail, 63 - |tail|, LengthBytes(8 * |done + tail|), Pad(done + tail));
    }
  }

  lemma {:induction false} GapOf(whole: nat, size: nat)
    requires Whole(whole) && size < BLOCK
    ensures Gap(whole + size) == if size < 56 then 55 - size else 119 - size
  {
    if whole > 0 {
      GapOf(whole - BLOCK, size);
      if whole == BLOCK && size < 56 {
        assert whole + size < 120;
      }
    }
  }

  const WORD64: nat := 0x1_0000_0000_0000_0000

  /** The whole blocks of the message have been absorbed, and the rest of it waits in the buffer. */
  ghost predicate Buffered(f: Compressor, state: State, pending: seq<Byte>, size: nat, message: seq<Byte>) {
    && size < BLOCK <= |pending| && size <= |message| && Whole(|message| - size)
    && state == Absorb(f, INITIAL, message[..|message| - size])
    && pending[..size] == message[|message| - size..]
  }

  /** Numbers that differ by a multiple of 256 to the `n` have the same low `n` bytes. */
  lemma {:induction false} HighFirstCongruent(a: nat, b: nat, k: nat, n: nat)
    requires a == b + k * Power256(n)
    ensures HighFirst(a, n) == HighFirst(b, n)
    decreases n
  {
    if n > 0 {
      var x := k * Power256(n - 1);
      assert k * Power256(n) == 256 * x by {
        Pull(k, Power256(n - 1));
      }
      assert a % 256 == b % 256 && a / 256 == b / 256 + x;
      HighFirstCongruent(a / 256, b / 256, k, n - 1);
    }
  }

  lemma Pull(k: nat, p: nat)
    ensures k * (256 * p) == 256 * (k * p)
  {
  }

  /** The 64-bit bit count, wrapped wherever it wraps, has the bytes of eight times the length. */
  lemma BitCountWraps(bytes: nat)
    ensures LengthBytes(bytes % WORD64 * 8 % WORD64) == LengthBytes(8 * bytes)
  {
    var q, r := bytes / WORD64, bytes % WORD64;
    var k := 8 * r / WORD64 + 8 * q;
    assert 8 * bytes == 8 * r % WORD64 + k * WORD64;
    assert Power256(4) == 0x1_0000_0000;
    assert Power256(8) == WORD64;
    HighFirstCongruent(8 * bytes, 8 * r % WORD64, k, 8);
  }

  lemma BufferedCloses(f: Compressor, state: State, pending: seq<Byte>, size: nat, message: seq<Byte>)
    requires Buffered(f, state, pending, size, message)
    ensures Closing(f, state, pending[..size], LengthBytes(8 * |message|)) == Absorb(f, INITIAL, Pad(message))
  {
    var done := message[..|message| - size];
    assert message == done + pending[..size];
    ClosingPads(f, INITIAL, done, pending[..size]);
  }

  lemma BlockKeeps(f: Compressor, state: State, pending: seq<Byte>, message: seq<Byte>, block: seq<Byte>)
    requires Buffered(f, state, pending, 0, message) && |block| == BLOCK
    ensures Buffered(f, f(state, block), pending, 0, message + block)
  {
    assert message[..|message|] == message && (message + block)[..|message + block|] == message + block;
    AbsorbAppend(f, INITIAL, message, block);
    AbsorbBlock(f, state, block);
  }

  lemma TailKeeps(f: Compressor, state: State, pending: seq<Byte>, message: seq<Byte>, tail: seq<Byte>,
                  copied: seq<Byte>)
    requires Buffered(f, state, pending, 0, message) && |tail| < BLOCK <= |copied| && copied[..|tail|] == tail
    ensures Buffered(f, state, copied, |tail|, message + tail)
  {
    assert (message + tail)[..|message|] == message == message[..|message|];
  }

  lemma TopUpKeeps(f: Compressor, state: State, pending: seq<Byte>, size: nat, message: seq<Byte>, bytes: seq<Byte>,
                   copied: seq<Byte>)
    requires Buffered(f, state, pending, size, message) && size + |bytes| <= BLOCK == |copied|
    requires copied[..size + |bytes|] == pending[..size] + bytes
    ensures size + |bytes| < BLOCK ==> Buffered(f, state, copied, size + |bytes|, message + bytes)
    ensures size + |bytes| == BLOCK ==> Buffered(f, f(state, copied), copied, 0, message + bytes)
  {
    var done := message[..|message| - size];
    assert message == done + pending[..size];
    var total := message + bytes;
    assert total == done + copied[..size + |bytes|];
    assert total[..|done|] == done && total[|done|..] == copied[..size + |bytes|];
    if size + |bytes| == BLOCK {
      assert copied[..BLOCK] == copied;
      AbsorbAppend(f, INITIAL, done, copied);
      AbsorbBlock(f, state, copied);
      assert total[..|total|] == total;
    }
  }
}
