/** UTF-8 text: the runtime's byte decoder against the encoding of section 3 of RFC 3629, and
    strings as sequences of Unicode scalars. Masks and shifts are written with / and %. */
module Utf8 {
  import opened Wrappers

  type Scalar = n: nat | n < 0xd800 || 0xdfff < n < 0x110000

  // ----- the encoding -----

  function Tail(bits: nat): Byte {
    0x80 + bits % 64
  }

  function Encode(v: Scalar): seq<Byte> {
    if v < 0x80 then [v]
    else if v < 0x800 then [0xc0 + v / 64, Tail(v)]
    else if v < 0x10000 then [0xe0 + v / 4096, Tail(v / 64), Tail(v)]
    else [0xf0 + v / 262144, Tail(v / 4096), Tail(v / 64), Tail(v)]
  }

  function EncodeAll(scalars: seq<Scalar>): seq<Byte> {
    if scalars == [] then [] else Encode(scalars[0]) + EncodeAll(scalars[1..])
  }

  // ----- the decoder -----

  predicate IsContinuation(b: Byte) {
    b / 64 == 2
  }

  function Join2(a: nat, b: nat): nat {
    a % 32 * 64 + b % 64
  }

  function Join3(a: nat, b: nat, c: nat): nat {
    a % 16 * 4096 + b % 64 * 64 + c % 64
  }

  function Join4(a: nat, b: nat, c: nat, d: nat): nat {
    a % 8 * 262144 + b % 64 * 4096 + c % 64 * 64 + d % 64
  }

  datatype Decoded = Decoded(scalar: nat, next: nat)

  /** The scalar at `index` and the index after it, as the runtime decodes it. */
  function Decode(data: seq<Byte>, index: nat): (r: Option<Decoded>)
    ensures r.Some? ==> index < r.value.next <= |data|
  {
    if index >= |data| then None
    else
      var first := data[index];
      if first <= 0x7f then Some(Decoded(first, index + 1))
      else if 0xc2 <= first <= 0xdf && index + 1 < |data| && IsContinuation(data[index + 1]) then
        Some(Decoded(Join2(first, data[index + 1]), index + 2))
      else if index + 2 < |data|
           && ((first == 0xe0 && 0xa0 <= data[index + 1] <= 0xbf && IsContinuation(data[index + 2]))
               || ((0xe1 <= first <= 0xec || 0xee <= first <= 0xef)
                   && IsContinuation(data[index + 1]) && IsContinuation(data[index + 2]))
               || (first == 0xed && 0x80 <= data[index + 1] <= 0x9f && IsContinuation(data[index + 2]))) then
        Some(Decoded(Join3(first, data[index + 1], data[index + 2]), index + 3))
      else if index + 3 < |data|
           && ((first == 0xf0 && 0x90 <= data[index + 1] <= 0xbf
                && IsContinuation(data[index + 2]) && IsContinuation(data[index + 3]))
               || (0xf1 <= first <= 0xf3 && IsContinuation(data[index + 1])
                   && IsContinuation(data[index + 2]) && IsContinuation(data[index + 3]))
               || (first == 0xf4 && 0x80 <= data[index + 1] <= 0x8f
                   && IsContinuation(data[index + 2]) && IsContinuation(data[index + 3]))) then
        Some(Decoded(Join4(first, data[index + 1], data[index + 2], data[index + 3]), index + 4))
      else None
  }

  /** The bytes of `v` stand at `index`. */
  predicate EncodedAt(data: seq<Byte>, index: nat, v: Scalar) {
    index + |Encode(v)| <= |data| && data[index..index + |Encode(v)|] == Encode(v)
  }

  lemma DecodeInverts(data: seq<Byte>, index: nat)
    requires Decode(data, index).Some?
    ensures var d := Decode(data, index).value;
            && (d.scalar < 0xd800 || 0xdfff < d.scalar < 0x110000)
            && EncodedAt(data, index, d.scalar) && d.next == index + |Encode(d.scalar)|
  {
    var first := data[index];
    var d := Decode(data, index).value;
    if d.next == index + 1 {
      assert data[index..index + 1] == Encode(d.scalar);
    } else if d.next == index + 2 {
      TwoBytes(first, data[index + 1]);
      assert data[index..index + 2] == [first, data[index + 1]];
    } else if d.next == index + 3 {
      ThreeBytes(first, data[index + 1], data[index + 2]);
      assert data[index..index + 3] == [first, data[index + 1], data[index + 2]];
    } else {
      FourBytes(first, data[index + 1], data[index + 2], data[index + 3]);
      assert data[index..index + 4] == [first, data[index + 1], data[index + 2], data[index + 3]];
    }
  }

  lemma TwoBytes(a: Byte, b: Byte)
    requires 0xc2 <= a <= 0xdf && IsContinuation(b)
    ensures 0x80 <= Join2(a, b) < 0x800 && Encode(Join2(a, b)) == [a, b]
  {
  }

  lemma ThreeBytes(a: Byte, b: Byte, c: Byte)
    requires 0xe0 <= a <= 0xef && IsContinuation(b) && IsContinuation(c)
    requires (a == 0xe0 ==> 0xa0 <= b) && (a == 0xed ==> b <= 0x9f)
    ensures var v := Join3(a, b, c);
            0x800 <= v < 0x10000 && (v < 0xd800 || 0xdfff < v) && Encode(v) == [a, b, c]
  {
    LowBits3(a, b, c);
    ThreeDigits(a - 0xe0, b - 0x80, c - 0x80);
  }

  lemma LowBits3(a: Byte, b: Byte, c: Byte)
    requires 0xe0 <= a <= 0xef && IsContinuation(b) && IsContinuation(c)
    ensures a % 16 == a - 0xe0 && b % 64 == b - 0x80 && c % 64 == c - 0x80
  {
  }

  lemma ThreeDigits(x: nat, y: nat, z: nat)
    requires y < 64 && z < 64
    ensures var v := x * 4096 + y * 64 + z; v / 4096 == x && v / 64 % 64 == y && v % 64 == z
  {
    var v := x * 4096 + y * 64 + z;
    assert v / 64 == x * 64 + y;
  }

  lemma FourBytes(a: Byte, b: Byte, c: Byte, d: Byte)
    requires 0xf0 <= a <= 0xf4 && IsContinuation(b) && IsContinuation(c) && IsContinuation(d)
    requires (a == 0xf0 ==> 0x90 <= b) && (a == 0xf4 ==> b <= 0x8f)
    ensures var v := Join4(a, b, c, d); 0x10000 <= v < 0x110000 && Encode(v) == [a, b, c, d]
  {
    var x, y, z, w := a - 0xf0, b - 0x80, c - 0x80, d - 0x80;
    LowBits(a, b, c, d);
    FourDigits(x, y, z, w);
    EncodeDigits(x, y, z, w);
  }

  lemma LowBits(a: Byte, b: Byte, c: Byte, d: Byte)
    requires 0xf0 <= a <= 0xf4 && IsContinuation(b) && IsContinuation(c) && IsContinuation(d)
    ensures a % 8 == a - 0xf0 && b % 64 == b - 0x80 && c % 64 == c - 0x80 && d % 64 == d - 0x80
  {
  }

  lemma FourDigits(x: nat, y: nat, z: nat, w: nat)
    requires y < 64 && z < 64 && w < 64
    ensures var v := x * 262144 + y * 4096 + z * 64 + w;
            v / 262144 == x && v / 4096 % 64 == y && v / 64 % 64 == z && v % 64 == w
  {
    var v := x * 262144 + y * 4096 + z * 64 + w;
    assert v / 64 == (x * 64 + y) * 64 + z;
    assert v / 4096 == x * 64 + y;
  }

  lemma EncodeDigits(x: nat, y: nat, z: nat, w: nat)
    requires x <= 4 && y < 64 && z < 64 && w < 64 && (x == 0 ==> 16 <= y) && (x == 4 ==> y < 16)
    ensures var v := x * 262144 + y * 4096 + z * 64 + w;
            0x10000 <= v < 0x110000 && Encode(v) == [0xf0 + x, 0x80 + y, 0x80 + z, 0x80 + w]
  {
    FourDigits(x, y, z, w);
  }

  lemma SplitTwo(v: Scalar)
    requires 0x80 <= v < 0x800
    ensures 0xc2 <= Encode(v)[0] <= 0xdf && IsContinuation(Encode(v)[1]) && Join2(Encode(v)[0], Encode(v)[1]) == v
  {
  }

  lemma SplitThree(v: Scalar)
    requires 0x800 <= v < 0x10000
    ensures var e := Encode(v);
            && 0xe0 <= e[0] <= 0xef && IsContinuation(e[1]) && IsContinuation(e[2])
            && (e[0] == 0xe0 ==> 0xa0 <= e[1]) && (e[0] == 0xed ==> e[1] <= 0x9f) && Join3(e[0], e[1], e[2]) == v
  {
    assert v == v / 4096 * 4096 + v / 64 % 64 * 64 + v % 64;
  }

  lemma SplitFour(v: Scalar)
    requires 0x10000 <= v
    ensures var e := Encode(v);
            && 0xf0 <= e[0] <= 0xf4 && IsContinuation(e[1]) && IsContinuation(e[2]) && IsContinuation(e[3])
            && (e[0] == 0xf0 ==> 0x90 <= e[1]) && (e[0] == 0xf4 ==> e[1] <= 0x8f)
            && Join4(e[0], e[1], e[2], e[3]) == v
  {
    var x, y, z, w := v / 262144, v / 4096 % 64, v / 64 % 64, v % 64;
    assert v == x * 262144 + y * 4096 + z * 64 + w;
    LowBits(0xf0 + x, 0x80 + y, 0x80 + z, 0x80 + w);
  }

  lemma DecodeFinds(data: seq<Byte>, index: nat, v: Scalar)
    requires EncodedAt(data, index, v)
    ensures Decode(data, index) == Some(Decoded(v, index + |Encode(v)|))
  {
    BytesAt(data, index, Encode(v));
    if v < 0x80 {
    } else if v < 0x800 {
      SplitTwo(v);
    } else if v < 0x10000 {
      SplitThree(v);
    } else {
      SplitFour(v);
    }
  }

  lemma BytesAt(data: seq<Byte>, index: nat, e: seq<Byte>)
    requires index + |e| <= |data| && data[index..index + |e|] == e
    ensures |e| > 0 ==> data[index] == e[0]
    ensures |e| > 1 ==> data[index + 1] == e[1]
    ensures |e| > 2 ==> data[index + 2] == e[2]
    ensures |e| > 3 ==> data[index + 3] == e[3]
  {
    assert forall k :: 0 <= k < |e| ==> data[index + k] == e[k];
  }

  // ----- whole strings -----

  function Prepend(front: seq<Scalar>, rest: Option<seq<Scalar>>): Option<seq<Scalar>> {
    if rest.None? then None else Some(front + rest.value)
  }

  /** The scalars of the bytes from `index` on; none when they are not valid UTF-8. */
  function Scalars(data: seq<Byte>, index: nat): Option<seq<Scalar>>
    requires index <= |data|
    decreases |data| - index
  {
    if index == |data| then Some([])
    else
      var d := Decode(data, index);
      if d.None? then None
      else DecodeInverts(data, index); Prepend([d.value.scalar], Scalars(data, d.value.next))
  }

  predicate Valid(data: seq<Byte>) {
    Scalars(data, 0).Some?
  }

  lemma {:induction false} EncodeAllAppend(a: seq<Scalar>, b: seq<Scalar>)
    ensures EncodeAll(a + b) == EncodeAll(a) + EncodeAll(b)
  {
    if a == [] {
      assert a + b == b;
    } else {
      EncodeAllAppend(a[1..], b);
      assert a + b == [a[0]] + (a[1..] + b);
      EncodeAllFirst(a[0], a[1..] + b);
      Associate(Encode(a[0]), EncodeAll(a[1..]), EncodeAll(b));
    }
  }

  lemma Associate(a: seq<Byte>, b: seq<Byte>, c: seq<Byte>)
    ensures a + (b + c) == a + b + c
  {
  }

  lemma {:induction false} ScalarsAreEncoded(data: seq<Byte>, index: nat)
    requires index <= |data| && Scalars(data, index).Some?
    ensures EncodeAll(Scalars(data, index).value) == data[index..]
    decreases |data| - index
  {
    if index < |data| {
      DecodeInverts(data, index);
      var d := Decode(data, index).value;
      ScalarsAreEncoded(data, d.next);
      var rest := Scalars(data, d.next).value;
      EncodeAllFirst(d.scalar, rest);
      Cut(data, index, d.next);
    }
  }

  lemma EncodeAllFirst(first: Scalar, rest: seq<Scalar>)
    ensures EncodeAll([first] + rest) == Encode(first) + EncodeAll(rest)
  {
    assert ([first] + rest)[1..] == rest;
  }

  lemma Cut(data: seq<Byte>, a: nat, b: nat)
    requires a <= b <= |data|
    ensures data[a..] == data[a..b] + data[b..]
  {
  }

  lemma CutAt(data: seq<Byte>, index: nat, first: seq<Byte>, rest: seq<Byte>)
    requires index <= |data| && data[index..] == first + rest
    ensures index + |first| <= |data|
    ensures data[index..index + |first|] == first && data[index + |first|..] == rest
  {
    assert data[index..][..|first|] == first && data[index..][|first|..] == rest;
  }

  lemma {:induction false} EncodedHasScalars(data: seq<Byte>, index: nat, scalars: seq<Scalar>)
    requires index <= |data| && data[index..] == EncodeAll(scalars)
    ensures Scalars(data, index) == Some(scalars)
    decreases |scalars|
  {
    if scalars != [] {
      var e := Encode(scalars[0]);
      CutAt(data, index, e, EncodeAll(scalars[1..]));
      DecodeFinds(data, index, scalars[0]);
      EncodedHasScalars(data, index + |e|, scalars[1..]);
      assert [scalars[0]] + scalars[1..] == scalars;
    } else {
      assert |data[index..]| == |data| - index;
    }
  }

  /** The valid byte strings are exactly the encodings, each of one scalar sequence. */
  lemma ValidIsEncoded(data: seq<Byte>, scalars: seq<Scalar>)
    ensures Scalars(data, 0) == Some(scalars) <==> data == EncodeAll(scalars)
  {
    assert data[0..] == data;
    if Scalars(data, 0) == Some(scalars) {
      ScalarsAreEncoded(data, 0);
    }
    if data == EncodeAll(scalars) {
      EncodedHasScalars(data, 0, scalars);
    }
  }

  /** Concatenation adds scalars, and undoes a split at any scalar. */
  lemma ConcatAddsScalars(left: seq<Byte>, right: seq<Byte>)
    requires Valid(left) && Valid(right)
    ensures Scalars(left + right, 0) == Some(Scalars(left, 0).value + Scalars(right, 0).value)
  {
    var a, b := Scalars(left, 0).value, Scalars(right, 0).value;
    ValidIsEncoded(left, a);
    ValidIsEncoded(right, b);
    EncodeAllAppend(a, b);
    ValidIsEncoded(left + right, a + b);
  }

  lemma SplitAndConcat(data: seq<Byte>, k: nat)
    requires Valid(data) && k <= |Scalars(data, 0).value|
    ensures var s := Scalars(data, 0).value; EncodeAll(s[..k]) + EncodeAll(s[k..]) == data
  {
    var s := Scalars(data, 0).value;
    ValidIsEncoded(data, s);
    EncodeAllSplit(s, s[..k], s[k..]);
  }

  lemma EncodeAllSplit(s: seq<Scalar>, a: seq<Scalar>, b: seq<Scalar>)
    requires s == a + b
    ensures EncodeAll(a) + EncodeAll(b) == EncodeAll(s)
  {
    EncodeAllAppend(a, b);
  }

  // ----- text around an ASCII byte -----

  /** An ASCII byte in encoded text stands for itself, so the text before it and the text after it are encoded. */
  lemma {:induction false} AsciiCuts(scalars: seq<Scalar>, a: seq<Byte>, c: Byte, b: seq<Byte>)
    requires EncodeAll(scalars) == a + [c] + b && c < 0x80
    ensures Valid(a) && Valid(b)
    decreases |scalars|
  {
    assert |EncodeAll(scalars)| == |a| + 1 + |b|;
    if scalars != [] {
      var first, more := Encode(scalars[0]), EncodeAll(scalars[1..]);
      FirstFits(first, more, a, c, b);
      if a == [] {
        ValidIsEncoded(a, []);
        ValidIsEncoded(b, scalars[1..]);
      } else {
        AsciiCuts(scalars[1..], a[|first|..], c, b);
        EncodedIsValid(scalars[0]);
        ConcatAddsScalars(first, a[|first|..]);
        assert first + a[|first|..] == a;
      }
    }
  }

  lemma EncodedIsValid(v: Scalar)
    ensures Valid(Encode(v))
  {
    assert EncodeAll([v]) == Encode(v);
    ValidIsEncoded(Encode(v), [v]);
  }

  /** Either the ASCII byte is the first scalar, or the first scalar ends before it. */
  lemma FirstFits(first: seq<Byte>, more: seq<Byte>, a: seq<Byte>, c: Byte, b: seq<Byte>)
    requires first != [] && (|first| > 1 ==> forall i :: 0 <= i < |first| ==> first[i] >= 0x80)
    requires first + more == a + [c] + b && c < 0x80
    ensures if a == [] then first == [c] && more == b
            else |first| <= |a| && a[..|first|] == first && more == a[|first|..] + [c] + b
  {
    var whole := first + more;
    assert whole[|a|] == c && forall k :: 0 <= k < |first| ==> whole[k] == first[k];
    if a == [] {
      assert whole[0] == first[0] == c;
      assert whole[1..] == more == b;
    } else {
      assert whole[..|first|] == first && whole[|first|..] == more;
    }
  }

  lemma ValidAround(a: seq<Byte>, c: Byte, b: seq<Byte>)
    requires c < 0x80
    ensures Valid(a + [c] + b) <==> Valid(a) && Valid(b)
  {
    if Valid(a + [c] + b) {
      var scalars := Scalars(a + [c] + b, 0).value;
      ValidIsEncoded(a + [c] + b, scalars);
      AsciiCuts(scalars, a, c, b);
    }
    if Valid(a) && Valid(b) {
      EncodedIsValid(c);
      ConcatAddsScalars(a, [c]);
      ConcatAddsScalars(a + [c], b);
    }
  }

  lemma EmptyIsValid()
    ensures Valid([])
  {
  }

  lemma ValidAfter(c: Byte, b: seq<Byte>)
    requires c < 0x80
    ensures Valid([c] + b) <==> Valid(b)
  {
    ValidAround([], c, b);
    assert [] + [c] + b == [c] + b;
  }

  lemma ValidBefore(a: seq<Byte>, c: Byte)
    requires c < 0x80
    ensures Valid(a + [c]) <==> Valid(a)
  {
    ValidAround(a, c, []);
    assert a + [c] + [] == a + [c];
  }
}
