/** The build protocol's own UTF-8 check, written apart from the runtime's decoder: it accepts the same bytes. */
module ShuttleText {
  import opened Wrappers
  import opened Utf8

  /** How many bytes a lead byte announces, and the bits it contributes; none when it cannot lead. */
  function Lead(lead: Byte): Option<(nat, nat)> {
    if lead <= 0x7f then Some((1, lead as nat))
    else if 0xc2 <= lead <= 0xdf then Some((2, lead % 32))
    else if 0xe0 <= lead <= 0xef then Some((3, lead % 16))
    else if 0xf0 <= lead <= 0xf4 then Some((4, lead % 8))
    else None
  }

  /** The code point gathered from the bytes before `offset`. */
  function Gathered(bits: nat, data: seq<Byte>, index: nat, offset: nat): nat
    requires 1 <= offset && index + offset <= |data|
  {
    if offset == 1 then bits else Gathered(bits, data, index, offset - 1) * 64 + data[index + offset - 1] % 64
  }

  /** What is left to check once the code point is complete. */
  predicate Acceptable(length: nat, code: nat) {
    !((length == 3 && code < 0x800) || (length == 4 && code < 0x10000) || 0xd800 <= code <= 0xdfff || code > 0x10ffff)
  }

  ghost predicate Trails(data: seq<Byte>, index: nat, offset: nat) {
    index + offset <= |data| && forall k :: index < k < index + offset ==> IsContinuation(data[k])
  }

  lemma StepAgrees(data: seq<Byte>, index: nat)
    requires index < |data|
    ensures var lead := Lead(data[index]);
            if lead.None? then Decode(data, index).None?
            else
              var (length, bits) := lead.value;
              if index + length > |data| || !Trails(data, index, length) then Decode(data, index).None?
              else if !Acceptable(length, Gathered(bits, data, index, length)) then Decode(data, index).None?
              else Decode(data, index).Some? && Decode(data, index).value.next == index + length
  {
    var lead := Lead(data[index]);
    if lead.Some? {
      var (length, bits) := lead.value;
      if index + length <= |data| && Trails(data, index, length) {
        GatheredAgrees(data, index, length, bits);
        if length == 2 { TwoBytes(data[index], data[index + 1]); }
        else if length == 3 { ThreeRange(data[index], data[index + 1], data[index + 2]); }
        else if length == 4 { FourRange(data[index], data[index + 1], data[index + 2], data[index + 3]); }
      }
    }
  }

  lemma GatheredAgrees(data: seq<Byte>, index: nat, length: nat, bits: nat)
    requires index + length <= |data| && index < |data| && Lead(data[index]) == Some((length, bits))
    ensures var g := Gathered(bits, data, index, length);
            && (length == 2 ==> g == Join2(data[index], data[index + 1]))
            && (length == 3 ==> g == Join3(data[index], data[index + 1], data[index + 2]))
            && (length == 4 ==> g == Join4(data[index], data[index + 1], data[index + 2], data[index + 3]))
  {
    if length == 3 {
      assert Gathered(bits, data, index, 2) == bits * 64 + data[index + 1] % 64;
    } else if length == 4 {
      assert Gathered(bits, data, index, 2) == bits * 64 + data[index + 1] % 64;
      assert Gathered(bits, data, index, 3) == Gathered(bits, data, index, 2) * 64 + data[index + 2] % 64;
    }
  }

  lemma ThreeRange(a: Byte, b: Byte, c: Byte)
    requires 0xe0 <= a <= 0xef && IsContinuation(b) && IsContinuation(c)
    ensures Acceptable(3, Join3(a, b, c)) <==> (a == 0xe0 ==> 0xa0 <= b) && (a == 0xed ==> b <= 0x9f)
  {
  }

  lemma FourRange(a: Byte, b: Byte, c: Byte, d: Byte)
    requires 0xf0 <= a <= 0xf4 && IsContinuation(b) && IsContinuation(c) && IsContinuation(d)
    ensures Acceptable(4, Join4(a, b, c, d)) <==> (a == 0xf0 ==> 0x90 <= b) && (a == 0xf4 ==> b <= 0x8f)
  {
    LowBits(a, b, c, d);
  }

  /** The inner loop over the bytes after the lead; none when one of them is not a continuation. */
  method Gather(value: seq<Byte>, index: nat, length: nat, bits: nat) returns (code: Option<nat>)
    requires 1 <= length && index + length <= |value|
    ensures code == if Trails(value, index, length) then Some(Gathered(bits, value, index, length)) else None
  {
    var point: nat := bits;
    for offset := 1 to length
      invariant point == Gathered(bits, value, index, offset) && Trails(value, index, offset)
    {
      var byte := value[index + offset];
      if byte / 64 != 2 {
        assert !IsContinuation(value[index + offset]);
        return None;
      }
      point := point * 64 + byte % 64;
    }
    return Some(point);
  }

  method ValidUtf8(value: seq<Byte>) returns (ok: bool)
    ensures ok == Valid(value)
  {
    var index := 0;
    while index < |value|
      invariant index <= |value| && Valid(value) == Scalars(value, index).Some?
      decreases |value| - index
    {
      StepAgrees(value, index);
      var lead := Lead(value[index]);
      if lead.None? {
        return false;
      }
      var (length, bits) := lead.value;
      if index + length > |value| {
        return false;
      }
      var code := Gather(value, index, length, bits);
      if code.None? || !Acceptable(length, code.value) {
        return false;
      }
      index := index + length;
    }
    return true;
  }
}
