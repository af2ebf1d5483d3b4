/** Runtime strings: byte data with a scalar count, traversed by byte cursors, behave as sequences of scalars. */
module Strings {
  import opened Wrappers
  import opened Utf8

  const MAXIMUM_SIZE: nat := 0x7fff_ffff

  /** A string object: its bytes and the scalar count stored beside them. */
  datatype Text = Text(data: seq<Byte>, scalarCount: nat)

  datatype Outcome<+T> = Returned(value: T) | InvalidLayout | OutOfBounds | TooLarge | BadCursor

  /** The scalars a string stands for. */
  function Content(data: seq<Byte>): seq<Scalar>
    requires Valid(data)
  {
    Scalars(data, 0).value
  }

  /** What every string the runtime builds satisfies. */
  predicate WellFormed(t: Text) {
    && |t.data| <= MAXIMUM_SIZE && t.scalarCount <= MAXIMUM_SIZE
    && Valid(t.data) && t.scalarCount == |Content(t.data)|
  }

  /** Progress of a cursor: it has passed the scalars of `passed`. */
  ghost predicate Passed(data: seq<Byte>, index: nat, passed: seq<Scalar>) {
    && index <= |data| && index == |EncodeAll(passed)| && data[..index] == EncodeAll(passed)
    && Scalars(data, 0) == Prepend(passed, Scalars(data, index))
  }

  lemma PassedNone(data: seq<Byte>)
    ensures Passed(data, 0, [])
  {
    if Scalars(data, 0).Some? {
      assert [] + Scalars(data, 0).value == Scalars(data, 0).value;
    }
  }

  lemma PassNext(data: seq<Byte>, index: nat, passed: seq<Scalar>)
    requires Passed(data, index, passed) && Decode(data, index).Some?
    ensures var d := Decode(data, index).value;
            (d.scalar < 0xd800 || 0xdfff < d.scalar < 0x110000) && Passed(data, d.next, passed + [d.scalar])
  {
    var d := Decode(data, index).value;
    DecodeInverts(data, index);
    EncodeAllAppend(passed, [d.scalar]);
    assert EncodeAll([d.scalar]) == Encode(d.scalar) + [];
    assert data[..d.next] == data[..index] + data[index..d.next];
    var rest := Scalars(data, d.next);
    if rest.Some? {
      assert passed + ([d.scalar] + rest.value) == (passed + [d.scalar]) + rest.value;
    }
  }

  lemma PassedAtEnd(data: seq<Byte>, passed: seq<Scalar>)
    requires Passed(data, |data|, passed)
    ensures Scalars(data, 0) == Some(passed)
  {
    assert passed + [] == passed;
  }

  /** The scalars passed are a prefix of the string's. */
  lemma PassedIsPrefix(data: seq<Byte>, index: nat, passed: seq<Scalar>)
    requires Passed(data, index, passed) && Valid(data)
    ensures |passed| <= |Content(data)| && passed == Content(data)[..|passed|]
    ensures index < |data| ==> |passed| < |Content(data)|
    ensures Decode(data, index).Some? <==> index < |data|
    ensures index < |data| ==> Decode(data, index).value.scalar == Content(data)[|passed|]
  {
    if index < |data| {
      DecodeInverts(data, index);
    }
  }

  method TryCountScalars(data: seq<Byte>) returns (count: Option<nat>)
    ensures count == if Valid(data) then Some(|Content(data)|) else None
  {
    var index, n := 0, 0;
    ghost var passed: seq<Scalar> := [];
    PassedNone(data);
    while index < |data|
      invariant Passed(data, index, passed) && n == |passed|
      decreases |data| - index
    {
      var d := Decode(data, index);
      if d.None? {
        return None;
      }
      PassNext(data, index, passed);
      passed := passed + [d.value.scalar];
      index, n := d.value.next, n + 1;
    }
    PassedAtEnd(data, passed);
    return Some(n);
  }

  /** A slice bound being looked for: the scalar position asked for, and the byte where it was found. */
  datatype Bound = Bound(position: nat, found: bool, at: nat)

  function Advance(bound: Bound, scalarIndex: nat, offset: nat): Bound {
    if !bound.found && scalarIndex == bound.position then bound.(found := true, at := offset) else bound
  }

  /** A bound is found once the cursor has passed that many scalars, at the byte where they end. */
  ghost predicate Marked(bound: Bound, passed: seq<Scalar>) {
    && (bound.found ==> bound.position <= |passed| && bound.at == |EncodeAll(passed[..bound.position])|)
    && (!bound.found ==> bound.position == 0 || bound.position > |passed|)
  }

  lemma MarkNext(bound: Bound, passed: seq<Scalar>, v: Scalar, offset: nat)
    requires Marked(bound, passed) && offset == |EncodeAll(passed + [v])|
    ensures Marked(Advance(bound, |passed| + 1, offset), passed + [v])
    ensures bound.found ==> Advance(bound, |passed| + 1, offset).found
    ensures bound.position == 0 ==> Advance(bound, |passed| + 1, offset).found == bound.found
  {
    if bound.found {
      assert (passed + [v])[..bound.position] == passed[..bound.position];
    } else if bound.position == |passed| + 1 {
      assert (passed + [v])[..bound.position] == passed + [v];
    }
  }

  /** The pass of a slice over the whole string, which also checks its layout. */
  method FindBounds(data: seq<Byte>, start: Bound, end: Bound) returns (count: Option<nat>, first: Bound, last: Bound)
    requires start.at == 0 && end.at == 0 && (start.found ==> start.position == 0) && (end.found ==> end.position == 0)
    ensures count == if Valid(data) then Some(|Content(data)|) else None
    ensures Valid(data) ==> Marked(first, Content(data)) && Marked(last, Content(data))
    ensures first.position == start.position && last.position == end.position
    ensures (first.position == 0 ==> first.found == start.found) && (last.position == 0 ==> last.found == end.found)
  {
    first, last := start, end;
    var offset, scalarIndex := 0, 0;
    ghost var passed: seq<Scalar> := [];
    PassedNone(data);
    while offset < |data|
      invariant Passed(data, offset, passed) && scalarIndex == |passed|
      invariant Marked(first, passed) && Marked(last, passed)
      invariant first.position == start.position && last.position == end.position
      invariant (first.position == 0 ==> first.found == start.found) && (last.position == 0 ==> last.found == end.found)
      decreases |data| - offset
    {
      var d := Decode(data, offset);
      if d.None? {
        return None, first, last;
      }
      PassNext(data, offset, passed);
      MarkNext(first, passed, d.value.scalar, d.value.next);
      MarkNext(last, passed, d.value.scalar, d.value.next);
      passed := passed + [d.value.scalar];
      offset, scalarIndex := d.value.next, scalarIndex + 1;
      first, last := Advance(first, scalarIndex, offset), Advance(last, scalarIndex, offset);
    }
    PassedAtEnd(data, passed);
    count := Some(scalarIndex);
  }

  method Slice(t: Text, start: int, end: int) returns (r: Outcome<Text>)
    requires |t.data| <= MAXIMUM_SIZE && t.scalarCount <= MAXIMUM_SIZE
    ensures r.InvalidLayout? <==> !(Valid(t.data) && t.scalarCount == |Content(t.data)|)
    ensures !r.InvalidLayout? ==> (r.Returned? <==> 0 <= start <= end <= t.scalarCount)
    ensures r.Returned? ==> WellFormed(r.value) && Content(r.value.data) == Content(t.data)[start..end]
    ensures r.Returned? || r.InvalidLayout? || r.OutOfBounds?
  {
    var nonnegative := start >= 0 && end >= 0;
    var requestedStart, requestedEnd := if nonnegative then start else 0, if nonnegative then end else 0;
    var count, first, last := FindBounds(t.data, Bound(requestedStart, nonnegative && requestedStart == 0, 0),
                                         Bound(requestedEnd, nonnegative && requestedEnd == 0, 0));
    if count != Some(t.scalarCount) {
      return InvalidLayout;
    }
    if !nonnegative || start > end || !first.found || !last.found {
      return OutOfBounds;
    }
    ghost var s := Content(t.data);
    Parts(s, start, end);
    SliceIsExact(t.data, s[..start], s[start..end], s[end..]);
    return Returned(Text(t.data[first.at..last.at], requestedEnd - requestedStart));
  }

  /** The bytes between two scalar boundaries are the encoding of the scalars between them. */
  lemma SliceIsExact(data: seq<Byte>, a: seq<Scalar>, b: seq<Scalar>, c: seq<Scalar>)
    requires Scalars(data, 0) == Some(a + b + c)
    ensures var i, j := |EncodeAll(a)|, |EncodeAll(a + b)|;
            i <= j <= |data| && data[i..j] == EncodeAll(b) && Scalars(data[i..j], 0) == Some(b)
  {
    ValidIsEncoded(data, a + b + c);
    CutMiddle(a, b, c);
    ValidIsEncoded(EncodeAll(b), b);
  }

  lemma Parts<T>(s: seq<T>, start: nat, end: nat)
    requires start <= end <= |s|
    ensures s[..start] + s[start..end] == s[..end]
    ensures s[..start] + s[start..end] + s[end..] == s
  {
  }

  lemma CutMiddle(a: seq<Scalar>, b: seq<Scalar>, c: seq<Scalar>)
    ensures var e, i, j := EncodeAll(a + b + c), |EncodeAll(a)|, |EncodeAll(a + b)|;
            i <= j <= |e| && e[i..j] == EncodeAll(b)
  {
    EncodeAllAppend(a + b, c);
    EncodeAllAppend(a, b);
  }

  method Concat(left: Text, right: Text) returns (r: Outcome<Text>)
    requires WellFormed(left) && WellFormed(right)
    ensures r.TooLarge? || r.Returned?
    ensures r.Returned? <==>
              |left.data| + |right.data| <= MAXIMUM_SIZE
              && left.scalarCount + right.scalarCount <= MAXIMUM_SIZE
    ensures r.Returned? ==> WellFormed(r.value) && Content(r.value.data) == Content(left.data) + Content(right.data)
  {
    if |left.data| + |right.data| > MAXIMUM_SIZE || left.scalarCount + right.scalarCount > MAXIMUM_SIZE {
      return TooLarge;
    }
    ConcatAddsScalars(left.data, right.data);
    return Returned(Text(left.data + right.data, left.scalarCount + right.scalarCount));
  }

  method ScalarAt(t: Text, index: int) returns (r: Outcome<nat>)
    ensures r.InvalidLayout? <==> !WellFormed(t)
    ensures WellFormed(t) ==> r == if 0 <= index < t.scalarCount then Returned(Content(t.data)[index]) else OutOfBounds
  {
    var count := TryCountScalars(t.data);
    if |t.data| > MAXIMUM_SIZE || t.scalarCount > MAXIMUM_SIZE || count != Some(t.scalarCount) {
      return InvalidLayout;
    }
    if index < 0 || index >= t.scalarCount {
      return OutOfBounds;
    }
    var offset, scalar := 0, 0;
    ghost var passed: seq<Scalar> := [];
    PassedNone(t.data);
    for k := 0 to index + 1
      invariant Passed(t.data, offset, passed) && k == |passed|
      invariant k > 0 ==> scalar == Content(t.data)[k - 1]
    {
      PassedAll(t.data, offset, passed);
      PassedIsPrefix(t.data, offset, passed);
      var d := Decode(t.data, offset).value;
      PassNext(t.data, offset, passed);
      passed := passed + [d.scalar];
      offset, scalar := d.next, d.scalar;
    }
    return Returned(scalar);
  }

  lemma PassedAll(data: seq<Byte>, index: nat, passed: seq<Scalar>)
    requires Passed(data, index, passed) && Valid(data) && |passed| < |Content(data)|
    ensures index < |data|
  {
    if index == |data| {
      PassedAtEnd(data, passed);
    }
  }

  /** The cursor before the `k`th scalar. */
  function CursorOf(t: Text, k: nat): nat
    requires WellFormed(t) && k <= t.scalarCount
  {
    |EncodeAll(Content(t.data)[..k])|
  }

  lemma CursorEnds(t: Text)
    requires WellFormed(t)
    ensures CursorOf(t, 0) == 0 && CursorOf(t, t.scalarCount) == |t.data|
  {
    var s := Content(t.data);
    ValidIsEncoded(t.data, s);
    assert s[..|s|] == s;
  }

  /** What stands at the cursor before a scalar. */
  lemma CursorDecodes(t: Text, k: nat)
    requires WellFormed(t) && k < t.scalarCount
    ensures CursorOf(t, k) < |t.data| && !IsContinuation(t.data[CursorOf(t, k)])
    ensures Decode(t.data, CursorOf(t, k)) == Some(Decoded(Content(t.data)[k], CursorOf(t, k + 1)))
  {
    var s := Content(t.data);
    Parts(s, k, k + 1);
    assert s[k..k + 1] == [s[k]];
    StepIsExact(t.data, s[..k], s[k], s[k + 1..]);
  }

  /** A byte of encoded text that continues nothing starts a scalar. */
  lemma {:induction false} StartOfScalar(s: seq<Scalar>, i: nat) returns (k: nat)
    requires i < |EncodeAll(s)| && !IsContinuation(EncodeAll(s)[i])
    ensures k < |s| && |EncodeAll(s[..k])| == i
    decreases |s|
  {
    var first := Encode(s[0]);
    if i < |first| {
      TrailsContinue(s[0], i);
      return 0;
    }
    var rest := StartOfScalar(s[1..], i - |first|);
    k := rest + 1;
    assert s[..k] == [s[0]] + s[1..][..rest];
    EncodeAllFirst(s[0], s[1..][..rest]);
  }

  lemma TrailsContinue(v: Scalar, i: nat)
    requires i < |Encode(v)|
    ensures i > 0 ==> IsContinuation(Encode(v)[i])
  {
  }

  /** The cursor stands before some scalar or at the end. */
  ghost predicate AtBoundary(t: Text, cursor: int)
    requires WellFormed(t)
  {
    exists k: nat :: k <= t.scalarCount && CursorOf(t, k) == cursor
  }

  /** Whether a cursor is at a boundary shows in one byte. */
  lemma BoundaryShows(t: Text, cursor: int)
    requires WellFormed(t)
    ensures AtBoundary(t, cursor)
       <==> 0 <= cursor <= |t.data| && (cursor == 0 || cursor == |t.data| || !IsContinuation(t.data[cursor]))
  {
    CursorEnds(t);
    if AtBoundary(t, cursor) {
      var k: nat :| k <= t.scalarCount && CursorOf(t, k) == cursor;
      if k < t.scalarCount {
        CursorDecodes(t, k);
      }
    }
    if 0 < cursor < |t.data| && !IsContinuation(t.data[cursor]) {
      ValidIsEncoded(t.data, Content(t.data));
      var k := StartOfScalar(Content(t.data), cursor);
      assert CursorOf(t, k) == cursor;
    }
  }

  /** One step of iteration from a byte cursor: before a scalar, that scalar and the cursor after it; at the end,
      nothing; elsewhere in a well-formed string, a bad cursor. Of other strings it returns only what stands there. */
  method NextScalar(t: Text, cursor: int) returns (r: Outcome<Option<Decoded>>)
    ensures WellFormed(t) ==> (r.BadCursor? <==> !AtBoundary(t, cursor))
    ensures WellFormed(t) ==> forall k: nat :: k < t.scalarCount && CursorOf(t, k) == cursor ==>
              r == Returned(Some(Decoded(Content(t.data)[k], CursorOf(t, k + 1))))
    ensures WellFormed(t) && CursorOf(t, t.scalarCount) == cursor ==> r == Returned(None)
    ensures !WellFormed(t) && r.Returned? ==>
              r.value.Some? && cursor >= 0 && Decode(t.data, cursor) == r.value
  {
    if |t.data| > MAXIMUM_SIZE || t.scalarCount > MAXIMUM_SIZE {
      return InvalidLayout;
    }
    if WellFormed(t) {
      CursorEnds(t);
      BoundaryShows(t, cursor);
      forall k: nat | k < t.scalarCount
        ensures CursorOf(t, k) < |t.data|
        ensures Decode(t.data, CursorOf(t, k)) == Some(Decoded(Content(t.data)[k], CursorOf(t, k + 1)))
      {
        CursorDecodes(t, k);
      }
    }
    if cursor < 0 || cursor > |t.data| {
      return BadCursor;
    }
    if cursor == |t.data| {
      var count := TryCountScalars(t.data);
      return if count == Some(t.scalarCount) then Returned(None) else InvalidLayout;
    }
    if cursor != 0 && IsContinuation(t.data[cursor]) {
      return BadCursor;
    }
    var d := Decode(t.data, cursor);
    return if d.None? then InvalidLayout else Returned(d);
  }

  /** A whole iteration: from cursor zero until nothing is left, the steps return the scalars of a string in order. */
  method Enumerate(t: Text) returns (scalars: seq<nat>)
    requires WellFormed(t)
    ensures scalars == Content(t.data)
  {
    scalars := [];
    CursorEnds(t);
    var cursor, more := 0, true;
    while more
      invariant |scalars| <= t.scalarCount && cursor == CursorOf(t, |scalars|)
      invariant forall j :: 0 <= j < |scalars| ==> scalars[j] == Content(t.data)[j]
      invariant !more ==> |scalars| == t.scalarCount
      decreases more, t.scalarCount - |scalars|
    {
      ghost var k := |scalars|;
      var step := NextScalar(t, cursor);
      if k < t.scalarCount {
        assert CursorOf(t, k) == cursor;
        assert step == Returned(Some(Decoded(Content(t.data)[k], CursorOf(t, k + 1))));
      } else {
        assert step == Returned(None);
      }
      if step.value.None? {
        more := false;
      } else {
        scalars := scalars + [step.value.value.scalar];
        cursor := step.value.value.next;
      }
    }
  }

  lemma StepIsExact(data: seq<Byte>, before: seq<Scalar>, v: Scalar, after: seq<Scalar>)
    requires Scalars(data, 0) == Some(before + [v] + after)
    ensures var i := |EncodeAll(before)|;
            && i < |data| && !IsContinuation(data[i])
            && Decode(data, i) == Some(Decoded(v, |EncodeAll(before + [v])|))
  {
    SliceIsExact(data, before, [v], after);
    assert EncodeAll([v]) == Encode(v);
    EncodeAllAppend(before, [v]);
    var i := |EncodeAll(before)|;
    DecodeFinds(data, i, v);
    LeadIsNotContinuation(v);
    BytesAt(data, i, Encode(v));
  }

  lemma LeadIsNotContinuation(v: Scalar)
    ensures !IsContinuation(Encode(v)[0])
  {
  }
}
