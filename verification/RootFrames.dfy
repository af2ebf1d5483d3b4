/** The runtime's linked list of root frames. Each frame is a record of the caller's that points at the one pushed
    before it, so a frame that is pushed again while it is active overwrites its own link. */
module RootFrames {
  import opened Wrappers
  import opened HeapModel

  datatype Record = Record(previous: Address, slots: seq<SlotId>)

  /** The records met from an address on, down to null. */
  predicate Chain(records: map<Address, Record>, top: Address, path: seq<Address>)
    decreases |path|
  {
    if path == [] then top == 0
    else top == path[0] && top != 0 && top in records && Chain(records, records[top].previous, path[1..])
  }

  /** Walking the list from its top comes to an end, as the collector's walk has to. */
  ghost predicate Ends(records: map<Address, Record>, top: Address) {
    exists path :: Chain(records, top, path)
  }

  /** The frames of a chain as the collector sees them, innermost first. */
  function Frames(records: map<Address, Record>, path: seq<Address>): (frames: seq<Frame>)
    ensures |frames| == |path|
    ensures forall i :: 0 <= i < |path| ==> frames[i].address == path[i]
    ensures forall i :: 0 <= i < |path| && path[i] in records ==> frames[i].slots == records[path[i]].slots
  {
    seq(|path|, i requires 0 <= i < |path| =>
      Frame(path[i], if path[i] in records then records[path[i]].slots else []))
  }

  /** Only one chain leads down from an address. */
  lemma {:induction false} ChainIsUnique(records: map<Address, Record>, top: Address, path: seq<Address>,
                                         other: seq<Address>)
    requires Chain(records, top, path) && Chain(records, top, other)
    ensures path == other
    decreases |path|
  {
    if path != [] {
      ChainIsUnique(records, records[top].previous, path[1..], other[1..]);
      assert path == [path[0]] + path[1..] && other == [other[0]] + other[1..];
    }
  }

  /** A record off the chain does not matter to it. */
  lemma {:induction false} ChainIsLocal(records: map<Address, Record>, top: Address, path: seq<Address>,
                                        frame: Address, record: Record)
    requires Chain(records, top, path) && frame !in path
    ensures Chain(records[frame := record], top, path)
    decreases |path|
  {
    if path != [] {
      ChainIsLocal(records, records[top].previous, path[1..], frame, record);
    }
  }

  /** From a frame down to one further down, a chain passes through the latter whatever that one's record says. */
  lemma {:induction false} ChainComesBy(records: map<Address, Record>, top: Address, path: seq<Address>,
                                        frame: Address, record: Record, other: seq<Address>) returns (i: nat)
    requires Chain(records, top, path) && frame in path && Chain(records[frame := record], top, other)
    ensures i <= |other| && Chain(records[frame := record], frame, other[i..])
    decreases |path|
  {
    if top == frame {
      return 0;
    }
    assert frame in path[1..];
    i := ChainComesBy(records, records[top].previous, path[1..], frame, record, other[1..]);
    assert other[1..][i..] == other[i + 1..];
    i := i + 1;
  }

  /** Pushing a frame keeps the list finite exactly when the frame was not active. */
  lemma PushedEnds(records: map<Address, Record>, top: Address, path: seq<Address>, frame: Address, slots: seq<SlotId>)
    requires Chain(records, top, path) && frame != 0
    ensures Ends(records[frame := Record(top, slots)], frame) <==> frame !in path
    ensures frame !in path ==> Chain(records[frame := Record(top, slots)], frame, [frame] + path)
  {
    var pushed := records[frame := Record(top, slots)];
    if frame !in path {
      ChainIsLocal(records, top, path, frame, Record(top, slots));
      assert ([frame] + path)[1..] == path;
      assert Chain(pushed, frame, [frame] + path);
    } else if other :| Chain(pushed, frame, other) {
      var i := ChainComesBy(records, top, path, frame, Record(top, slots), other[1..]);
      ChainIsUnique(pushed, frame, other, other[1..][i..]);
      assert false;
    }
  }

  /** Two frames are pushed, then the lower one again: the list has no end any more. */
  lemma PushedAgainLoops(first: seq<SlotId>, second: seq<SlotId>, again: seq<SlotId>)
    ensures var records := map[1 := Record(0, first), 2 := Record(1, second)];
            Chain(records, 2, [2, 1]) && !Ends(records[1 := Record(2, again)], 1)
  {
    var records := map[1 := Record(0, first), 2 := Record(1, second)];
    assert Chain(records, 0, []);
    assert [1][1..] == [] && Chain(records, 1, [1]);
    assert [2, 1][1..] == [1] && Chain(records, 2, [2, 1]);
    PushedEnds(records, 2, [2, 1], 1, again);
  }

  /** The frames after a push that is not of an active one. */
  lemma PushedFrames(records: map<Address, Record>, top: Address, path: seq<Address>, frame: Address,
                     slots: seq<SlotId>)
    requires Chain(records, top, path)
    ensures frame in path <==> IsActive(Frames(records, path), frame)
    ensures frame !in path ==>
              Frames(records[frame := Record(top, slots)], [frame] + path)
              == [Frame(frame, slots)] + Frames(records, path)
  {
    if frame in path {
      var i :| 0 <= i < |path| && path[i] == frame;
      assert Frames(records, path)[i].address == frame;
    }
  }

  lemma PoppedFrames(records: map<Address, Record>, path: seq<Address>, record: Record)
    requires path != [] && path[0] !in path[1..]
    ensures Frames(records[path[0] := record], path[1..]) == Frames(records, path)[1..]
  {
    assert forall i :: 1 <= i < |path| ==> path[i] == path[1..][i - 1];
  }

  class FrameList {
    var records: map<Address, Record>
    var top: Address

    constructor ()
      ensures top == 0 && records == map[]
      ensures Chain(records, top, [])
    {
      records, top := map[], 0;
    }

    /** Pushes a frame with the checks that the runtime makes. The list then still ends exactly when the frame was
        not active below the top, which the runtime does not check; if it was not, this is the push step. */
    method Push(frame: Address, hasTable: bool, slots: seq<SlotId>, ghost path: seq<Address>) returns (ok: bool)
      requires Chain(records, top, path)
      modifies this
      ensures ok <==> !(frame == 0 || hasTable != (slots != []) || frame == old(top) || 0 in slots)
      ensures !ok ==> records == old(records) && top == old(top)
      ensures ok ==> records == old(records)[frame := Record(old(top), slots)] && top == frame
      ensures ok ==> (Ends(records, top) <==> frame !in path)
      ensures ok && frame !in path ==> Chain(records, top, [frame] + path)
      ensures forall s: State :: s.frames == Frames(old(records), path) ==>
                Step(s, Action.PushFrame(frame, hasTable, slots))
                == if ok && frame !in path then Some(s.(frames := Frames(records, [frame] + path))) else None
    {
      if frame == 0 || hasTable == (slots == []) || frame == top { return false; }
      for i := 0 to |slots|
        invariant 0 !in slots[..i]
      {
        if slots[i] == 0 { return false; }
      }
      assert slots[..|slots|] == slots;
      PushedFrames(records, top, path, frame, slots);
      PushedEnds(records, top, path, frame, slots);
      records := records[frame := Record(top, slots)];
      top := frame;
      ok := true;
    }

    /** Pops the frame at the top and no other; its record is cleared. */
    method Pop(frame: Address, ghost path: seq<Address>) returns (ok: bool)
      requires Chain(records, top, path)
      modifies this
      ensures ok <==> frame != 0 && frame == old(top)
      ensures !ok ==> records == old(records) && top == old(top)
      ensures ok ==> path != [] && path[0] == frame && Chain(records, top, path[1..])
      ensures ok ==> records == old(records)[frame := Record(0, [])]
      ensures forall s: State :: s.frames == Frames(old(records), path) ==>
                Step(s, Action.PopFrame(frame)) == if ok then Some(s.(frames := Frames(records, path[1..]))) else None
    {
      ok := frame != 0 && frame == top;
      if ok {
        var below := records[frame].previous;
        PathIsSimple(records, top, path);
        ChainIsLocal(records, below, path[1..], frame, Record(0, []));
        PoppedFrames(records, path, Record(0, []));
        records := records[frame := Record(0, [])];
        top := below;
      }
    }
  }

  /** A chain does not come back to where it starts. */
  lemma PathIsSimple(records: map<Address, Record>, top: Address, path: seq<Address>)
    requires Chain(records, top, path) && path != []
    ensures top !in path[1..]
  {
    if top in path[1..] {
      var record := records[top];
      assert records[top := record] == records;
      var i := ChainComesBy(records, record.previous, path[1..], top, record, path[1..]);
      ChainIsUnique(records, top, path, path[1..][i..]);
    }
  }
}
